# A verified model of the microkernel's core

The system is a small microkernel of the MINIX family: processes talk by synchronous messages, and
the file system (FS), the memory manager (MM) and the terminal driver (TTY) are ordinary processes.
This project models its state machines in Dafny and proves what they keep over every run.

| files | part of the system |
|---|---|
| `Config.dfy` | table sizes and reserved process numbers |
| `Mailboxes.dfy`, `MailboxRuns.dfy`, `Ipc.dfy` | message passing: abstract FIFO mailboxes, their run theorems, and the process table with its intrusive queues, which refines them |
| `Scheduling.dfy`, `SchedulingRuns.dfy` | `schedule` with `clock_handler`, and fairness over runs |
| `Disk.dfy`, `BitMaps.dfy`, `SectorMap.dfy`, `FileMaps.dfy` | the disk, bits of bytes, the sector-map allocator, and both maps over runs of mkfs, create and unlink |
| `InodeStore.dfy`, `TableSteps.dfy`, `FileTables.dfy` | inode records on disk; what each request does to the tables, as functions; the inode cache, descriptors and reference counts over runs of open, close, read, write, fork, exit and unlink |
| `ReadWrite.dfy` | the chunk loop of `do_rdwt` |
| `FileIsolation.dfy` | a write to one file against the maps, the inodes and the other files |
| `Directory.dfy` | the flat root directory as a finite map |
| `ForkExit.dfy` | fork, exit and wait |
| `Tty.dfy` | the input ring and the line discipline |
| `Segments.dfy` | descriptors and the memory of forked processes |

Code that updates tables is a class over arrays with a ghost abstract state or a specification
function; the run theorems are about those. Panics and failed assertions are results;
the few preconditions are listed under Left out. Each `sys_sendrec`, `inform_int` and clock step is taken as atomic, although the
kernel enables interrupts inside system calls (kernel/kernel.asm:367).

## Where the code does not meet its documentation

The model follows the code; for each point there is a concrete case, and the exact condition under
which the code does what is promised.

- The assertion after a blocking receive (kernel/proc.c:516) that no interrupt is pending fails
  exactly when the caller names one process that is not sending to it while an interrupt is pending
  (`BlockedWithInterrupt`, `InterruptedSelectiveReceive`).
- `alloc_imap_bit` returns 0 instead of reaching its panic when the one map sector is full
  (`AllocImapBit`).
- The sector map has bits for sectors past the end of the partition, and the allocator hands them out,
  except for the partition sizes of `ExtentsInsidePartition`.
- `do_rdwt` limits the end position and not the byte count: a request past the limit moves more than
  the limit allows (`MovesWhatFits`, `WriteStaysInside`, `ReadKeepsSize`; `WriteSpills`, `ReadGrows`).
- A 12-character name puts its terminator on the next directory entry (`CreateAddsName`,
  `LongNameHitsNext`).
- Unlinking the last directory entry shrinks the directory to the number of live entries, which can
  cut off a live one (`UnlinkRemovesName`, `ShrinkLosesName`).
- A refused unlink keeps the reference it took (`DoUnlink`, `PinsAreRefusals`).
- `do_wait` takes a freed slot that still carries the caller's number for a child: whoever reaped its
  last child and waits again waits for ever (`WaitStrands`, `LastReapStrands`, `WaitsForNobody`,
  `Execute` of `ForkExit`).
- A terminal read of zero characters is never resumed (`Answerable`, `OneRequest`), and a second
  request replaces an open one (`Balance`).
- `alloc_mem` checks the size of the caller, while the child gets a whole megabyte: the child of a
  native process can end past the memory size, exactly when that process is smaller than an image by
  more than a byte (`WholeImagesFit`).

## Model

| member | source | states |
|---|---|---|
| Mailboxes.BlockKeepsAcyclic | kernel/proc.c:250-274 | blocking a sender keeps the wait-for graph acyclic if and only if the deadlock check finds no path back |
| Mailboxes.UnblockKeepsAcyclic | kernel/proc.c:227-231 | unblocking never makes a cycle |
| Mailboxes.WithoutKeeps | kernel/proc.c:449-486 | taking one sender out of a queue keeps all others |
| Mailboxes.SendKeepsInv | kernel/proc.c:291-353 | a send keeps: each mailbox holds exactly the processes sending to its owner, no lost wakeup, no cycle |
| Mailboxes.TakeKeepsInv | kernel/proc.c:471-501 | taking a blocked sender's message keeps the invariant |
| Mailboxes.ReceiveKeepsInv | kernel/proc.c:370-520 | a receive of any kind keeps the invariant |
| Mailboxes.InterruptKeepsInv | kernel/proc.c:531-554 | an interrupt notice keeps the invariant |
| Mailboxes.StepKeepsInv | kernel/proc.c:64-96 | every kernel step keeps the invariant |
| MailboxRuns.Exec | kernel/proc.c:64-96 | the invariant holds in every state of every run from a valid state |
| MailboxRuns.StepConserves | kernel/proc.c:291-520 | one step adds to the flow from p to d just the message it accepted |
| MailboxRuns.Conservation | kernel/proc.c:291-520 | over every run the messages accepted from p for d are those delivered, intact, in order and with the true source, then the one still pending with p blocked |
| MailboxRuns.DeliveriesAreGenuine | kernel/proc.c:389-399 | nothing else is delivered but interrupt messages |
| MailboxRuns.ReceivesAreAnswered | kernel/proc.c:302-322 | over every run each call of receive is answered with exactly one message, but for one the caller is still blocked in |
| MailboxRuns.InterruptsAreTold | kernel/proc.c:389-406 | over every run each interrupt that found none pending is told to its task exactly once, or is still pending |
| MailboxRuns.InterruptFirst | kernel/proc.c:383-406 | a pending interrupt is told before any message, is then no longer pending, and leaves the queue alone |
| MailboxRuns.InterruptWakes | kernel/proc.c:531-554 | an interrupt wakes a task waiting for ANY or INTERRUPT with the notice, and otherwise only becomes pending |
| MailboxRuns.Rendezvous | kernel/proc.c:291-520 | from boot a send and a receive that accepts it meet in either order, with the same deliveries, modes, queues and memory |
| MailboxRuns.MailboxesAreFifo | kernel/proc.c:332-343 | every queue lists its senders in the order in which they blocked |
| MailboxRuns.AnyTakesLongestBlocked | kernel/proc.c:410-428 | RECEIVE ANY takes the longest-blocked sender and leaves the rest of the queue in order |
| MailboxRuns.SelectiveReceive | kernel/proc.c:430-486 | RECEIVE from one process removes just that sender, wherever it queues |
| MailboxRuns.BlockedWithInterrupt | kernel/proc.c:502-518 | exactly when a receive blocks with an interrupt pending |
| MailboxRuns.InterruptedSelectiveReceive | kernel/proc.c:516 | such a state is reachable in two steps |
| Ipc.Kernel.constructor | kernel/main.c:99-142 | the boot table refines the empty mailboxes |
| Ipc.Kernel.Deadlock | kernel/proc.c:250-274 | the chain walk ends and finds src if and only if src is reachable from dest |
| Ipc.Kernel.HandOver | kernel/proc.c:302-325 | delivery to a waiting receiver is the abstract step, and the final assertions hold |
| Ipc.Kernel.Append | kernel/proc.c:332-343 | the walk links the caller in behind the whole queue |
| Ipc.Kernel.MsgSend | kernel/proc.c:291-353 | panics if and only if a deadlock would arise; otherwise refines the abstract send |
| Ipc.Kernel.FindSender | kernel/proc.c:443-457 | the search stops at the sender with its predecessor |
| Ipc.Kernel.Unlink | kernel/proc.c:471-486 | the sender, first or not, is linked out and its own link cleared |
| Ipc.Kernel.TakeFrom | kernel/proc.c:471-501 | linking out, copying and unblocking refine the abstract removal |
| Ipc.Kernel.MsgReceive | kernel/proc.c:370-520 | refines the abstract receive in all four cases, clears a told interrupt, and fails its last assertion exactly in the case above |
| Ipc.Kernel.InformInt | kernel/proc.c:531-554 | refines the abstract interrupt |
| Ipc.Kernel.SysSendrec | kernel/proc.c:64-96 | the outcome of every call, failed checks, panics and a SEND that indexes past the table included, and the state after it |
| Ipc.Kernel.Dispatch | kernel/proc.c:64-96 | an event halts the machine exactly when its checks fail |
| Ipc.Kernel.Execute | kernel/proc.c:64-96 | the concrete table refines the abstract run as far as it gets, and says where it halts |
| Ipc.EnqueueRefines | kernel/proc.c:326-343 | appending to the linked queue is appending to the mailbox |
| Ipc.TakeRefines | kernel/proc.c:471-501 | unlinking from the linked queue is removing from the mailbox |
| Ipc.FieldUpdateRefines | kernel/proc.c:212-231 | changing other fields keeps every queue |
| Scheduling.Scheduler.Scan | kernel/proc.c:33-40 | the first runnable process of maximal ticks, if any has ticks |
| Scheduling.Scheduler.RefillAll | kernel/proc.c:42-45 | every runnable process gets its priority in ticks; the others, and all priorities and states, stay as they are |
| Scheduling.Scheduler.Schedule | kernel/proc.c:27-48 | ends within two passes, on a runnable process of maximal ticks; no process that is not runnable changes |
| Scheduling.SpinsForever | kernel/proc.c:27-48 | with no runnable process of positive ticks or priority no number of passes ends the loop |
| Scheduling.Scheduler.ClockHandler | kernel/clock.c:19-44 | one tick charged, the counter wrapped, and a new choice only when the running process has used up its ticks outside a re-entered interrupt; only TTY may become runnable, no priority changes, and blocked processes keep their ticks |
| SchedulingRuns.PickUnique | kernel/proc.c:33-40 | the choice is determined by the table |
| SchedulingRuns.Serve | kernel/clock.c:19-44 | a tick, a block or a wake-up on the table is a step of the machine the fairness theorems are about |
| SchedulingRuns.Execute | kernel/proc.c:27-48 | over every run in which `schedule` returns, table and running process are those of that machine |
| SchedulingRuns.EffectFields | kernel/proc.c:212-231 | a block stops the running process and a wake-up readies one; neither touches ticks or priorities |
| SchedulingRuns.BlockedKeepsTicks | kernel/proc.c:42-45 | a process blocked throughout a run, refills included, keeps the ticks it had |
| SchedulingRuns.RunKeepsCharges | kernel/clock.c:19-44 | over every run with blocking and waking, ticks charged plus ticks left is the priority for each process that stayed runnable |
| SchedulingRuns.ExactShareAtRefill | kernel/proc.c:42-45 | at each refill such a process has been charged exactly its priority |
| SchedulingRuns.DuringRound | kernel/clock.c:19-44 | inside a round each tick is charged once and nobody is refilled |
| SchedulingRuns.ClockIsRun | kernel/clock.c:19-44 | the clock of the round theorems is that machine on ticks alone |
| SchedulingRuns.RoundIsExact | kernel/proc.c:27-48 | for a fixed set the refill comes after exactly the ticks left, each process served what it had |
| SchedulingRuns.RefillToRefill | kernel/proc.c:27-48 | from refill to refill it takes the sum of the priorities, priority(p) of it for p |
| Disks.Disk.Read | fs/main.c:322-337 | an ideal read of whole sectors into the buffer |
| Disks.Disk.Write | fs/main.c:322-337 | an ideal write of the buffer, nothing else changed |
| BitMaps.MaskedOnes | fs/link.c:140-142 | the mask test of the last byte looks at exactly the low bits |
| BitMaps.AssignedFrame | fs/link.c:103-143 | a byte that holds no bit of the range is unchanged |
| SectorMap.FirstZero | fs/open.c:327 | the lowest clear bit of a byte |
| SectorMap.FillByte | fs/open.c:332-336 | sets exactly the bits asked for, and fails if and only if one is set already |
| SectorMap.ScanByte | fs/open.c:322-336 | one turn of the byte loop keeps the scan invariant, or shows that there is no room |
| SectorMap.ScanSector | fs/open.c:318-344 | one sector of the scan, with write-back |
| SectorMap.AllocSmapBit | fs/open.c:305-349 | succeeds if and only if the n bits from the first clear one are clear and in the map; sets exactly those; the sector returned matches |
| SectorMap.ClearByte | fs/link.c:114-119 | clears exactly the first byte's share, or finds a clear bit |
| SectorMap.ClearMiddle | fs/link.c:121-132 | the whole-byte loop, across sectors |
| SectorMap.ClearLast | fs/link.c:134-143 | the masked last byte, also with no bits left |
| SectorMap.FreeSmapBits | fs/link.c:103-143 | for every start and length: the assertions hold if and only if all those bits are set, and then exactly they are cleared in the whole map |
| FileMaps.AllocImapBit | fs/open.c:258-292 | the least clear inode bit, set, or 0 with nothing changed when the sector is full |
| FileMaps.FreeImapBit | fs/link.c:79-86 | the assertion is that the bit is set; exactly that bit is cleared |
| FileMaps.NoSharedSector | fs/open.c:350-359 | no two files, nor a file and the root directory, share a sector |
| FileMaps.FirstExtent | fs/open.c:350-359 | the first clear bit begins a whole free extent |
| FileMaps.NoRoomInSmap | fs/open.c:305-349 | with every extent used the allocator finds no room |
| FileMaps.AllocInode | fs/open.c:161 | the least free inode number, and the sector map untouched |
| FileMaps.AllocExtent | fs/open.c:163 | the "bit is clear" assertion fails if and only if no whole extent is free; otherwise the lowest one is taken |
| FileMaps.CreateMaps | fs/open.c:154-170 | both allocations, least free inode and least free extent, with the exact condition of each failure; no byte outside the maps changes |
| FileMaps.UnlinkMaps | fs/link.c:79-143 | for a live file both assertions hold, exactly its bits are cleared, and no byte outside the maps changes |
| FileMaps.CreateThenUnlink | fs/link.c:79-143 | the map work of create then unlink restores the whole disk byte for byte |
| FileMaps.SameMaps | fs/open.c:305-349 | the maps are determined by the set of files |
| FileMaps.StepMaps | fs/open.c:154-170 | one create or unlink yields the next set of files, or stops exactly under its condition |
| FileMaps.MakeSuper | fs/main.c:175-188 | the layout, with more map bits than sectors |
| FileMaps.DiskLayout | fs/main.c:175-188 | the sectors of both maps, of the inodes and of the data, in numbers |
| FileMaps.MkfsImap | fs/main.c:217-233 | the inode map of an empty file system |
| FileMaps.MkfsSmap | fs/main.c:235-255 | bit 0 and the root's extent marked, the rest of the map clear |
| FileMaps.ExtentsInsidePartition | fs/main.c:181-188 | exactly the sizes for which every extent lies inside the partition |
| FileMaps.RunMaps | fs/link.c:79-143 | over every run of mkfs, creates and unlinks the maps are exactly those of the files computed from the operations, and the run stops if and only if no inode or no whole extent is left, or the file is not there |
| InodeStore.RecordPlace | fs/main.c:454-460 | the record of every valid number lies inside the inode area and inside one sector |
| InodeStore.RecordLayout | include/sys/fs.h:121-126 | the record is mode, size, first sector and number of sectors, in this order, each lowest byte first |
| InodeStore.ByteOfShifts | fs/main.c:503-506 | which bits of a word each of its bytes holds |
| InodeStore.SyncInode | fs/main.c:494-508 | the record holds the four fields, and no byte outside its 32 changes |
| InodeStore.LoadInode | fs/main.c:454-464 | the four fields of the record |
| InodeStore.RecordsApart | fs/main.c:494-508 | other inodes' records are unaffected |
| FileTables.Tables.constructor | fs/main.c:89-133 | empty tables with the root inode pinned |
| FileTables.Tables.GetInode | fs/main.c:427-466 | the cached slot or else the first free one, loaded from disk; exactly when it panics |
| FileTables.Tables.PutInode | fs/main.c:479-482 | one reference less; the assertion holds |
| FileTables.Tables.StoreSlot | fs/main.c:494-508 | write-through keeps cache and disk equal |
| FileTables.Tables.Connect | fs/open.c:84-93 | the new reference is turned into exactly one `filp` entry on a fresh descriptor |
| FileTables.Tables.OpenExisting | fs/open.c:45-122 | which of the five outcomes, in the order of the checks, and the whole tables after a success; counts stay exact |
| FileTables.Tables.NewInode | fs/open.c:375-392 | exactly when the cache is full; otherwise an unused number gets a slot with one reference and its record on disk |
| FileTables.Tables.OpenCreate | fs/open.c:66-122 | which outcome, the new record in fields, and the whole tables after a success; counts stay exact |
| FileTables.Tables.EndTransfer | fs/read_write.c:130-144 | the position becomes the old one plus the bytes moved, and a size it passes grows with it, in the cache and on disk; nothing else changes |
| FileTables.Tables.SyncRoot | fs/open.c:438-449 | the directory's new size is in the cache and on disk, its other fields unchanged |
| FileTables.Tables.DoClose | fs/open.c:197-205 | one entry gone, counts exact, the descriptor freed with its last entry |
| FileTables.Tables.FsExit | fs/main.c:555-570 | all entries of the process gone, counts exact |
| FileTables.Tables.ForkCopy | mm/forkexit.c:46 | the child's entries are copies not yet counted |
| FileTables.Tables.CountChildEntry | fs/main.c:536-541 | one entry counted: its descriptor is still in use because the parent is on it |
| FileTables.Tables.FsFork | fs/main.c:532-544 | after the handshake of MM and FS all entries are counted |
| FileTables.Tables.DoUnlink | fs/link.c:55-72 | succeeds if and only if the file is regular and nobody holds it, and then clears the record; a refusal leaves one reference |
| FileTables.Tables.Dispatch | fs/main.c:27-86 | a request is carried out exactly when it can be made and does not panic, and then is the abstract step; counts and cache stay exact |
| FileTables.Tables.Execute | fs/main.c:27-86 | over every run the tables are those of the abstract run, which stops only at a request that halts; `fd_cnt` and `i_cnt` are the numbers of entries, plus the root pin and exactly one for each refused unlink; the cache equals the disk |
| FileTables.AllCounts | fs/main.c:427-482 | the counts of descriptors and inodes are the numbers of `filp` entries, plus the references without a descriptor |
| FileTables.OutcomeInFields | fs/open.c:45-122 | which outcome an open has, in terms of free entries, descriptors and inode slots |
| FileTables.Tables.EntriesLead | fs/read_write.c:42-46 | every entry in use leads through a descriptor to an inode slot |
| TableSteps.HaltsInFields | fs/open.c:53-61 | exactly when each request halts FS, in terms of the tables |
| TableSteps.OpenFields | fs/open.c:84-93 | an open adds one reference from the first free entry through the first free descriptor, at position 0 in the mode asked for, to the cached or the first free slot |
| TableSteps.CreateFields | fs/open.c:375-392 | a create does so for a regular file of 2048 sectors and size 0, with its record on disk |
| TableSteps.CloseFields | fs/open.c:197-205 | a close takes one entry and one count of descriptor and inode; a descriptor still shared keeps position and mode |
| TableSteps.CopyFields | mm/forkexit.c:46 | the child's entries are the parent's |
| TableSteps.TransferFields | fs/read_write.c:130-144 | position plus bytes, the larger of size and position, in cache and on disk, and nothing else |
| TableSteps.WordSum | fs/read_write.c:133 | positions add as 32-bit words |
| TableSteps.WordMaximum | fs/read_write.c:138-140 | the size is the larger of two unsigned words |
| TableSteps.ResizeFields | fs/link.c:199-202 | only the root's size changes, in the cache and on disk |
| TableSteps.UnlinkFields | fs/link.c:148-154 | a regular file nobody holds loses record, slot and number; any other unlink takes a reference and keeps it |
| TableSteps.PositionIsSum | fs/read_write.c:133 | over every run a descriptor's position is the sum of the bytes moved through it since it was opened, whatever closes, forks and exits happen to those who share it |
| TableSteps.SlotForFull | fs/main.c:433-448 | get_inode finds no slot if and only if the inode is not cached and every slot is taken |
| TableSteps.StepPins | fs/link.c:55-72 | a step leaves a reference behind exactly when it is a refused unlink |
| TableSteps.PinsAreRefusals | fs/link.c:55-72 | over every run the references without a descriptor grow by the refused unlinks, each as often as it was refused |
| TableSteps.SuccessfulUnlinks | fs/link.c:148-154 | a run whose unlinks all succeed leaves none behind |
| FileTables.ReferencedIsLive | fs/main.c:433-445 | what an entry refers to is never taken for a free slot |
| ReadWrite.MovesWhatFits | fs/read_write.c:80-102 | exactly the requests inside the limit are moved in full and no further |
| ReadWrite.MovedExactly | fs/read_write.c:80-135 | what is moved ends with the request or with the sector of the limited end, whichever comes first |
| ReadWrite.MoveChunks | fs/read_write.c:100-135 | the chunk loop is one flat copy |
| ReadWrite.DoRdwt | fs/read_write.c:29-146 | exactly the bytes from the position on are copied; position, size and result follow |
| ReadWrite.WriteThenRead | fs/read_write.c:77-146 | a write inside the extent changes exactly those bytes, and reading the range returns them |
| ReadWrite.WriteStaysInside | fs/read_write.c:85-98 | exactly when a write stays inside the extent |
| ReadWrite.ReadKeepsSize | fs/read_write.c:80-98 | exactly when a read leaves the size alone |
| ReadWrite.WriteSpills | fs/read_write.c:85-98 | one byte too many lands in the next extent |
| ReadWrite.ReadGrows | fs/read_write.c:137-144 | a read past the end grows the file |
| FileIsolation.WriteIsLocal | fs/open.c:350-359 | bytes put inside one file's extent leave every other file, the root directory, the inodes and both maps as they are |
| FileIsolation.WriteFile | fs/read_write.c:85-146 | so does `do_rdwt` for every write that fits the extent, while the file gets exactly the new bytes |
| Directory.StripPath | fs/misc.c:105-127 | character by character: one leading slash dropped, 12 characters kept, an error exactly for a slash among them |
| Directory.NameChars | fs/open.c:443 | what strcpy leaves of a name, and what a search compares, character by character |
| Directory.LooksOnePast | fs/misc.c:57-64 | search also compares the entry past the last one unless it begins a sector, and nothing further on |
| Directory.Dir.SearchFile | fs/misc.c:30-69 | the nested scan is the lookup function; the empty name is the root |
| Directory.LookupIsMap | fs/misc.c:52-63 | lookup finds the live entry of a name and nothing else |
| Directory.Dir.PickSlot | fs/open.c:405-435 | the first hole, or the entry past the end |
| Directory.Dir.NewDirEntry | fs/open.c:405-450 | the entry written, with the terminator where strcpy puts it, and the size |
| Directory.InsertedFields | fs/open.c:442-443 | the entry's inode and name, the low byte of the next inode number a long name clears, and everything else unchanged |
| Directory.CreateAddsName | fs/open.c:437-450 | the new name resolves to the new inode and all others are unchanged if and only if the terminator does no harm |
| Directory.NextEntryHit | fs/open.c:443 | otherwise the next entry resolves to something else |
| Directory.Dir.RemoveEntry | fs/link.c:159-202 | the entry zeroed, and the new size |
| Directory.LiveBeforeCounts | fs/link.c:189-191 | the new size counts the live entries before the removed one |
| Directory.UnlinkRemovesName | fs/link.c:159-202 | the name is gone and all others unchanged if and only if the shrinking cuts off no live entry |
| Directory.DenseBefore | fs/link.c:189-202 | without holes before it the last entry can always be unlinked |
| Directory.DirectoryIsMap | fs/open.c:405-450 | over every run of harmless creates and unlinks lookup agrees with a finite map |
| Directory.ShortNameIsAdded | fs/open.c:405-450 | a name shorter than 12 characters can be added while there is room, and is then found |
| Directory.InnerEntryIsRemoved | fs/link.c:159-202 | an entry that is not the last can be removed, and is then not found |
| Directory.ShrinkLosesName | fs/link.c:199-202 | a directory in which unlinking one name loses another |
| Directory.LongNameHitsNext | fs/open.c:443 | a directory in which a 12-character name loses the next one |
| ForkExit.ProcTable.constructor | kernel/main.c:77-99 | the table at boot satisfies the invariant |
| ForkExit.ProcTable.Cleanup | mm/forkexit.c:238-247 | the status goes to the current parent, then the slot is free |
| ForkExit.ProcTable.DoFork | mm/forkexit.c:26-145 | the first free slot becomes a running child of the caller, which goes on, or no slot is free; nobody else changes |
| ForkExit.ProcTable.EndLife | mm/forkexit.c:192-212 | reported at once to a waiting parent, hanging otherwise |
| ForkExit.ProcTable.Adopt | mm/forkexit.c:215-224 | one turn of the reparenting loop |
| ForkExit.ProcTable.AdoptAll | mm/forkexit.c:215-224 | all children are INIT's; a waiting INIT reaps exactly the first that had exited |
| ForkExit.ProcTable.DoExit | mm/forkexit.c:190-225 | the whole table and log after an exit; no slot names the exited process |
| ForkExit.ProcTable.DoWait | mm/forkexit.c:269-297 | the first exited child is reaped; else a caller that a slot names waits; "no child" is said only when no slot names it; exactly who is left waiting for nothing |
| ForkExit.ProcTable.Serve | mm/main.c:27-59 | every call is the abstract step on table, log and histories, and keeps the invariant |
| ForkExit.ProcTable.Execute | mm/main.c:27-59 | every run is the abstract run of its calls: no exited child has a waiting parent, nobody names an exited parent, each exit status is reported once and in order before its slot is free, and to the parent of that moment |
| ForkExit.StepReports | mm/forkexit.c:204-224 | each report of a call goes to the parent the child has then (the one it had, or INIT when that one exits), with its status, and frees its slot |
| ForkExit.ReportsReachParents | mm/forkexit.c:238-247 | so does every report of every run |
| ForkExit.ExitFields | mm/forkexit.c:190-225 | an exit slot by slot: children to INIT, the waiting parent on its way or the status kept, INIT handed at most one exited child |
| ForkExit.WaitFields | mm/forkexit.c:269-297 | a wait slot by slot, in its three cases |
| ForkExit.WaitsAreAnswered | mm/forkexit.c:238-297 | over every run each call of wait gets exactly one reply, but for one the caller still waits in |
| ForkExit.NoChildIsTrue | mm/forkexit.c:290-296 | over every run "no child" is said only to a caller that no slot names as parent |
| ForkExit.ExitKeepsInv | mm/forkexit.c:190-225 | a whole exit keeps the handshake |
| ForkExit.AdoptKeepsInv | mm/forkexit.c:215-224 | reparenting keeps the handshake |
| ForkExit.EndKeepsInv | mm/forkexit.c:204-212 | ending a life keeps the handshake but for the children still to be reparented |
| ForkExit.WaitStrands | mm/forkexit.c:276-289 | a caller waits for nothing exactly when it has no child and a freed slot carries its number |
| ForkExit.LastReapStrands | mm/forkexit.c:246-289 | so does whoever waits again after reaping its last child |
| ForkExit.WaitsForNobody | mm/forkexit.c:269-297 | the run fork, exit, wait, wait from boot ends with the caller waiting for nobody |
| Tty.RubOut | kernel/tty.c:175-187 | a character rubbed out at once might as well not have been typed |
| Tty.PlainText | kernel/tty.c:175-197 | without editing keys the first n characters arrive as typed |
| Tty.DoneStays | kernel/tty.c:174 | keys after completion go nowhere |
| Tty.TextFits | kernel/tty.c:175-189 | the line never exceeds the request |
| Tty.OneKey | kernel/tty.c:175-189 | what one key does to an open line: space to tilde appends, backspace takes the last character off, others leave the text; newline or a full request completes |
| Tty.NewlineCompletes | kernel/tty.c:189 | newline completes any open line as it stands |
| Tty.TypedThenNewline | kernel/tty.c:175-197 | fewer characters than asked for, then newline: the line is what was typed |
| Tty.CharIsLowByte | kernel/tty.c:166 | a key's character is its low byte |
| Tty.Answerable | kernel/tty.c:174-197 | a request can be completed if and only if it is not for zero characters; a negative one only by newline |
| Tty.Terminal.PutKey | kernel/tty.c:211-223 | the ring is a FIFO of 256 keys that drops what does not fit |
| Tty.Terminal.TakeKey | kernel/tty.c:166-172 | the oldest key leaves, across the wrap |
| Tty.Terminal.Feed | kernel/tty.c:174-198 | the reader's buffer stays the edited line, the counters add up, and a completed request sends one resume (with OneKey for what a key does) |
| Tty.Terminal.DevWrite | kernel/tty.c:164-200 | all keys consumed in order, at most one resume, with the length of the line |
| Tty.Terminal.DoRead | kernel/tty.c:354-366 | a new request, replacing an open one |
| Tty.Terminal.Execute | kernel/tty.c:47-85 | every run is the run of the abstract terminal: the reader's buffer is the edited line, each reader is resumed once and in order, is still reading, or was replaced, and `lost` is the number of requests that came while one was open |
| Tty.Terminal.Step | kernel/tty.c:47-85 | a key, a drain or a request is a step of the abstract terminal |
| Tty.Balance | kernel/tty.c:189-197 | over every run resumed, reading and replaced readers are those that asked; with none replaced, in order |
| Tty.KeysConserved | kernel/tty.c:164-223 | over every run exactly the keys that found the ring not full are consumed or waiting, in order |
| Tty.OneRequest | kernel/tty.c:174-198 | after a request and any keys and drains the line is the edited input since it, and exactly one resume with its length has been sent once it is complete, none for zero characters |
| Tty.LineIsRead | kernel/tty.c:164-200 | a reader of an idle terminal, k characters and newline: one resume with count k |
| Tty.RingHolds256 | kernel/tty.c:211-223 | the ring takes a key while it holds fewer than 256 |
| Segments.LinearRoundTrip | kernel/proc.c:154-158 | the packed base is what `ldt_seg_linear` and `seg2phys` decode |
| Segments.BaseRoundTrip | mm/forkexit.c:57-62 | and what the reassembly in fork decodes |
| Segments.LimitRoundTrip | mm/forkexit.c:65-68 | the low 20 bits of the limit survive packing |
| Segments.AttributeRoundTrip | kernel/protect.c:140-142 | attributes and granularity survive packing |
| Segments.DescriptorIsPacked | kernel/protect.c:135-144 | every descriptor is the packing of its decoding |
| Segments.DescriptorLayout | kernel/protect.c:135-144 | the eight bytes have the layout of section 3.4.5 of the Intel SDM, Volume 3A |
| Segments.SizeOfPacked | mm/forkexit.c:70-72 | the limit counts pages or bytes, one less than there are |
| Segments.ChildFields | mm/forkexit.c:110-119 | the child's descriptors field by field |
| Segments.PlacesApart | mm/main.c:97-98 | places of different slots do not overlap and start at PROCS_BASE |
| Segments.AllocOutcome | mm/main.c:88-104 | more than an image is refused; another request is granted exactly when it ends below the memory size |
| Segments.WholeImagesFit | mm/main.c:88-104 | a grant puts the child inside memory, whatever its size, exactly for callers of a whole image |
| Segments.WholeInside | mm/main.c:88-104 | for such a caller a grant puts the child inside memory |
| Segments.ForkedIsWhole | mm/forkexit.c:108-119 | a forked process is a whole image |
| Segments.CallerShared | mm/forkexit.c:91-95 | the check that code and data share their memory never fails |
| Segments.GrandchildInside | mm/forkexit.c:97-119 | the child of a forked process lies inside memory |
| Segments.ChildrenApart | mm/forkexit.c:108-119 | segments decoded from the LDTs of two children do not meet |
| Segments.Memory.ForkSegments | mm/forkexit.c:54-119 | the outcome of the memory part of fork and the child's descriptors; a forked caller's child lies inside memory |
| Segments.Memory.Execute | mm/forkexit.c:54-119 | over every run, ended early only by a panic, live children's segments are apart, above PROCS_BASE, and inside memory but for the live children of callers smaller than an image |

## Left out

- Boot code, context switching, the interrupt controller, console output, keyboard scan codes and the printing routines: hardware or no effect on the modelled state.
- The ATA driver: the disk is an ideal byte array; its request count is eight bits wide, so one transfer stands for at most 255 sectors.
- Address translation of message buffers (`va2la`): a blocked process holds its message as a value.
- Composition of the parts: message passing with the copying of a process entry in fork, and the suspend and resume protocol between a reader, FS and TTY (the TTY branch of `do_rdwt`) are not put together.
- Several devices: FS is modelled on the root device, and a terminal on its own.
- `do_lseek`: not dispatched by the FS main loop.
- mkfs beyond the two maps and the layout: root inode, special files and their directory entries.
- The mode checks at the end of `do_open` and the opening of character devices: they read the inode and send a message to the terminal, and change none of the tables.
- Ipc.Kernel.SysSendrec: says nothing about the state after a SEND to ANY or INTERRUPT, which the check lets through and which then indexes past the table.
- Ipc.Kernel.Deadlock: the printing of the chain it found is not modelled.
- Scheduling.Scheduler.Schedule: requires a runnable process with ticks or a priority, because without one the loop does not end (SpinsForever); for the same reason SchedulingRuns.Execute is about runs in which it ends.
- SectorMap.FreeSmapBits: requires the range to lie inside the map and a sector after the map, which the masked last step may read.
- ReadWrite.DoRdwt: requires the touched sectors to be on the disk and a non-negative length; that the size is written back is the result `grown`, and what it does to cache and disk is FileTables.Tables.EndTransfer.
- Directory.Dir.NewDirEntry: works on entries rather than bytes and requires room for one more entry in the directory's extent.
- Directory.Dir.RemoveEntry: merges the loops over sectors and over entries into one loop.
- ForkExit.ProcTable.DoExit: requires a forked caller, because a native one has no parent slot to index.
- ForkExit.ProcTable.DoFork: the table has only the fields of the handshake; files, memory and messages of a fork are in FileTables and Segments.
- Tty.Terminal.DevWrite: echo to the console is left out.
- Segments.Memory.ForkSegments: the copying of the caller's bytes is left out; native descriptors are given at boot with code and data alike.
