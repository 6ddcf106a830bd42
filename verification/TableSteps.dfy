/** What each request does to the tables of FS, as functions, and runs of requests (fs/main.c,
    fs/open.c, fs/link.c). FileTables.dfy proves that the tables follow them. */
module TableSteps {
  import opened Config
  import opened InodeStore

  const NR_FILES: nat := 64
  const NR_FILE_DESC: nat := 64
  const NR_INODE: nat := 64
  const ROOT_INODE: nat := 1
  const I_REGULAR: u32 := 0x8000

  /** A pointer into one of the tables. */
  datatype Ref = Null | Slot(i: nat)

  /** A slot of inode_table: the four fields kept on disk, `i_cnt` and `i_num`. */
  datatype Inode = Inode(rec: Record, cnt: nat, num: nat)

  datatype FileDesc = FileDesc(mode: int, pos: u32, cnt: nat, inode: Ref)

  /** Between MM's copy of the process entry and the end of fs_fork, the first `done` entries of the
      child have been counted. */
  datatype Fork = Idle | Forking(parent: nat, child: nat, done: nat)

  datatype Event =
    | Open(p: nat, num: nat, flags: int)
    | Create(p: nat, num: nat, start: u32, flags: int)
    | Close(p: nat, fd: nat)
    | Transfer(p: nat, fd: nat, bytes: u32)
    | Resize(size: u32)
    | Copy(parent: nat, child: nat)
    | CountChild
    | Exit(p: nat)
    | Unlink(num: nat)

  /** The tables, what the disk holds for each inode, the inode numbers in use, and the references
      held by no descriptor. */
  datatype Snap = Snap(
    inodes: seq<Inode>,
    fds: seq<FileDesc>,
    filp: seq<Ref>,
    records: seq<Record>,
    live: set<nat>,
    pins: multiset<nat>,
    fork: Fork)

  ghost predicate Sized(s: Snap) {
    |s.inodes| == NR_INODE && |s.fds| == NR_FILE_DESC && |s.filp| == NR_SLOTS * NR_FILES && |s.records| == NR_INODES + 1
  }

  function Entry(p: nat, fd: nat): nat {
    64 * p + fd
  }

  // ----- Searching the tables

  /** The first entry of p from i on that is not in use; NR_FILES if none. */
  function FreeEntry(filp: seq<Ref>, p: nat, i: nat): (r: nat)
    requires |filp| == NR_SLOTS * NR_FILES && p < NR_SLOTS && i <= NR_FILES
    ensures i <= r <= NR_FILES && (r < NR_FILES ==> filp[Entry(p, r)] == Null)
    ensures forall j: nat :: i <= j < r ==> filp[Entry(p, j)] != Null
    decreases NR_FILES - i
  {
    if i == NR_FILES || filp[Entry(p, i)] == Null then i else FreeEntry(filp, p, i + 1)
  }

  function FreeDesc(fds: seq<FileDesc>, i: nat): (r: nat)
    requires i <= |fds|
    ensures i <= r <= |fds| && (r < |fds| ==> fds[r].inode == Null)
    ensures forall j: nat :: i <= j < r ==> fds[j].inode != Null
    decreases |fds| - i
  {
    if i == |fds| || fds[i].inode == Null then i else FreeDesc(fds, i + 1)
  }

  predicate Holds(x: Inode, num: nat) {
    x.cnt > 0 && x.num == num
  }

  ghost predicate Cached(inodes: seq<Inode>, num: nat) {
    exists s: nat :: s < |inodes| && inodes[s].cnt > 0 && inodes[s].num == num
  }

  function HitSlot(inodes: seq<Inode>, num: nat, i: nat): (r: nat)
    requires i <= |inodes|
    ensures i <= r <= |inodes| && (r < |inodes| ==> Holds(inodes[r], num))
    ensures forall j: nat :: i <= j < r ==> !Holds(inodes[j], num)
    decreases |inodes| - i
  {
    if i == |inodes| || Holds(inodes[i], num) then i else HitSlot(inodes, num, i + 1)
  }

  function FreeSlot(inodes: seq<Inode>, i: nat): (r: nat)
    requires i <= |inodes|
    ensures i <= r <= |inodes| && (r < |inodes| ==> inodes[r].cnt == 0)
    ensures forall j: nat :: i <= j < r ==> inodes[j].cnt > 0
    decreases |inodes| - i
  {
    if i == |inodes| || inodes[i].cnt == 0 then i else FreeSlot(inodes, i + 1)
  }

  /** The slot get_inode ends on: the one that holds the inode, or else the first free one. */
  function SlotFor(inodes: seq<Inode>, num: nat): (r: nat)
    ensures r <= |inodes|
    ensures r < |inodes| ==> Holds(inodes[r], num) || inodes[r].cnt == 0
  {
    var h := HitSlot(inodes, num, 0);
    if h < |inodes| then h else FreeSlot(inodes, 0)
  }

  /** get_inode panics exactly when the inode is not cached and every slot is taken. */
  lemma SlotForFull(inodes: seq<Inode>, num: nat)
    ensures Cached(inodes, num) <==> HitSlot(inodes, num, 0) < |inodes|
    ensures SlotFor(inodes, num) == |inodes| <==> !Cached(inodes, num) && forall t: nat :: t < |inodes| ==> inodes[t].cnt > 0
  {
    var h := HitSlot(inodes, num, 0);
    if Cached(inodes, num) {
      var s: nat :| s < |inodes| && inodes[s].cnt > 0 && inodes[s].num == num;
      assert Holds(inodes[s], num);
    }
  }

  // ----- When a request can be made, and when it panics

  predicate CanCall(p: nat, f: Fork) {
    p < NR_SLOTS && (f.Forking? ==> p != f.parent && p != f.child)
  }

  /** Processes blocked in a fork do not call; the directory names live inodes, and the inode map
      gives a number that is not live; a process uses a descriptor it has. */
  ghost predicate Possible(s: Snap, e: Event)
    requires Sized(s)
  {
    match e
    case Open(p, num, _) => CanCall(p, s.fork) && (num == 0 || num in s.live)
    case Create(p, num, _, _) => CanCall(p, s.fork) && num !in s.live && 0 < num <= NR_INODES
    case Close(p, fd) => CanCall(p, s.fork) && fd < NR_FILES && s.filp[Entry(p, fd)] != Null
    case Transfer(p, fd, _) => CanCall(p, s.fork) && fd < NR_FILES && s.filp[Entry(p, fd)] != Null
    case Resize(_) => true
    case Copy(parent, child) =>
      && s.fork == Idle && parent < NR_SLOTS && child < NR_SLOTS && parent != child
      && forall i: nat :: i < NR_FILES ==> s.filp[Entry(child, i)] == Null
    case CountChild => s.fork.Forking?
    case Exit(p) => CanCall(p, s.fork)
    case Unlink(num) => num in s.live
  }

  /** A panic: `filp`, the descriptor table or the inode table is full. */
  ghost predicate Panics(s: Snap, e: Event)
    requires Sized(s) && Possible(s, e)
  {
    match e
    case Open(p, num, _) => OpenFull(s, p) || (num != 0 && SlotFor(s.inodes, num) == NR_INODE)
    case Create(p, num, _, _) => OpenFull(s, p) || SlotFor(s.inodes, num) == NR_INODE
    case Unlink(num) => SlotFor(s.inodes, num) == NR_INODE
    case _ => false
  }

  ghost predicate OpenFull(s: Snap, p: nat)
    requires Sized(s) && p < NR_SLOTS
  {
    FreeEntry(s.filp, p, 0) == NR_FILES || FreeDesc(s.fds, 0) == NR_FILE_DESC
  }

  ghost predicate Halts(s: Snap, e: Event)
    requires Sized(s)
  {
    !Possible(s, e) || Panics(s, e)
  }

  // ----- What requests do

  /** get_inode: one more reference, the fields being those on disk. */
  ghost function Gotten(inodes: seq<Inode>, records: seq<Record>, num: nat): seq<Inode>
    requires SlotFor(inodes, num) < |inodes| && num < |records|
  {
    var t := SlotFor(inodes, num);
    inodes[t := Inode(records[num], inodes[t].cnt + 1, num)]
  }

  /** The first free entry of p is put on the first free descriptor, which leads to inode slot t. */
  ghost function Attached(s: Snap, p: nat, t: nat, flags: int): Snap
    requires Sized(s) && p < NR_SLOTS && !OpenFull(s, p)
  {
    var f := FreeDesc(s.fds, 0);
    s.(filp := s.filp[Entry(p, FreeEntry(s.filp, p, 0)) := Slot(f)], fds := s.fds[f := FileDesc(flags, 0, 1, Slot(t))])
  }

  ghost function OpenStep(s: Snap, p: nat, num: nat, flags: int): Snap
    requires Sized(s) && p < NR_SLOTS && !OpenFull(s, p) && num < |s.records|
    requires num != 0 ==> SlotFor(s.inodes, num) < NR_INODE
  {
    if num == 0 then s
    else Attached(s.(inodes := Gotten(s.inodes, s.records, num)), p, SlotFor(s.inodes, num), flags)
  }

  function NewRecord(start: u32): Record {
    Record(I_REGULAR, 0, start, 2048)
  }

  ghost function CreateStep(s: Snap, p: nat, num: nat, start: u32, flags: int): Snap
    requires Sized(s) && p < NR_SLOTS && !OpenFull(s, p) && num < |s.records| && SlotFor(s.inodes, num) < NR_INODE
  {
    var t, r := SlotFor(s.inodes, num), NewRecord(start);
    Attached(s.(inodes := s.inodes[t := Inode(r, 1, num)], records := s.records[num := r], live := s.live + {num}), p, t, flags)
  }

  /** One entry less on a descriptor, which is freed with the last one. */
  function Lowered(x: FileDesc): FileDesc {
    x.(cnt := if x.cnt > 0 then x.cnt - 1 else 0, inode := if x.cnt == 1 then Null else x.inode)
  }

  function Raised(x: FileDesc): FileDesc {
    x.(cnt := x.cnt + 1)
  }

  function PutOnce(x: Inode): Inode {
    x.(cnt := if x.cnt > 0 then x.cnt - 1 else 0)
  }

  function GotOnce(x: Inode): Inode {
    x.(cnt := x.cnt + 1)
  }

  /** The descriptor of entry k and its inode slot; in a run an entry in use leads to both. */
  ghost predicate Leads(s: Snap, k: nat)
    requires k < |s.filp|
  {
    && s.filp[k].Slot? && s.filp[k].i < |s.fds|
    && s.fds[s.filp[k].i].inode.Slot? && s.fds[s.filp[k].i].inode.i < |s.inodes|
  }

  /** Only the tables differ. */
  ghost predicate SameRest(s: Snap, r: Snap) {
    r.records == s.records && r.live == s.live && r.pins == s.pins && r.fork == s.fork
  }

  /** Descriptors keep position and mode, whatever happens to their counts. */
  ghost predicate SamePlaces(s: Snap, r: Snap) {
    |r.fds| == |s.fds| && forall f: nat :: f < |s.fds| ==> r.fds[f].pos == s.fds[f].pos && r.fds[f].mode == s.fds[f].mode
  }

  ghost function DropEntry(s: Snap, k: nat): (r: Snap)
    requires Sized(s) && k < |s.filp|
    ensures Sized(r) && SameRest(s, r) && SamePlaces(s, r)
  {
    if !Leads(s, k) then s
    else
      var f := s.filp[k].i;
      var t := s.fds[f].inode.i;
      s.(filp := s.filp[k := Null], fds := s.fds[f := Lowered(s.fds[f])], inodes := s.inodes[t := PutOnce(s.inodes[t])])
  }

  ghost function ShareEntry(s: Snap, k: nat): (r: Snap)
    requires Sized(s) && k < |s.filp|
    ensures Sized(r) && SameRest(s, r) && SamePlaces(s, r)
  {
    if !Leads(s, k) then s
    else
      var f := s.filp[k].i;
      var t := s.fds[f].inode.i;
      s.(fds := s.fds[f := Raised(s.fds[f])], inodes := s.inodes[t := GotOnce(s.inodes[t])])
  }

  /** The first n entries of p dropped. */
  ghost function Dropped(s: Snap, p: nat, n: nat): (r: Snap)
    requires Sized(s) && p < NR_SLOTS && n <= NR_FILES
    ensures Sized(r) && SameRest(s, r) && SamePlaces(s, r)
  {
    if n == 0 then s else DropEntry(Dropped(s, p, n - 1), Entry(p, n - 1))
  }

  /** The first n entries of p counted. */
  ghost function Counted(s: Snap, p: nat, n: nat): (r: Snap)
    requires Sized(s) && p < NR_SLOTS && n <= NR_FILES
    ensures Sized(r) && SameRest(s, r) && SamePlaces(s, r)
  {
    if n == 0 then s else ShareEntry(Counted(s, p, n - 1), Entry(p, n - 1))
  }

  /** Sums and maxima of words; `fd_pos > i_size` compares unsigned, as `i_size` is. */
  function Sum(a: u32, b: u32): u32 {
    a + b
  }

  function Larger(a: u32, b: u32): u32 {
    if b > a then b else a
  }

  lemma WordSum(a: u32, b: u32)
    ensures Sum(a, b) == a + b
  {
  }

  lemma WordMaximum(a: u32, b: u32)
    ensures (b > a ==> Larger(a, b) == b) && (!(b > a) ==> Larger(a, b) == a)
  {
  }

  function Advanced(x: FileDesc, bytes: u32): (y: FileDesc)
    ensures y.inode == x.inode && y.cnt == x.cnt && y.mode == x.mode
  {
    x.(pos := Sum(x.pos, bytes))
  }

  function Reached(y: Inode, pos: u32): (z: Inode)
    ensures z.num == y.num && z.cnt == y.cnt
  {
    y.(rec := y.rec.(size := Larger(y.rec.size, pos)))
  }

  /** The position advances, and a size it passes grows with it, in the cache and on disk. */
  ghost function TransferStep(s: Snap, p: nat, fd: nat, bytes: u32): Snap
    requires Sized(s) && p < NR_SLOTS && fd < NR_FILES
  {
    var k := Entry(p, fd);
    if !Leads(s, k) then s
    else
      var f := s.filp[k].i;
      var x := Advanced(s.fds[f], bytes);
      var y := Reached(s.inodes[x.inode.i], x.pos);
      s.(fds := s.fds[f := x], inodes := s.inodes[x.inode.i := y],
         records := if y.num < |s.records| then s.records[y.num := y.rec] else s.records)
  }

  /** The root directory's size, in the cache and on disk. */
  ghost function ResizeStep(s: Snap, size: u32): Snap
    requires Sized(s)
  {
    var t := SlotFor(s.inodes, ROOT_INODE);
    if t == NR_INODE then s
    else
      var r := s.inodes[t].rec.(size := size);
      s.(inodes := s.inodes[t := s.inodes[t].(rec := r)], records := s.records[ROOT_INODE := r])
  }

  /** `filp` with the first n entries of the child copied from the parent. */
  ghost function Copied(filp: seq<Ref>, parent: nat, child: nat, n: nat): (r: seq<Ref>)
    requires |filp| == NR_SLOTS * NR_FILES && parent < NR_SLOTS && child < NR_SLOTS && n <= NR_FILES
    ensures |r| == |filp|
  {
    seq(|filp|, k requires 0 <= k < |filp| =>
      if Entry(child, 0) <= k < Entry(child, n) then filp[k - Entry(child, 0) + Entry(parent, 0)] else filp[k])
  }

  /** An unlink is refused for a file that is not regular, or that somebody has a reference to. */
  ghost predicate Refuses(s: Snap, num: nat)
    requires num < |s.records|
  {
    s.records[num].mode != I_REGULAR || Cached(s.inodes, num)
  }

  /** A refusal keeps the reference it took; otherwise the inode and its number are gone. */
  ghost function UnlinkStep(s: Snap, num: nat): Snap
    requires Sized(s) && num < |s.records| && SlotFor(s.inodes, num) < NR_INODE
  {
    if Refuses(s, num) then s.(inodes := Gotten(s.inodes, s.records, num), pins := s.pins + multiset{num})
    else s.(inodes := s.inodes[SlotFor(s.inodes, num) := Inode(NO_RECORD, 0, num)],
            records := s.records[num := NO_RECORD], live := s.live - {num})
  }

  /** Live numbers have a record. */
  ghost predicate InRange(s: Snap) {
    Sized(s) && (forall n: nat :: n in s.live ==> 0 < n <= NR_INODES) && (s.fork.Forking? ==> s.fork.child < NR_SLOTS)
  }

  /** One request; one that halts FS leaves nothing to say. */
  ghost function Step(s: Snap, e: Event): (r: Snap)
    requires InRange(s)
    ensures InRange(r)
  {
    if Halts(s, e) then s else
    match e
    case Open(p, num, flags) => OpenStep(s, p, num, flags)
    case Create(p, num, start, flags) => CreateStep(s, p, num, start, flags)
    case Close(p, fd) => DropEntry(s, Entry(p, fd))
    case Transfer(p, fd, bytes) => TransferStep(s, p, fd, bytes)
    case Resize(size) => ResizeStep(s, size)
    case Copy(parent, child) => s.(filp := Copied(s.filp, parent, child, NR_FILES), fork := Forking(parent, child, 0))
    case CountChild => Counted(s, s.fork.child, NR_FILES).(fork := Idle)
    case Exit(p) => Dropped(s, p, NR_FILES)
    case Unlink(num) => UnlinkStep(s, num)
  }

  // ----- Runs

  ghost function Exec(s: Snap, es: seq<Event>): (r: Snap)
    requires InRange(s)
    ensures InRange(r)
  {
    if es == [] then s else Step(Exec(s, es[..|es| - 1]), es[|es| - 1])
  }

  lemma ExecNext(s: Snap, es: seq<Event>, n: nat)
    requires InRange(s) && n < |es|
    ensures Exec(s, es[..n + 1]) == Step(Exec(s, es[..n]), es[n])
    ensures Refused(s, es[..n + 1]) == Refused(s, es[..n]) + RefusedNow(Exec(s, es[..n]), es[n])
  {
    assert es[..n + 1][..n] == es[..n];
  }

  ghost function RefusedNow(s: Snap, e: Event): multiset<nat>
    requires InRange(s)
  {
    if e.Unlink? && !Halts(s, e) && Refuses(s, e.num) then multiset{e.num} else multiset{}
  }

  /** The inode numbers of the refused unlinks of a run, each as often as it was refused. */
  ghost function Refused(s: Snap, es: seq<Event>): multiset<nat>
    requires InRange(s)
  {
    if es == [] then multiset{}
    else Refused(s, es[..|es| - 1]) + RefusedNow(Exec(s, es[..|es| - 1]), es[|es| - 1])
  }

  lemma StepPins(s: Snap, e: Event)
    requires InRange(s)
    ensures Step(s, e).pins == s.pins + RefusedNow(s, e)
  {
  }

  /** References without a descriptor grow by the refused unlinks and by nothing else. */
  lemma {:induction false} PinsAreRefusals(s: Snap, es: seq<Event>)
    requires InRange(s)
    ensures Exec(s, es).pins == s.pins + Refused(s, es)
  {
    if es != [] {
      PinsAreRefusals(s, es[..|es| - 1]);
      StepPins(Exec(s, es[..|es| - 1]), es[|es| - 1]);
    }
  }

  ghost predicate NoRefusal(s: Snap, es: seq<Event>)
    requires InRange(s)
  {
    forall i: nat :: i < |es| && es[i].Unlink? ==> RefusedNow(Exec(s, es[..i]), es[i]) == multiset{}
  }

  /** When every unlink of the run succeeds nothing is left behind. */
  lemma {:induction false} SuccessfulUnlinks(s: Snap, es: seq<Event>)
    requires InRange(s) && NoRefusal(s, es)
    ensures Refused(s, es) == multiset{}
  {
    if es != [] {
      var front := es[..|es| - 1];
      forall i: nat | i < |front| && front[i].Unlink? ensures RefusedNow(Exec(s, front[..i]), front[i]) == multiset{} {
        assert es[..i] == front[..i];
      }
      SuccessfulUnlinks(s, front);
    }
  }

  // ----- Requests in terms of the fields

  /** Exactly when a request halts FS. */
  lemma HaltsInFields(s: Snap, e: Event)
    requires InRange(s)
    ensures Halts(s, e) <==> HaltsRaw(s, e)
  {
    if e.Open? || e.Create? {
      SlotForFull(s.inodes, e.num);
    }
    if e.Unlink? {
      SlotForFull(s.inodes, e.num);
    }
  }

  ghost predicate BlockedCaller(s: Snap, p: nat) {
    p >= NR_SLOTS || (s.fork.Forking? && (p == s.fork.parent || p == s.fork.child))
  }

  ghost predicate EntriesFull(s: Snap, p: nat)
    requires Sized(s) && p < NR_SLOTS
  {
    forall i: nat :: i < 64 ==> s.filp[Entry(p, i)].Slot?
  }

  ghost predicate DescsFull(s: Snap) {
    forall f: nat :: f < |s.fds| ==> s.fds[f].inode.Slot?
  }

  ghost predicate NoInodeSlot(s: Snap, num: nat) {
    forall t: nat :: t < |s.inodes| ==> s.inodes[t].cnt > 0 && s.inodes[t].num != num
  }

  ghost predicate HaltsRaw(s: Snap, e: Event)
    requires Sized(s)
  {
    match e
    case Open(p, num, _) =>
      BlockedCaller(s, p) || !(num == 0 || num in s.live) || EntriesFull(s, p) || DescsFull(s) || (num != 0 && NoInodeSlot(s, num))
    case Create(p, num, _, _) =>
      BlockedCaller(s, p) || num in s.live || num == 0 || num > NR_INODES || EntriesFull(s, p) || DescsFull(s) || NoInodeSlot(s, num)
    case Close(p, fd) => BlockedCaller(s, p) || fd >= 64 || s.filp[Entry(p, fd)] == Null
    case Transfer(p, fd, _) => BlockedCaller(s, p) || fd >= 64 || s.filp[Entry(p, fd)] == Null
    case Resize(_) => false
    case Copy(parent, child) =>
      s.fork.Forking? || parent >= NR_SLOTS || child >= NR_SLOTS || parent == child || exists i: nat :: i < 64 && s.filp[Entry(child, i)].Slot?
    case CountChild => s.fork.Idle?
    case Exit(p) => BlockedCaller(s, p)
    case Unlink(num) => num !in s.live || NoInodeSlot(s, num)
  }

  /** Slot t holds inode `num`, or no slot does and t is the first free one. */
  ghost predicate GoesTo(inodes: seq<Inode>, num: nat, t: nat) {
    t < |inodes| && if inodes[t].cnt > 0 then inodes[t].num == num
    else (forall j: nat :: j < |inodes| && inodes[j].cnt > 0 ==> inodes[j].num != num) && forall j: nat :: j < t ==> inodes[j].cnt > 0
  }

  lemma SlotForGoes(inodes: seq<Inode>, num: nat)
    requires SlotFor(inodes, num) < |inodes|
    ensures GoesTo(inodes, num, SlotFor(inodes, num))
  {
    forall j: nat | HitSlot(inodes, num, 0) == |inodes| && j < |inodes| && inodes[j].cnt > 0 ensures inodes[j].num != num {
      assert !Holds(inodes[j], num);
    }
  }

  /** The first free entry and descriptor. */
  ghost predicate FirstFree(s: Snap, p: nat, i: nat, f: nat)
    requires Sized(s) && p < NR_SLOTS
  {
    && i < 64 && s.filp[Entry(p, i)] == Null && (forall j: nat :: j < i ==> s.filp[Entry(p, j)] != Null)
    && f < 64 && s.fds[f].inode == Null && (forall j: nat :: j < f ==> s.fds[j].inode != Null)
  }

  /** An open: one more reference to the inode with the fields on disk, from the first free entry
      through the first free descriptor, at position 0 in the mode asked for. */
  lemma OpenFields(s: Snap, p: nat, num: nat, flags: int) returns (i: nat, f: nat, t: nat)
    requires InRange(s) && num != 0 && !Halts(s, Open(p, num, flags))
    ensures p < NR_SLOTS && FirstFree(s, p, i, f) && GoesTo(s.inodes, num, t) && num < |s.records|
    ensures Step(s, Open(p, num, flags)) == s.(filp := s.filp[Entry(p, i) := Slot(f)], fds := s.fds[f := FileDesc(flags, 0, 1, Slot(t))],
                                               inodes := s.inodes[t := Inode(s.records[num], s.inodes[t].cnt + 1, num)])
  {
    i, f, t := FreeEntry(s.filp, p, 0), FreeDesc(s.fds, 0), SlotFor(s.inodes, num);
    SlotForGoes(s.inodes, num);
  }

  /** A create: a regular file of 2048 sectors from `start` and size 0, with one reference. */
  lemma CreateFields(s: Snap, p: nat, num: nat, start: u32, flags: int) returns (i: nat, f: nat, t: nat)
    requires InRange(s) && !Halts(s, Create(p, num, start, flags))
    ensures p < NR_SLOTS && FirstFree(s, p, i, f) && GoesTo(s.inodes, num, t) && num < |s.records|
    ensures Step(s, Create(p, num, start, flags)) == s.(
              filp := s.filp[Entry(p, i) := Slot(f)], fds := s.fds[f := FileDesc(flags, 0, 1, Slot(t))],
              inodes := s.inodes[t := Inode(Record(0x8000, 0, start, 2048), 1, num)],
              records := s.records[num := Record(0x8000, 0, start, 2048)], live := s.live + {num})
  {
    i, f, t := FreeEntry(s.filp, p, 0), FreeDesc(s.fds, 0), SlotFor(s.inodes, num);
    SlotForGoes(s.inodes, num);
  }

  /** A close: one entry, one count of its descriptor and one of its inode less; the descriptor is freed
      with its last entry and otherwise stays as it is. */
  lemma CloseFields(s: Snap, p: nat, fd: nat)
    requires InRange(s) && !Halts(s, Close(p, fd)) && Leads(s, Entry(p, fd))
    ensures var r := Step(s, Close(p, fd)); var f := s.filp[Entry(p, fd)].i; var t := s.fds[f].inode.i;
      && r.filp == s.filp[Entry(p, fd) := Null] && SameRest(s, r) && |r.fds| == |s.fds| && |r.inodes| == |s.inodes|
      && (forall g: nat :: g < |s.fds| && g != f ==> r.fds[g] == s.fds[g]) && (forall g: nat :: g < |s.inodes| && g != t ==> r.inodes[g] == s.inodes[g])
      && (s.fds[f].cnt > 0 ==> r.fds[f].cnt == s.fds[f].cnt - 1) && r.fds[f].mode == s.fds[f].mode && r.fds[f].pos == s.fds[f].pos
      && r.fds[f].inode == (if s.fds[f].cnt == 1 then Null else s.fds[f].inode)
      && r.inodes[t].rec == s.inodes[t].rec && r.inodes[t].num == s.inodes[t].num && (s.inodes[t].cnt > 0 ==> r.inodes[t].cnt == s.inodes[t].cnt - 1)
  {
  }

  lemma CopiedAt(filp: seq<Ref>, parent: nat, child: nat, q: nat, i: nat)
    requires |filp| == NR_SLOTS * NR_FILES && parent < NR_SLOTS && child < NR_SLOTS && q < NR_SLOTS && i < 64
    ensures Copied(filp, parent, child, NR_FILES)[Entry(q, i)] == filp[Entry(if q == child then parent else q, i)]
  {
    if q == child {
      assert Entry(child, 0) <= Entry(child, i) < Entry(child, NR_FILES);
      assert Entry(child, i) - Entry(child, 0) + Entry(parent, 0) == Entry(parent, i);
    } else {
      assert !(Entry(child, 0) <= Entry(q, i) < Entry(child, NR_FILES));
    }
  }

  /** MM's copy of the process entry: the child's entries are the parent's, others are unchanged. */
  lemma CopyFields(s: Snap, parent: nat, child: nat, q: nat, i: nat)
    requires InRange(s) && !Halts(s, Copy(parent, child)) && q < NR_SLOTS && i < 64
    ensures var r := Step(s, Copy(parent, child));
      && r.filp[Entry(q, i)] == s.filp[Entry(if q == child then parent else q, i)]
      && r == s.(filp := r.filp, fork := Forking(parent, child, 0))
  {
    CopiedAt(s.filp, parent, child, q, i);
  }

  /** A transfer: the position advances by the bytes moved, and the size becomes the larger of itself
      and the new position, in the cache and on disk; nothing else changes. */
  lemma TransferFields(s: Snap, p: nat, fd: nat, bytes: u32)
    requires InRange(s) && !Halts(s, Transfer(p, fd, bytes)) && Leads(s, Entry(p, fd))
    ensures var r := Step(s, Transfer(p, fd, bytes)); var f := s.filp[Entry(p, fd)].i; var t := s.fds[f].inode.i;
      && r.filp == s.filp && r.live == s.live && r.pins == s.pins && r.fork == s.fork
      && r.fds == s.fds[f := FileDesc(s.fds[f].mode, Sum(s.fds[f].pos, bytes), s.fds[f].cnt, s.fds[f].inode)]
      && r.inodes == s.inodes[t := s.inodes[t].(rec := s.inodes[t].rec.(size := Larger(s.inodes[t].rec.size, Sum(s.fds[f].pos, bytes))))]
      && (s.inodes[t].num < |s.records| ==> r.records == s.records[s.inodes[t].num := r.inodes[t].rec])
  {
  }

  /** The root directory's new size, in its slot and on disk. */
  lemma ResizeFields(s: Snap, size: u32, t: nat)
    requires InRange(s) && t < NR_INODE && s.inodes[t].cnt > 0 && s.inodes[t].num == ROOT_INODE
    requires forall j: nat :: j < NR_INODE && j != t && s.inodes[j].cnt > 0 ==> s.inodes[j].num != ROOT_INODE
    ensures Step(s, Resize(size)) == s.(inodes := s.inodes[t := s.inodes[t].(rec := s.inodes[t].rec.(size := size))],
                                        records := s.records[1 := s.inodes[t].rec.(size := size)])
  {
    assert Holds(s.inodes[t], ROOT_INODE);
    assert HitSlot(s.inodes, ROOT_INODE, 0) == t;
  }

  /** An unlink that goes through clears the record and the slot; one of a file that is not regular, or
      that somebody holds, takes one more reference to it, held by nobody. */
  lemma UnlinkFields(s: Snap, num: nat) returns (t: nat)
    requires InRange(s) && !Halts(s, Unlink(num))
    ensures num < |s.records| && GoesTo(s.inodes, num, t)
    ensures Step(s, Unlink(num)) ==
      if s.records[num].mode == 0x8000 && s.inodes[t].cnt == 0 then
        s.(inodes := s.inodes[t := Inode(Record(0, 0, 0, 0), 0, num)], records := s.records[num := Record(0, 0, 0, 0)], live := s.live - {num})
      else
        s.(inodes := s.inodes[t := Inode(s.records[num], s.inodes[t].cnt + 1, num)], pins := s.pins + multiset{num})
  {
    t := SlotFor(s.inodes, num);
    SlotForGoes(s.inodes, num);
    SlotForFull(s.inodes, num);
  }

  // ----- Positions over a run

  /** The event opens a file on descriptor f. */
  ghost predicate OpensOn(s: Snap, e: Event, f: nat)
    requires InRange(s)
  {
    && ((e.Open? && e.num != 0) || e.Create?) && !Halts(s, e)
    && f < |s.fds| && s.fds[f].inode == Null && forall j: nat :: j < f ==> s.fds[j].inode != Null
  }

  /** The event moves bytes through descriptor f. */
  ghost predicate MovesOn(s: Snap, e: Event, f: nat)
    requires InRange(s)
  {
    e.Transfer? && !Halts(s, e) && Leads(s, Entry(e.p, e.fd)) && s.filp[Entry(e.p, e.fd)] == Slot(f)
  }

  /** The bytes moved through descriptor f since it was last opened, by any process that shares it. */
  ghost function Position(s: Snap, es: seq<Event>, f: nat): u32
    requires InRange(s) && f < |s.fds|
  {
    if es == [] then s.fds[f].pos
    else
      var front, e := es[..|es| - 1], es[|es| - 1];
      var u := Exec(s, front);
      if OpensOn(u, e, f) then 0
      else if MovesOn(u, e, f) then Sum(Position(s, front, f), e.bytes)
      else Position(s, front, f)
  }

  lemma OtherPosition(s: Snap, e: Event, f: nat)
    requires InRange(s) && f < NR_FILE_DESC && !e.Transfer?
    ensures Step(s, e).fds[f].pos == if OpensOn(s, e, f) then 0 else s.fds[f].pos
  {
  }

  lemma MovedPosition(s: Snap, e: Event, f: nat)
    requires InRange(s) && f < NR_FILE_DESC && e.Transfer?
    ensures Step(s, e).fds[f].pos == if MovesOn(s, e, f) then Sum(s.fds[f].pos, e.bytes) else s.fds[f].pos
  {
    if !Halts(s, e) && Leads(s, Entry(e.p, e.fd)) {
      TransferFields(s, e.p, e.fd, e.bytes);
    }
  }

  /** Over every run the position of a descriptor is the sum of the bytes moved through it since it was
      opened: closes, forks and exits of processes that share it do not touch it. */
  lemma {:induction false} PositionIsSum(s: Snap, es: seq<Event>, f: nat)
    requires InRange(s) && f < NR_FILE_DESC
    ensures Exec(s, es).fds[f].pos == Position(s, es, f)
  {
    if es != [] {
      var front, e := es[..|es| - 1], es[|es| - 1];
      PositionIsSum(s, front, f);
      if e.Transfer? {
        MovedPosition(Exec(s, front), e, f);
      } else {
        OtherPosition(Exec(s, front), e, f);
      }
    }
  }
}
