/** The in-memory tables of FS: the inode cache, the file descriptors and the processes' `filp`
    arrays, with the reference counts that tie them together (fs/main.c, fs/open.c, fs/link.c). */
module FileTables {
  import opened Config
  import opened Disks
  import opened SectorMap
  import opened InodeStore
  import opened TableSteps

  // ----- Reference counts

  /** The inode slot each counted `filp` entry leads to. */
  ghost function Targets(counted: seq<Ref>, fds: seq<FileDesc>): (r: seq<Ref>)
    ensures |r| == |counted|
  {
    seq(|counted|, k requires 0 <= k < |counted| =>
      if counted[k].Slot? && counted[k].i < |fds| then fds[counted[k].i].inode else Null)
  }

  /** `fd_cnt` is the number of `filp` entries on the descriptor; it is in use when that is not 0. */
  ghost predicate DescCounts(counted: seq<Ref>, fds: seq<FileDesc>) {
    && |fds| == NR_FILE_DESC
    && (forall k :: 0 <= k < |counted| && counted[k].Slot? ==> counted[k].i < NR_FILE_DESC)
    && (forall f: nat {:trigger DescExact(fds[f], multiset(counted)[Slot(f)])} :: f < NR_FILE_DESC ==> DescExact(fds[f], multiset(counted)[Slot(f)]))
  }

  ghost predicate DescExact(x: FileDesc, refs: nat) {
    x.cnt == refs && (x.inode == Null <==> x.cnt == 0) && (x.inode.Slot? ==> x.inode.i < NR_INODE)
  }

  /** `i_cnt` is the number of `filp` entries that lead to the inode plus its pins: references held
      by no descriptor. */
  ghost predicate InodeCounts(targets: seq<Ref>, inodes: seq<Inode>, pins: multiset<nat>) {
    && |inodes| == NR_INODE
    && (forall s: nat {:trigger InodeExact(inodes[s], multiset(targets)[Slot(s)], pins)} :: s < NR_INODE ==> InodeExact(inodes[s], multiset(targets)[Slot(s)], pins))
    && (forall n: nat {:trigger Cached(inodes, n)} :: n in pins ==> Cached(inodes, n))
  }

  ghost predicate InodeExact(x: Inode, refs: nat, pins: multiset<nat>) {
    x.cnt == refs + if x.cnt > 0 then pins[x.num] else 0
  }

  // ----- The cache and the disk

  /** records[n] is what the disk holds for inode n. */
  ghost predicate OnDisk(records: seq<Record>, data: seq<byte>, sb: SuperBlock) {
    && |records| == NR_INODES + 1 && ValidNum(sb, 1) && sb.FirstSect() * SECTOR_SIZE <= |data|
    && forall n: nat {:trigger Stored(data, sb, n)} :: ValidNum(sb, n) ==> records[n] == Stored(data, sb, n)
  }

  ghost function RecordsOf(data: seq<byte>, sb: SuperBlock): (r: seq<Record>)
    requires ValidNum(sb, 1) && sb.FirstSect() * SECTOR_SIZE <= |data|
    ensures OnDisk(r, data, sb)
  {
    seq(NR_INODES + 1, n requires 0 <= n <= NR_INODES => if n == 0 then NO_RECORD else Stored(data, sb, n))
  }

  /** At most one live slot per inode, each with the fields its disk record has. */
  ghost predicate Coherent(inodes: seq<Inode>, records: seq<Record>, live: set<nat>) {
    && (forall n: nat :: n in live ==> 0 < n < |records|)
    && (forall s: nat {:trigger SlotCoherent(inodes[s], records, live)} :: s < |inodes| ==> SlotCoherent(inodes[s], records, live))
    && NumsApart(inodes)
  }

  ghost predicate SlotCoherent(x: Inode, records: seq<Record>, live: set<nat>) {
    x.cnt > 0 ==> x.num in live && x.num < |records| && x.rec == records[x.num]
  }

  ghost predicate NumsApart(inodes: seq<Inode>) {
    forall s: nat, t: nat :: s < t < |inodes| && inodes[s].cnt > 0 && inodes[t].cnt > 0 ==> inodes[s].num != inodes[t].num
  }

  // ----- How counts change

  lemma TargetsOfSet(counted: seq<Ref>, fds: seq<FileDesc>, k: nat, x: Ref)
    requires k < |counted|
    ensures Targets(counted[k := x], fds)
         == Targets(counted, fds)[k := if x.Slot? && x.i < |fds| then fds[x.i].inode else Null]
  {
  }

  /** A descriptor nobody points at can be changed freely; one in use may change all but its inode. */
  lemma TargetsOfDesc(counted: seq<Ref>, fds: seq<FileDesc>, f: nat, x: FileDesc)
    requires f < |fds| && (Slot(f) !in counted || x.inode == fds[f].inode)
    ensures Targets(counted, fds[f := x]) == Targets(counted, fds)
  {
  }

  lemma CountSet(s: seq<Ref>, k: nat, x: Ref, y: Ref)
    requires k < |s|
    ensures multiset(s[k := x])[y] == multiset(s)[y] - (if s[k] == y then 1 else 0) + if x == y then 1 else 0
  {
  }

  /** Entry k moves from nowhere to descriptor f. */
  lemma DescAdd(counted: seq<Ref>, fds: seq<FileDesc>, k: nat, f: nat, x: FileDesc)
    requires DescCounts(counted, fds) && k < |counted| && counted[k] == Null && f < NR_FILE_DESC
    requires x.cnt == fds[f].cnt + 1 && x.inode.Slot? && x.inode.i < NR_INODE
    ensures DescCounts(counted[k := Slot(f)], fds[f := x])
  {
    var after, fds' := counted[k := Slot(f)], fds[f := x];
    forall g: nat | g < NR_FILE_DESC ensures DescExact(fds'[g], multiset(after)[Slot(g)]) {
      CountSet(counted, k, Slot(f), Slot(g));
      assert DescExact(fds[g], multiset(counted)[Slot(g)]);
    }
  }

  /** Entry k leaves descriptor f, which is emptied when it was the last. */
  lemma DescRemove(counted: seq<Ref>, fds: seq<FileDesc>, k: nat, f: nat, x: FileDesc)
    requires DescCounts(counted, fds) && k < |counted| && counted[k] == Slot(f)
    requires fds[f].cnt > 0 && x.cnt == fds[f].cnt - 1 && x.inode == if x.cnt == 0 then Null else fds[f].inode
    ensures DescCounts(counted[k := Null], fds[f := x])
  {
    var after, fds' := counted[k := Null], fds[f := x];
    forall g: nat | g < NR_FILE_DESC ensures DescExact(fds'[g], multiset(after)[Slot(g)]) {
      CountSet(counted, k, Null, Slot(g));
      assert DescExact(fds[g], multiset(counted)[Slot(g)]);
    }
  }

  lemma StillCached(inodes: seq<Inode>, s: nat, x: Inode, pins: multiset<nat>)
    requires s < |inodes| && (forall n: nat {:trigger Cached(inodes, n)} :: n in pins ==> Cached(inodes, n))
    requires x.num == inodes[s].num || inodes[s].cnt == 0
    requires x.cnt > 0 || inodes[s].cnt == 0 || inodes[s].num !in pins
    ensures forall n: nat {:trigger Cached(inodes[s := x], n)} :: n in pins ==> Cached(inodes[s := x], n)
  {
    var after := inodes[s := x];
    forall n: nat | n in pins ensures Cached(after, n) {
      assert Cached(inodes, n);
      var t: nat :| t < |inodes| && inodes[t].cnt > 0 && inodes[t].num == n;
      assert after[t].cnt > 0 && after[t].num == n;
    }
  }

  /** Entry k starts to lead to the live slot s. */
  lemma InodeAdd(targets: seq<Ref>, inodes: seq<Inode>, pins: multiset<nat>, k: nat, s: nat)
    requires InodeCounts(targets, inodes, pins) && k < |targets| && targets[k] == Null
    requires s < NR_INODE && inodes[s].cnt > 0
    ensures InodeCounts(targets[k := Slot(s)], inodes[s := inodes[s].(cnt := inodes[s].cnt + 1)], pins)
  {
    var after, x := targets[k := Slot(s)], inodes[s].(cnt := inodes[s].cnt + 1);
    forall g: nat | g < NR_INODE ensures InodeExact(inodes[s := x][g], multiset(after)[Slot(g)], pins) {
      CountSet(targets, k, Slot(s), Slot(g));
      assert InodeExact(inodes[g], multiset(targets)[Slot(g)], pins);
    }
    StillCached(inodes, s, x, pins);
  }

  /** Entry k no longer leads to slot s. */
  lemma InodeRemove(targets: seq<Ref>, inodes: seq<Inode>, pins: multiset<nat>, k: nat, s: nat)
    requires InodeCounts(targets, inodes, pins) && k < |targets| && targets[k] == Slot(s) && s < NR_INODE
    ensures inodes[s].cnt > 0
    ensures InodeCounts(targets[k := Null], inodes[s := inodes[s].(cnt := inodes[s].cnt - 1)], pins)
  {
    assert Slot(s) in targets && multiset(targets)[Slot(s)] > 0;
    assert InodeExact(inodes[s], multiset(targets)[Slot(s)], pins);
    var after, x := targets[k := Null], inodes[s].(cnt := inodes[s].cnt - 1);
    forall g: nat | g < NR_INODE ensures InodeExact(inodes[s := x][g], multiset(after)[Slot(g)], pins) {
      CountSet(targets, k, Null, Slot(g));
      assert InodeExact(inodes[g], multiset(targets)[Slot(g)], pins);
    }
    StillCached(inodes, s, x, pins);
  }

  /** Entry k starts to lead to slot s in place of one of its pins. */
  lemma InodeUnpinned(targets: seq<Ref>, inodes: seq<Inode>, pins: multiset<nat>, k: nat, s: nat)
    requires InodeCounts(targets, inodes, pins) && NumsApart(inodes) && k < |targets| && targets[k] == Null
    requires s < NR_INODE && inodes[s].cnt > 0 && inodes[s].num in pins
    ensures InodeCounts(targets[k := Slot(s)], inodes, pins - multiset{inodes[s].num})
  {
    var after, fewer := targets[k := Slot(s)], pins - multiset{inodes[s].num};
    forall g: nat | g < NR_INODE ensures InodeExact(inodes[g], multiset(after)[Slot(g)], fewer) {
      CountSet(targets, k, Slot(s), Slot(g));
      assert InodeExact(inodes[g], multiset(targets)[Slot(g)], pins);
    }
  }

  /** One more reference to a cached inode, held by no descriptor. */
  lemma PinLive(targets: seq<Ref>, inodes: seq<Inode>, pins: multiset<nat>, s: nat)
    requires InodeCounts(targets, inodes, pins) && NumsApart(inodes) && s < NR_INODE && inodes[s].cnt > 0
    ensures InodeCounts(targets, inodes[s := inodes[s].(cnt := inodes[s].cnt + 1)], pins + multiset{inodes[s].num})
  {
    var x, more := inodes[s].(cnt := inodes[s].cnt + 1), pins + multiset{inodes[s].num};
    forall g: nat | g < NR_INODE ensures InodeExact(inodes[s := x][g], multiset(targets)[Slot(g)], more) {
      assert InodeExact(inodes[g], multiset(targets)[Slot(g)], pins);
    }
    StillCached(inodes, s, x, pins);
    assert inodes[s := x][s].num == x.num;
  }

  /** A free slot is taken over, pinned once, for an inode that is not cached. */
  lemma PinFree(targets: seq<Ref>, inodes: seq<Inode>, pins: multiset<nat>, s: nat, x: Inode)
    requires InodeCounts(targets, inodes, pins) && s < NR_INODE && inodes[s].cnt == 0
    requires x.cnt == 1 && !Cached(inodes, x.num)
    ensures InodeCounts(targets, inodes[s := x], pins + multiset{x.num})
  {
    assert x.num !in pins;
    var more := pins + multiset{x.num};
    forall g: nat | g < NR_INODE ensures InodeExact(inodes[s := x][g], multiset(targets)[Slot(g)], more) {
      assert InodeExact(inodes[g], multiset(targets)[Slot(g)], pins);
    }
    StillCached(inodes, s, x, pins);
    assert inodes[s := x][s].num == x.num;
  }

  /** A pin is given up. */
  lemma Unpin(targets: seq<Ref>, inodes: seq<Inode>, pins: multiset<nat>, s: nat)
    requires InodeCounts(targets, inodes, pins) && NumsApart(inodes) && s < NR_INODE && inodes[s].cnt > 0 && inodes[s].num in pins
    ensures InodeCounts(targets, inodes[s := inodes[s].(cnt := inodes[s].cnt - 1)], pins - multiset{inodes[s].num})
  {
    var x, fewer := inodes[s].(cnt := inodes[s].cnt - 1), pins - multiset{inodes[s].num};
    forall g: nat | g < NR_INODE ensures InodeExact(inodes[s := x][g], multiset(targets)[Slot(g)], fewer) {
      assert InodeExact(inodes[g], multiset(targets)[Slot(g)], pins);
    }
    assert InodeExact(inodes[s], multiset(targets)[Slot(s)], pins);
    StillCached(inodes, s, x, fewer);
  }

  /** Entry k, so far on nothing, is put on the fresh descriptor f of the pinned slot s, and the pin
      becomes that reference. */
  lemma Connected(counted: seq<Ref>, fds: seq<FileDesc>, inodes: seq<Inode>, pins: multiset<nat>, k: nat, f: nat, x: FileDesc, s: nat)
    requires DescCounts(counted, fds) && InodeCounts(Targets(counted, fds), inodes, pins) && NumsApart(inodes)
    requires k < |counted| && counted[k] == Null && f < NR_FILE_DESC && fds[f].inode == Null
    requires x.cnt == 1 && x.inode == Slot(s) && s < NR_INODE && inodes[s].cnt > 0 && inodes[s].num in pins
    ensures DescCounts(counted[k := Slot(f)], fds[f := x])
    ensures InodeCounts(Targets(counted[k := Slot(f)], fds[f := x]), inodes, pins - multiset{inodes[s].num})
  {
    assert DescExact(fds[f], multiset(counted)[Slot(f)]);
    DescAdd(counted, fds, k, f, x);
    TargetsOfDesc(counted, fds, f, x);
    TargetsOfSet(counted, fds[f := x], k, Slot(f));
    InodeUnpinned(Targets(counted, fds), inodes, pins, k, s);
  }

  /** Entry k leaves descriptor f. */
  lemma Disconnected(counted: seq<Ref>, fds: seq<FileDesc>, inodes: seq<Inode>, pins: multiset<nat>, k: nat, f: nat, x: FileDesc, s: nat)
    requires DescCounts(counted, fds) && InodeCounts(Targets(counted, fds), inodes, pins)
    requires k < |counted| && counted[k] == Slot(f) && f < NR_FILE_DESC && fds[f].inode == Slot(s) && fds[f].cnt > 0 && s < NR_INODE
    requires x.cnt == fds[f].cnt - 1 && x.inode == if x.cnt == 0 then Null else fds[f].inode
    ensures inodes[s].cnt > 0
    ensures DescCounts(counted[k := Null], fds[f := x])
    ensures InodeCounts(Targets(counted[k := Null], fds[f := x]), inodes[s := inodes[s].(cnt := inodes[s].cnt - 1)], pins)
  {
    DescRemove(counted, fds, k, f, x);
    TargetsOfSet(counted, fds, k, Null);
    assert DescExact(fds[f := x][f], multiset(counted[k := Null])[Slot(f)]);
    TargetsOfDesc(counted[k := Null], fds, f, x);
    InodeRemove(Targets(counted, fds), inodes, pins, k, s);
  }

  /** Entry k joins the others on descriptor f. */
  lemma Shared(counted: seq<Ref>, fds: seq<FileDesc>, inodes: seq<Inode>, pins: multiset<nat>, k: nat, f: nat, s: nat)
    requires DescCounts(counted, fds) && InodeCounts(Targets(counted, fds), inodes, pins)
    requires k < |counted| && counted[k] == Null && f < NR_FILE_DESC && fds[f].inode == Slot(s) && s < NR_INODE && Slot(f) in counted
    ensures inodes[s].cnt > 0
    ensures DescCounts(counted[k := Slot(f)], fds[f := fds[f].(cnt := fds[f].cnt + 1)])
    ensures InodeCounts(Targets(counted[k := Slot(f)], fds[f := fds[f].(cnt := fds[f].cnt + 1)]),
                        inodes[s := inodes[s].(cnt := inodes[s].cnt + 1)], pins)
  {
    var x, t := fds[f].(cnt := fds[f].cnt + 1), Targets(counted, fds);
    assert Slot(s) in t by {
      var j :| 0 <= j < |counted| && counted[j] == Slot(f);
      assert t[j] == Slot(s);
    }
    assert InodeExact(inodes[s], multiset(t)[Slot(s)], pins);
    DescAdd(counted, fds, k, f, x);
    TargetsOfSet(counted, fds, k, Slot(f));
    TargetsOfDesc(counted[k := Slot(f)], fds, f, x);
    InodeAdd(t, inodes, pins, k, s);
  }

  // ----- The tables

  datatype GetResult = Got(slot: nat) | NoSuchInode | InodeTableFull

  datatype OpenResult = Fd(fd: nat) | Failed | FilpFull | DescTableFull | CacheFull

  datatype UnlinkResult = Removed | NotRegular | InUse | NoCacheSlot

  /** The `filp` entries FS has counted: all but those of a child it has not got to yet. */
  ghost predicate CountsEntries(counted: seq<Ref>, filp: seq<Ref>, fork: Fork) {
    && |counted| == |filp| == NR_SLOTS * NR_FILES
    && (fork.Idle? ==> counted == filp)
    && (fork.Forking? ==>
         && fork.parent < NR_SLOTS && fork.child < NR_SLOTS && fork.parent != fork.child && fork.done <= NR_FILES
         && (forall k: nat :: k < |filp| ==>
              counted[k] == if Entry(fork.child, fork.done) <= k < Entry(fork.child, NR_FILES) then Null else filp[k])
         && (forall i: nat :: i < NR_FILES ==> filp[Entry(fork.child, i)] == filp[Entry(fork.parent, i)]))
  }

  class Tables {
    const disk: Disk
    const sb: SuperBlock
    const inodes: array<Inode>
    const fds: array<FileDesc>
    const filp: array<Ref>
    ghost var counted: seq<Ref>
    ghost var pins: multiset<nat>
    ghost var live: set<nat>
    ghost var records: seq<Record>
    ghost var fork: Fork

    ghost predicate Exact()
      reads this, inodes, fds, disk.data
    {
      && disk.Valid() && inodes.Length == NR_INODE
      && DescCounts(counted, fds[..]) && InodeCounts(Targets(counted, fds[..]), inodes[..], pins)
      && OnDisk(records, disk.data[..], sb) && Coherent(inodes[..], records, live)
    }

    ghost predicate Valid()
      reads this, inodes, fds, filp, disk.data
    {
      Exact() && CountsEntries(counted, filp[..], fork)
    }

    /** The tables as a value. */
    ghost function Snapshot(): Snap
      reads this, inodes, fds, filp
    {
      Snap(inodes[..], fds[..], filp[..], records, live, pins, fork)
    }

    /** init_fs: empty tables, and the root inode loaded for good. */
    constructor (d: Disk, super: SuperBlock, numbers: set<nat>)
      requires d.Valid() && super.FirstSect() * SECTOR_SIZE <= d.data.Length && ValidNum(super, 1)
      requires ROOT_INODE in numbers && forall n: nat :: n in numbers ==> 0 < n <= NR_INODES
      modifies d.fsbuf
      ensures Valid() && fork == Idle && pins == multiset{ROOT_INODE} && live == numbers && disk == d && sb == super
      ensures forall k :: 0 <= k < filp.Length ==> filp[k] == Null
      ensures fresh(inodes) && fresh(fds) && fresh(filp)
    {
      disk, sb, live := d, super, numbers;
      inodes := new Inode[NR_INODE](_ => Inode(NO_RECORD, 0, 0));
      fds := new FileDesc[NR_FILE_DESC](_ => FileDesc(0, 0, 0, Null));
      filp := new Ref[NR_SLOTS * NR_FILES](_ => Null);
      counted := seq(NR_SLOTS * NR_FILES, _ => Null);
      pins, fork := multiset{}, Idle;
      records := RecordsOf(d.data[..], super);
      new;
      EmptyTables(counted, fds[..], inodes[..]);
      assert filp[..] == counted;
      assert SlotFor(inodes[..], ROOT_INODE) < NR_INODE by { assert inodes[..][0].cnt == 0; }
      var r := GetInode(ROOT_INODE);
      assert r.Got?;
    }

    method SetInode(s: nat, x: Inode)
      requires s < inodes.Length
      modifies inodes
      ensures inodes[..] == old(inodes[..])[s := x]
    {
      inodes[s] := x;
    }

    method SetDesc(f: nat, x: FileDesc)
      requires f < fds.Length
      modifies fds
      ensures fds[..] == old(fds[..])[f := x]
    {
      fds[f] := x;
    }

    method SetFilp(k: nat, x: Ref)
      requires k < filp.Length
      modifies filp
      ensures filp[..] == old(filp[..])[k := x]
    {
      filp[k] := x;
    }

    /** The scan of get_inode: the cached slot of `num`, or else the first free slot. */
    method FindSlot(num: nat) returns (hit: Ref, free: Ref)
      requires inodes.Length == NR_INODE
      ensures var h := HitSlot(inodes[..], num, 0); hit == if h < NR_INODE then Slot(h) else Null
      ensures var g := FreeSlot(inodes[..], 0); hit == Null ==> free == if g < NR_INODE then Slot(g) else Null
    {
      ghost var v := inodes[..];
      free := Null;
      for p := 0 to NR_INODE
        invariant HitSlot(v, num, 0) >= p
        invariant if free == Null then FreeSlot(v, 0) >= p else free.i == FreeSlot(v, 0) < p
      {
        assert inodes[p] == v[p];
        if inodes[p].cnt > 0 {
          if inodes[p].num == num {
            assert Holds(v[p], num);
            return Slot(p), free;
          }
        } else if free == Null {
          free := Slot(p);
        }
      }
      hit := Null;
    }

    /** get_inode when the inode is in slot s. */
    method GetCached(s: nat)
      requires Valid() && s < NR_INODE && inodes[..][s].cnt > 0
      modifies this`pins, inodes
      ensures Valid() && pins == old(pins) + multiset{old(inodes[..])[s].num}
      ensures inodes[..] == old(inodes[..])[s := old(inodes[..])[s].(cnt := old(inodes[..])[s].cnt + 1)]
    {
      ghost var v := inodes[..];
      var x := inodes[s];
      assert x == v[s];
      PinLive(Targets(counted, fds[..]), v, pins, s);
      SlotUpdated(v, records, live, s, x.(cnt := x.cnt + 1));
      pins := pins + multiset{x.num};
      SetInode(s, x.(cnt := x.cnt + 1));
    }

    /** get_inode when the inode is not cached and slot s is free. */
    method GetFresh(s: nat, num: nat)
      requires Valid() && s < NR_INODE && inodes[..][s].cnt == 0 && num in live && !Cached(inodes[..], num)
      modifies this`pins, inodes, disk.fsbuf
      ensures Valid() && pins == old(pins) + multiset{num}
      ensures inodes[..] == old(inodes[..])[s := Inode(records[num], 1, num)]
    {
      var rec := LoadInode(disk, sb, num);
      PinFree(Targets(counted, fds[..]), inodes[..], pins, s, Inode(rec, 1, num));
      NewSlotCoherent(inodes[..], records, live, s, Inode(rec, 1, num));
      pins := pins + multiset{num};
      SetInode(s, Inode(rec, 1, num));
    }

    /** A cached inode keeps its slot; a free slot, which nobody refers to, is loaded from disk. */
    method GetInode(num: nat) returns (r: GetResult)
      requires Valid() && (num == 0 || num in live)
      modifies this`pins, inodes, disk.fsbuf
      ensures Valid()
      ensures r == NoSuchInode <==> num == 0
      ensures r == InodeTableFull <==> num != 0 && SlotFor(old(inodes[..]), num) == NR_INODE
      ensures !r.Got? ==> pins == old(pins) && inodes[..] == old(inodes[..])
      ensures r.Got? ==> r.slot == SlotFor(old(inodes[..]), num) < NR_INODE && pins == old(pins) + multiset{num} && num in live
      ensures r.Got? ==> num < |records| && inodes[..] == Gotten(old(inodes[..]), records, num)
    {
      if num == 0 {
        return NoSuchInode;
      }
      ghost var v := inodes[..];
      var hit, free := FindSlot(num);
      SlotForFull(v, num);
      if hit.Slot? {
        assert SlotCoherent(v[hit.i], records, live);
        assert v[hit.i] == Inode(records[num], v[hit.i].cnt, num);
        GetCached(hit.i);
        return Got(hit.i);
      }
      if free == Null {
        return InodeTableFull;
      }
      GetFresh(free.i, num);
      return Got(free.i);
    }

    /** The sync_inode of a cached slot after its fields were set to r, write-through. */
    method StoreSlot(s: nat, r: Record, cnt: nat)
      requires Valid() && s < NR_INODE && inodes[..][s].cnt == cnt > 0
      modifies this`records, inodes, disk.data, disk.fsbuf
      ensures Valid()
      ensures inodes[..] == old(inodes[..])[s := Inode(r, cnt, old(inodes[..])[s].num)]
      ensures old(inodes[..])[s].num < |old(records)| && records == old(records)[old(inodes[..])[s].num := r]
    {
      ghost var v, d0 := inodes[..], disk.data[..];
      var num := inodes[s].num;
      assert v[s].num == num && SlotCoherent(v[s], records, live);
      SyncInode(disk, sb, num, r);
      RecordStored(records, d0, disk.data[..], sb, num, r);
      StoredCoherent(v, records, live, s, r);
      RecountRecord(Targets(counted, fds[..]), v, pins, s, r);
      records := records[num := r];
      SetInode(s, Inode(r, cnt, num));
    }

    /** Turns the pin of slot s into the `filp` entry fd of process p, on the free descriptor f. */
    method Connect(p: nat, fd: nat, f: nat, s: nat, flags: int)
      requires Valid() && p < NR_SLOTS && fd < NR_FILES && f < NR_FILE_DESC && s < NR_INODE && MayAct(p)
      requires filp[..][Entry(p, fd)] == Null && fds[..][f].inode == Null && inodes[..][s].cnt > 0 && inodes[..][s].num in pins
      modifies this`pins, this`counted, fds, filp
      ensures Valid() && pins == old(pins) - multiset{inodes[..][s].num}
      ensures fd == FreeEntry(old(filp[..]), p, 0) && f == FreeDesc(old(fds[..]), 0) ==> Snapshot() == Attached(old(Snapshot()), p, s, flags).(pins := pins)
      ensures filp[..] == old(filp[..])[Entry(p, fd) := Slot(f)]
      ensures fds[..] == old(fds[..])[f := FileDesc(flags, 0, 1, Slot(s))]
    {
      var x := FileDesc(flags, 0, 1, Slot(s));
      assert counted[Entry(p, fd)] == Null;
      Connected(counted, fds[..], inodes[..], pins, Entry(p, fd), f, x, s);
      EntryChanged(counted, filp[..], fork, p, fd, Slot(f));
      SetFilp(Entry(p, fd), Slot(f));
      SetDesc(f, x);
      pins := pins - multiset{inodes[..][s].num};
      counted := counted[Entry(p, fd) := Slot(f)];
    }

    /** What do_rdwt leaves in the tables when `bytes` bytes have been moved: the position advances,
        and a size it passes grows with it, in the cache and on disk. */
    method EndTransfer(p: nat, fd: nat, bytes: u32)
      requires Valid() && p < NR_SLOTS && fd < NR_FILES && MayAct(p) && filp[..][Entry(p, fd)].Slot?
      modifies this`records, inodes, fds, disk.data, disk.fsbuf
      ensures Valid()
      ensures Snapshot() == TransferStep(old(Snapshot()), p, fd, bytes)
      ensures var f := filp[..][Entry(p, fd)].i; f < NR_FILE_DESC && fds[..][f].pos == Sum(old(fds[..])[f].pos, bytes)
    {
      ghost var k := Entry(p, fd);
      assert counted[k] == filp[..][k] == filp[k];
      ReferencedIsLive(counted, fds[..], inodes[..], pins, k);
      var f := filp[Entry(p, fd)].i;
      Seek(f, bytes);
      var x := fds[f];
      assert x == fds[..][f];
      Grow(x.inode.i, x.pos);
    }

    method Seek(f: nat, bytes: u32)
      requires Valid() && f < NR_FILE_DESC
      modifies fds
      ensures Valid() && fds[..] == old(fds[..])[f := Advanced(old(fds[..])[f], bytes)]
    {
      var x := fds[f];
      assert x == fds[..][f];
      var y := Advanced(x, bytes);
      SeekKeepsCounts(counted, fds[..], f, y);
      SetDesc(f, y);
    }

    /** The size follows a position past it. */
    method Grow(s: nat, pos: u32)
      requires Valid() && s < NR_INODE && inodes[..][s].cnt > 0
      modifies this`records, inodes, disk.data, disk.fsbuf
      ensures Valid() && inodes[..] == old(inodes[..])[s := Reached(old(inodes[..])[s], pos)]
      ensures var y := Reached(old(inodes[..])[s], pos); y.num < |old(records)| && records == old(records)[y.num := y.rec]
    {
      var y := inodes[s];
      assert y == inodes[..][s] && SlotCoherent(y, records, live);
      if pos > y.rec.size {
        ReachedNow(y, pos);
        StoreSlot(s, y.rec.(size := pos), y.cnt);
      } else {
        ReachedAlready(inodes[..], records, s, pos);
      }
    }

    /** The new size of the root directory, after an entry was added or the last one removed. */
    method SyncRoot(size: u32)
      requires Valid() && ROOT_INODE in pins
      modifies this`records, inodes, disk.data, disk.fsbuf
      ensures Valid() && Snapshot() == ResizeStep(old(Snapshot()), size)
      ensures ROOT_INODE < |old(records)| && records == old(records)[ROOT_INODE := old(records)[ROOT_INODE].(size := size)]
    {
      assert Cached(inodes[..], ROOT_INODE);
      SlotForFull(inodes[..], ROOT_INODE);
      var hit, _ := FindSlot(ROOT_INODE);
      var y := inodes[hit.i];
      assert y == inodes[..][hit.i] && SlotCoherent(y, records, live);
      StoreSlot(hit.i, y.rec.(size := size), y.cnt);
    }

    /** Every entry in use, counted or not yet, leads through a descriptor to an inode. */
    lemma EntriesLead(k: nat)
      requires Valid() && k < filp.Length && filp[..][k].Slot?
      ensures Leads(Snapshot(), k)
    {
      if counted[k].Slot? {
        ReferencedIsLive(counted, fds[..], inodes[..], pins, k);
      } else {
        var i := k - Entry(fork.child, 0);
        assert Entry(fork.child, i) == k;
        var j := Entry(fork.parent, i);
        assert filp[..][j] == filp[..][k] && counted[j] == filp[..][j];
        ReferencedIsLive(counted, fds[..], inodes[..], pins, j);
      }
    }

    /** Neither the parent nor the child of a fork in progress can call FS: both wait for MM. */
    ghost predicate MayAct(p: nat)
      reads this
    {
      fork.Forking? ==> p != fork.parent && p != fork.child
    }

    method FindFd(p: nat) returns (fd: Ref)
      requires p < NR_SLOTS && filp.Length == NR_SLOTS * NR_FILES
      ensures var i := FreeEntry(filp[..], p, 0); fd == if i < NR_FILES then Slot(i) else Null
    {
      for i := 0 to NR_FILES
        invariant FreeEntry(filp[..], p, 0) >= i
      {
        assert filp[Entry(p, i)] == filp[..][Entry(p, i)];
        if filp[Entry(p, i)] == Null {
          return Slot(i);
        }
      }
      fd := Null;
    }

    method FindDesc() returns (f: Ref)
      requires fds.Length == NR_FILE_DESC
      ensures var i := FreeDesc(fds[..], 0); f == if i < NR_FILE_DESC then Slot(i) else Null
    {
      for i := 0 to NR_FILE_DESC
        invariant FreeDesc(fds[..], 0) >= i
      {
        assert fds[i] == fds[..][i];
        if fds[i].inode == Null {
          return Slot(i);
        }
      }
      f := Null;
    }

    /** do_open of a file whose directory entry names inode `num` (0: no such file). */
    method OpenExisting(p: nat, num: nat, flags: int) returns (r: OpenResult)
      requires Valid() && p < NR_SLOTS && MayAct(p) && (num == 0 || num in live)
      modifies this`pins, this`counted, inodes, fds, filp, disk.fsbuf
      ensures Valid() && r == OpenOutcome(old(Snapshot()), p, num, true)
      ensures r.Fd? || r.Failed? ==> num < |records| && Snapshot() == OpenStep(old(Snapshot()), p, num, flags)
      ensures r.Fd? ==> Opened(filp[..], fds[..], inodes[..], p, r.fd, num, flags)
      ensures fork == old(fork) && live == old(live)
    {
      var fd := FindFd(p);
      if fd == Null {
        return FilpFull;
      }
      var f := FindDesc();
      if f == Null {
        return DescTableFull;
      }
      var g := OpenInode(p, num, fd.i, f.i, flags);
      r := if g.Got? then Fd(fd.i) else if g.NoSuchInode? then Failed else CacheFull;
    }

    /** do_open once there is room for an entry and a descriptor. */
    method OpenInode(p: nat, num: nat, fd: nat, f: nat, flags: int) returns (g: GetResult)
      requires Valid() && p < NR_SLOTS && MayAct(p) && (num == 0 || num in live)
      requires fd == FreeEntry(filp[..], p, 0) < NR_FILES && f == FreeDesc(fds[..], 0) < NR_FILE_DESC
      modifies this`pins, this`counted, inodes, fds, filp, disk.fsbuf
      ensures Valid() && (g.NoSuchInode? <==> num == 0) && (g.InodeTableFull? <==> num != 0 && SlotFor(old(inodes[..]), num) == NR_INODE)
      ensures !g.InodeTableFull? ==> num < |records| && Snapshot() == OpenStep(old(Snapshot()), p, num, flags)
      ensures g.Got? ==> Opened(filp[..], fds[..], inodes[..], p, fd, num, flags)
    {
      ghost var s := Snapshot();
      g := GetInode(num);
      if g.Got? {
        ghost var t := Snapshot();
        Connect(p, fd, f, g.slot, flags);
        assert Opened(filp[..], fds[..], inodes[..], p, fd, num, flags);
        OpenedStep(s, t, p, num, flags);
      }
    }

    /** new_inode: the inode number, unused so far, gets a slot with one reference and its record. */
    method NewInode(num: nat, start: u32) returns (g: GetResult)
      requires Valid() && 0 < num <= NR_INODES && num !in live
      modifies this`pins, this`live, this`records, inodes, disk.data, disk.fsbuf
      ensures Valid() && !g.NoSuchInode? && live == old(live) + {num}
      ensures g.InodeTableFull? <==> SlotFor(old(inodes[..]), num) == NR_INODE
      ensures g.InodeTableFull? ==> pins == old(pins)
      ensures g.Got? ==>
        && g.slot == SlotFor(old(inodes[..]), num) < NR_INODE && pins == old(pins) + multiset{num} && num < |old(records)|
        && records == old(records)[num := NewRecord(start)] && inodes[..] == old(inodes[..])[g.slot := Inode(NewRecord(start), 1, num)]
    {
      NewNumber(inodes[..], records, live, num);
      SlotForFull(inodes[..], num);
      live := live + {num};
      g := GetInode(num);
      if g.Got? {
        StoreSlot(g.slot, NewRecord(start), 1);
      }
    }

    /** do_open with O_CREAT: the maps gave the new file inode `num`, unused so far, and `start`. */
    method OpenCreate(p: nat, num: nat, start: u32, flags: int) returns (r: OpenResult)
      requires Valid() && p < NR_SLOTS && MayAct(p) && 0 < num <= NR_INODES && num !in live
      modifies this, inodes, fds, filp, disk.data, disk.fsbuf
      ensures Valid() && r == OpenOutcome(old(Snapshot()), p, num, false)
      ensures r.Fd? ==> Snapshot() == CreateStep(old(Snapshot()), p, num, start, flags)
      ensures r.Fd? ==> live == old(live) + {num} && num < |old(records)| && records == old(records)[num := Record(0x8000, 0, start, 2048)]
      ensures r.Fd? ==> Opened(filp[..], fds[..], inodes[..], p, r.fd, num, flags)
    {
      var fd := FindFd(p);
      if fd == Null {
        return FilpFull;
      }
      var f := FindDesc();
      if f == Null {
        return DescTableFull;
      }
      var g := CreateInode(p, num, fd.i, f.i, start, flags);
      r := if g.Got? then Fd(fd.i) else CacheFull;
    }

    method CreateInode(p: nat, num: nat, fd: nat, f: nat, start: u32, flags: int) returns (g: GetResult)
      requires Valid() && p < NR_SLOTS && MayAct(p) && 0 < num <= NR_INODES && num !in live
      requires fd == FreeEntry(filp[..], p, 0) < NR_FILES && f == FreeDesc(fds[..], 0) < NR_FILE_DESC
      modifies this`pins, this`live, this`records, this`counted, inodes, fds, filp, disk.data, disk.fsbuf
      ensures Valid() && !g.NoSuchInode? && (g.InodeTableFull? <==> SlotFor(old(inodes[..]), num) == NR_INODE)
      ensures g.Got? ==> Snapshot() == CreateStep(old(Snapshot()), p, num, start, flags)
      ensures g.Got? ==> Opened(filp[..], fds[..], inodes[..], p, fd, num, flags)
    {
      ghost var s := Snapshot();
      g := NewInode(num, start);
      if g.Got? {
        ghost var t := Snapshot();
        Connect(p, fd, f, g.slot, flags);
        assert Opened(filp[..], fds[..], inodes[..], p, fd, num, flags);
        CreatedStep(s, t, p, num, start, flags);
      }
    }

    /** Takes one off the counts of descriptor f and of its inode; the last one frees f. */
    method Release(k: nat, f: nat)
      requires Exact() && k < |counted| && counted[k] == Slot(f)
      modifies this`counted, inodes, fds
      ensures Exact() && counted == old(counted)[k := Null]
      ensures f < NR_FILE_DESC && fds[..] == old(fds[..])[f := Lowered(old(fds[..])[f])]
      ensures var x := old(fds[..])[f].inode; x.Slot? && x.i < NR_INODE && inodes[..] == old(inodes[..])[x.i := PutOnce(old(inodes[..])[x.i])]
    {
      ReleaseKeeps(counted, fds[..], inodes[..], pins, records, live, k, f);
      var x := fds[f];
      assert fds[..][f] == x;
      var y := inodes[x.inode.i];
      assert inodes[..][x.inode.i] == y;
      SetInode(x.inode.i, PutOnce(y));
      SetDesc(f, Lowered(x));
      counted := counted[k := Null];
    }

    /** Takes `filp` entry fd of p off its descriptor, which is freed with the last entry on it. */
    method Drop(p: nat, fd: nat)
      requires Valid() && p < NR_SLOTS && fd < NR_FILES && MayAct(p) && filp[..][Entry(p, fd)] != Null
      modifies this`counted, inodes, fds, filp
      ensures Valid() && Snapshot() == DropEntry(old(Snapshot()), Entry(p, fd))
      ensures filp[..] == old(filp[..])[Entry(p, fd) := Null]
    {
      var k := Entry(p, fd);
      assert counted[k] == filp[..][k];
      EntryChanged(counted, filp[..], fork, p, fd, Null);
      Release(k, filp[k].i);
      SetFilp(k, Null);
    }

    /** do_close; the assertion of put_inode holds. */
    method DoClose(p: nat, fd: nat)
      requires Valid() && p < NR_SLOTS && fd < NR_FILES && MayAct(p) && filp[..][Entry(p, fd)] != Null
      modifies this`counted, inodes, fds, filp
      ensures Valid() && Snapshot() == DropEntry(old(Snapshot()), Entry(p, fd))
      ensures filp[..] == old(filp[..])[Entry(p, fd) := Null]
    {
      Drop(p, fd);
    }

    /** fs_exit: all entries of p go. */
    method FsExit(p: nat)
      requires Valid() && p < NR_SLOTS && MayAct(p)
      modifies this`counted, inodes, fds, filp
      ensures Valid() && Snapshot() == Dropped(old(Snapshot()), p, NR_FILES)
      ensures forall k: nat :: k < filp.Length ==>
        filp[..][k] == if Entry(p, 0) <= k < Entry(p, NR_FILES) then Null else old(filp[..])[k]
    {
      for i := 0 to NR_FILES
        invariant Valid() && Snapshot() == Dropped(old(Snapshot()), p, i)
        invariant forall k: nat :: k < filp.Length ==>
          filp[..][k] == if Entry(p, 0) <= k < Entry(p, i) then Null else old(filp[..])[k]
      {
        DropIfUsed(p, i);
      }
    }

    method DropIfUsed(p: nat, fd: nat)
      requires Valid() && p < NR_SLOTS && fd < NR_FILES && MayAct(p)
      modifies this`counted, inodes, fds, filp
      ensures Valid() && Snapshot() == DropEntry(old(Snapshot()), Entry(p, fd))
      ensures filp[..] == old(filp[..])[Entry(p, fd) := Null]
    {
      assert filp[Entry(p, fd)] == filp[..][Entry(p, fd)];
      if filp[Entry(p, fd)] != Null {
        Drop(p, fd);
      }
    }

    /** MM's part of fork: the child's process entry becomes a copy of the parent's. */
    method ForkCopy(parent: nat, child: nat)
      requires Valid() && fork == Idle && parent < NR_SLOTS && child < NR_SLOTS && parent != child
      requires forall i: nat :: i < NR_FILES ==> filp[..][Entry(child, i)] == Null
      modifies this`fork, filp
      ensures Valid() && fork == Forking(parent, child, 0)
      ensures filp[..] == Copied(old(filp[..]), parent, child, NR_FILES)
    {
      ghost var was := filp[..];
      for i := 0 to NR_FILES
        invariant filp[..] == Copied(was, parent, child, i)
      {
        CopyNext(was, parent, child, i);
        SetFilp(Entry(child, i), filp[Entry(parent, i)]);
      }
      ForkStarted(was, parent, child);
      fork := Forking(parent, child, 0);
    }

    /** Adds one to the counts of descriptor f and of its inode, for the entry k. */
    method Share(k: nat, f: nat)
      requires Exact() && k < |counted| && counted[k] == Null && Slot(f) in counted && f < NR_FILE_DESC
      modifies this`counted, inodes, fds
      ensures Exact() && counted == old(counted)[k := Slot(f)]
      ensures fds[..] == old(fds[..])[f := Raised(old(fds[..])[f])]
      ensures var x := old(fds[..])[f].inode; x.Slot? && x.i < NR_INODE && inodes[..] == old(inodes[..])[x.i := GotOnce(old(inodes[..])[x.i])]
    {
      ShareKeeps(counted, fds[..], inodes[..], pins, records, live, k, f);
      var x := fds[f];
      assert fds[..][f] == x;
      var y := inodes[x.inode.i];
      assert inodes[..][x.inode.i] == y;
      SetDesc(f, Raised(x));
      SetInode(x.inode.i, GotOnce(y));
      counted := counted[k := Slot(f)];
    }

    /** One iteration of fs_fork.  The descriptor is still in use because the parent is on it too. */
    method CountChildEntry(child: nat, i: nat)
      requires Valid() && fork.Forking? && fork.child == child && fork.done == i < NR_FILES
      modifies this`fork, this`counted, inodes, fds
      ensures Valid() && fork == old(fork).(done := i + 1)
      ensures Snapshot() == ShareEntry(old(Snapshot()), Entry(child, i)).(fork := fork)
    {
      var k := Entry(child, i);
      ghost var was := counted;
      assert was[k] == Null && filp[..][k] == filp[..][Entry(fork.parent, i)] == was[Entry(fork.parent, i)];
      ChildCounted(was, filp[..], fork);
      if filp[k] != Null {
        Share(k, filp[k].i);
      }
      assert counted == was[k := filp[..][k]];
      fork := fork.(done := i + 1);
    }

    /** fs_fork: the child's entries are counted. */
    method FsFork(child: nat)
      requires Valid() && fork.Forking? && fork.child == child && fork.done == 0
      modifies this`fork, this`counted, inodes, fds
      ensures Valid() && Snapshot() == Counted(old(Snapshot()), child, NR_FILES).(fork := Idle)
    {
      for i := 0 to NR_FILES
        invariant Valid() && fork == old(fork).(done := i)
        invariant Snapshot() == Counted(old(Snapshot()), child, i).(fork := fork)
      {
        CountedNext(old(Snapshot()), child, i, fork, fork.(done := i + 1));
        CountChildEntry(child, i);
      }
      fork := Idle;
      assert counted == filp[..];
    }

    method PutInode(s: nat)
      requires Valid() && s < NR_INODE && inodes[..][s].cnt > 0 && inodes[..][s].num in pins
      modifies this`pins, inodes
      ensures Valid() && pins == old(pins) - multiset{old(inodes[..])[s].num}
      ensures inodes[..] == old(inodes[..])[s := old(inodes[..])[s].(cnt := old(inodes[..])[s].cnt - 1)]
    {
      var x := inodes[s];
      assert inodes[..][s] == x;
      Unpin(Targets(counted, fds[..]), inodes[..], pins, s);
      CountLowered(inodes[..], records, live, s);
      pins := pins - multiset{x.num};
      SetInode(s, x.(cnt := x.cnt - 1));
    }

    /** The inode part of do_unlink.  It succeeds exactly for a regular file that nobody has a
        reference to; the two refusals return with the reference they took still held. */
    method DoUnlink(num: nat) returns (r: UnlinkResult)
      requires Valid() && num in live
      modifies this`pins, this`live, this`records, inodes, disk.data, disk.fsbuf
      ensures Valid()
      ensures r == NoCacheSlot <==> SlotFor(old(inodes[..]), num) == NR_INODE
      ensures num < |old(records)| && (r == Removed <==> r != NoCacheSlot && !Refuses(old(Snapshot()), num))
      ensures r != NoCacheSlot ==> Snapshot() == UnlinkStep(old(Snapshot()), num)
      ensures r == Removed <==> r != NoCacheSlot && old(records)[num].mode == I_REGULAR && !Cached(old(inodes[..]), num)
      ensures r == Removed ==> pins == old(pins) && live == old(live) - {num} && records == old(records)[num := Record(0, 0, 0, 0)]
      ensures r == NotRegular || r == InUse ==> pins == old(pins) + multiset{num} && live == old(live) && records == old(records)
    {
      SlotForFull(inodes[..], num);
      var g := GetInode(num);
      if g.InodeTableFull? {
        return NoCacheSlot;
      }
      var s := g.slot;
      assert inodes[s] == inodes[..][s];
      if inodes[s].rec.mode != I_REGULAR {
        return NotRegular;
      }
      if inodes[s].cnt > 1 {
        return InUse;
      }
      Erase(s, num);
      return Removed;
    }

    /** The inode in slot s, which only the caller refers to, is cleared and given up. */
    method Erase(s: nat, num: nat)
      requires Valid() && s < NR_INODE && inodes[..][s].cnt == 1 && inodes[..][s].num == num && num in pins
      modifies this`pins, this`live, this`records, inodes, disk.data, disk.fsbuf
      ensures Valid() && pins == old(pins) - multiset{num} && live == old(live) - {num}
      ensures num < |old(records)| && records == old(records)[num := NO_RECORD]
      ensures inodes[..] == old(inodes[..])[s := Inode(NO_RECORD, 0, num)]
    {
      StoreSlot(s, NO_RECORD, 1);
      ghost var v := inodes[..];
      PutInode(s);
      OnlyHolder(v, s, num);
      NumberGone(inodes[..], records, live, s, num);
      live := live - {num};
    }

    /** One request: it is carried out unless it cannot be made in this state or panics. */
    method Dispatch(e: Event, numbers: set<nat>, f: Fork) returns (ok: bool, numbers': set<nat>, f': Fork)
      requires Valid() && numbers == live && f == fork && !(f.Forking? && f.done > 0) && ROOT_INODE in pins
      modifies this, inodes, fds, filp, disk.data, disk.fsbuf
      ensures Valid() && (ok <==> !Halts(old(Snapshot()), e))
      ensures ok ==> Snapshot() == Step(old(Snapshot()), e) && numbers' == live && f' == fork
      ensures ok ==> !(f'.Forking? && f'.done > 0) && ROOT_INODE in pins
    {
      InRangeNow();
      StepPins(Snapshot(), e);
      NotHalfway(Snapshot(), e);
      match e
      case Open(p, num, flags) => ok, numbers', f' := ServeOpen(p, num, flags, numbers, f);
      case Create(p, num, start, flags) => ok, numbers', f' := ServeCreate(p, num, start, flags, numbers, f);
      case Close(p, fd) => ok, numbers', f' := ServeClose(p, fd, numbers, f);
      case Transfer(p, fd, bytes) => ok, numbers', f' := ServeTransfer(p, fd, bytes, numbers, f);
      case Resize(size) =>
        SyncRoot(size);
        ok, numbers', f' := true, numbers, f;
      case Copy(parent, child) => ok, numbers', f' := ServeCopy(parent, child, numbers, f);
      case CountChild => ok, numbers', f' := ServeCountChild(numbers, f);
      case Exit(p) => ok, numbers', f' := ServeExit(p, numbers, f);
      case Unlink(num) => ok, numbers', f' := ServeUnlink(num, numbers, f);
    }

    predicate HasEntry(p: nat, fd: nat, f: Fork)
      requires filp.Length == NR_SLOTS * NR_FILES
      reads filp
    {
      CanCall(p, f) && fd < NR_FILES && filp[Entry(p, fd)] != Null
    }

    lemma InRangeNow()
      requires Valid()
      ensures InRange(Snapshot())
    {
    }

    method ServeClose(p: nat, fd: nat, numbers: set<nat>, f: Fork) returns (ok: bool, numbers': set<nat>, f': Fork)
      requires Valid() && numbers == live && f == fork && !(f.Forking? && f.done > 0)
      modifies this, inodes, fds, filp, disk.data, disk.fsbuf
      ensures Valid() && InRange(old(Snapshot())) && (ok <==> !Halts(old(Snapshot()), Close(p, fd)))
      ensures ok ==> Snapshot() == Step(old(Snapshot()), Close(p, fd)) && numbers' == live && f' == fork
    {
      InRangeNow();
      ok, numbers', f' := HasEntry(p, fd, f), numbers, f;
      if ok {
        DoClose(p, fd);
      }
    }

    method ServeTransfer(p: nat, fd: nat, bytes: u32, numbers: set<nat>, f: Fork) returns (ok: bool, numbers': set<nat>, f': Fork)
      requires Valid() && numbers == live && f == fork && !(f.Forking? && f.done > 0)
      modifies this, inodes, fds, filp, disk.data, disk.fsbuf
      ensures Valid() && InRange(old(Snapshot())) && (ok <==> !Halts(old(Snapshot()), Transfer(p, fd, bytes)))
      ensures ok ==> Snapshot() == Step(old(Snapshot()), Transfer(p, fd, bytes)) && numbers' == live && f' == fork
    {
      InRangeNow();
      ok, numbers', f' := HasEntry(p, fd, f), numbers, f;
      if ok {
        EndTransfer(p, fd, bytes);
      }
    }

    method ServeCountChild(numbers: set<nat>, f: Fork) returns (ok: bool, numbers': set<nat>, f': Fork)
      requires Valid() && numbers == live && f == fork && !(f.Forking? && f.done > 0)
      modifies this, inodes, fds, filp, disk.data, disk.fsbuf
      ensures Valid() && InRange(old(Snapshot())) && (ok <==> !Halts(old(Snapshot()), CountChild))
      ensures ok ==> Snapshot() == Step(old(Snapshot()), CountChild) && numbers' == live && f' == fork
    {
      InRangeNow();
      ok, numbers', f' := f.Forking?, numbers, Idle;
      if ok {
        FsFork(f.child);
      }
    }

    method ServeExit(p: nat, numbers: set<nat>, f: Fork) returns (ok: bool, numbers': set<nat>, f': Fork)
      requires Valid() && numbers == live && f == fork && !(f.Forking? && f.done > 0)
      modifies this, inodes, fds, filp, disk.data, disk.fsbuf
      ensures Valid() && InRange(old(Snapshot())) && (ok <==> !Halts(old(Snapshot()), Exit(p)))
      ensures ok ==> Snapshot() == Step(old(Snapshot()), Exit(p)) && numbers' == live && f' == fork
    {
      InRangeNow();
      ok, numbers', f' := CanCall(p, f), numbers, f;
      if ok {
        FsExit(p);
      }
    }

    method ServeOpen(p: nat, num: nat, flags: int, numbers: set<nat>, f: Fork) returns (ok: bool, numbers': set<nat>, f': Fork)
      requires Valid() && numbers == live && f == fork
      modifies this, inodes, fds, filp, disk.data, disk.fsbuf
      ensures Valid() && InRange(old(Snapshot())) && (ok <==> !Halts(old(Snapshot()), Open(p, num, flags)))
      ensures ok ==> Snapshot() == Step(old(Snapshot()), Open(p, num, flags)) && numbers' == live && f' == fork
    {
      InRangeNow();
      ok, numbers', f' := CanCall(p, f) && (num == 0 || num in numbers), numbers, f;
      if ok {
        var r := OpenExisting(p, num, flags);
        ok := r.Fd? || r.Failed?;
      }
    }

    method ServeCreate(p: nat, num: nat, start: u32, flags: int, numbers: set<nat>, f: Fork) returns (ok: bool, numbers': set<nat>, f': Fork)
      requires Valid() && numbers == live && f == fork
      modifies this, inodes, fds, filp, disk.data, disk.fsbuf
      ensures Valid() && InRange(old(Snapshot())) && (ok <==> !Halts(old(Snapshot()), Create(p, num, start, flags)))
      ensures ok ==> Snapshot() == Step(old(Snapshot()), Create(p, num, start, flags)) && numbers' == live && f' == fork
    {
      InRangeNow();
      ok, numbers', f' := CanCall(p, f) && num !in numbers && 0 < num <= NR_INODES, numbers + {num}, f;
      if ok {
        var r := OpenCreate(p, num, start, flags);
        ok := r.Fd?;
      }
    }

    method ServeCopy(parent: nat, child: nat, numbers: set<nat>, f: Fork) returns (ok: bool, numbers': set<nat>, f': Fork)
      requires Valid() && numbers == live && f == fork
      modifies this, inodes, fds, filp, disk.data, disk.fsbuf
      ensures Valid() && InRange(old(Snapshot())) && (ok <==> !Halts(old(Snapshot()), Copy(parent, child)))
      ensures ok ==> Snapshot() == Step(old(Snapshot()), Copy(parent, child)) && numbers' == live && f' == fork
    {
      InRangeNow();
      ok, numbers', f' := false, numbers, f;
      if f == Idle && parent < NR_SLOTS && child < NR_SLOTS && parent != child {
        ok := RowEmpty(child);
        if ok {
          ForkCopy(parent, child);
          f' := Forking(parent, child, 0);
        }
      }
    }

    method ServeUnlink(num: nat, numbers: set<nat>, f: Fork) returns (ok: bool, numbers': set<nat>, f': Fork)
      requires Valid() && numbers == live && f == fork
      modifies this, inodes, fds, filp, disk.data, disk.fsbuf
      ensures Valid() && InRange(old(Snapshot())) && (ok <==> !Halts(old(Snapshot()), Unlink(num)))
      ensures ok ==> Snapshot() == Step(old(Snapshot()), Unlink(num)) && numbers' == live && f' == fork
    {
      InRangeNow();
      ok, numbers', f' := num in numbers, numbers, f;
      if ok {
        var r := DoUnlink(num);
        ok, numbers' := r != NoCacheSlot, if r == Removed then numbers - {num} else numbers;
      }
    }

    method RowEmpty(p: nat) returns (empty: bool)
      requires p < NR_SLOTS && filp.Length == NR_SLOTS * NR_FILES
      ensures empty <==> forall i: nat :: i < NR_FILES ==> filp[..][Entry(p, i)] == Null
    {
      for i := 0 to NR_FILES
        invariant forall j: nat :: j < i ==> filp[..][Entry(p, j)] == Null
      {
        if filp[Entry(p, i)] != Null {
          assert filp[..][Entry(p, i)] != Null;
          return false;
        }
      }
      empty := true;
    }

    /** Any run of requests, from init_fs on: the tables are those of the abstract run, which stops
        only at a request that halts; every count is the number of entries, but for the root's pin
        and one reference for each refused unlink. */
    method Execute(events: seq<Event>, numbers: set<nat>) returns (n: nat)
      requires Valid() && numbers == live && fork == Idle && pins == multiset{ROOT_INODE}
      modifies this, inodes, fds, filp, disk.data, disk.fsbuf
      ensures InRange(old(Snapshot())) && n <= |events| && Valid()
      ensures n < |events| ==> Halts(Exec(old(Snapshot()), events[..n]), events[n])
      ensures n == |events| ==> Snapshot() == Exec(old(Snapshot()), events)
      ensures n == |events| ==> pins == multiset{ROOT_INODE} + Refused(old(Snapshot()), events)
      ensures n == |events| && fork == Idle ==>
        CountsAre(filp[..], fds[..], inodes[..], multiset{ROOT_INODE} + Refused(old(Snapshot()), events))
    {
      ghost var s := Snapshot();
      n := RunAll(events, numbers);
      if n == |events| {
        PinsAreRefusals(s, events);
        if fork == Idle {
          AllCounts(filp[..], fds[..], inodes[..], pins);
        }
      }
    }

    /** FS's main loop, up to a request that halts it. */
    method RunAll(events: seq<Event>, numbers: set<nat>) returns (n: nat)
      requires Valid() && numbers == live && fork == Idle && ROOT_INODE in pins
      modifies this, inodes, fds, filp, disk.data, disk.fsbuf
      ensures InRange(old(Snapshot())) && n <= |events| && Valid()
      ensures n < |events| ==> Halts(Exec(old(Snapshot()), events[..n]), events[n])
      ensures n == |events| ==> Snapshot() == Exec(old(Snapshot()), events)
    {
      n := 0;
      var nums, f := numbers, Idle;
      InRangeNow();
      ghost var s := Snapshot();
      while n < |events|
        invariant n <= |events| && Valid() && nums == live && f == fork && !(f.Forking? && f.done > 0)
        invariant Snapshot() == Exec(s, events[..n]) && ROOT_INODE in pins
      {
        ExecNext(s, events, n);
        var ok;
        ok, nums, f := Dispatch(events[n], nums, f);
        if !ok {
          return;
        }
        n := n + 1;
      }
      assert events[..n] == events;
    }
  }

  lemma OpenedStep(s: Snap, t: Snap, p: nat, num: nat, flags: int)
    requires Sized(s) && p < NR_SLOTS && !OpenFull(s, p) && 0 < num < |s.records| && SlotFor(s.inodes, num) < NR_INODE
    requires t == s.(inodes := Gotten(s.inodes, s.records, num), pins := s.pins + multiset{num})
    ensures Attached(t, p, SlotFor(s.inodes, num), flags).(pins := t.pins - multiset{num}) == OpenStep(s, p, num, flags)
  {
  }

  lemma CreatedStep(s: Snap, t: Snap, p: nat, num: nat, start: u32, flags: int)
    requires Sized(s) && p < NR_SLOTS && !OpenFull(s, p) && 0 < num < |s.records| && SlotFor(s.inodes, num) < NR_INODE
    requires t == s.(inodes := s.inodes[SlotFor(s.inodes, num) := Inode(NewRecord(start), 1, num)], pins := s.pins + multiset{num},
                     records := s.records[num := NewRecord(start)], live := s.live + {num})
    ensures Attached(t, p, SlotFor(s.inodes, num), flags).(pins := t.pins - multiset{num}) == CreateStep(s, p, num, start, flags)
  {
  }

  lemma ReachedNow(y: Inode, pos: u32)
    requires pos > y.rec.size
    ensures Reached(y, pos) == Inode(y.rec.(size := pos), y.cnt, y.num)
  {
  }

  lemma ReachedAlready(inodes: seq<Inode>, records: seq<Record>, s: nat, pos: u32)
    requires s < |inodes| && !(pos > inodes[s].rec.size) && inodes[s].num < |records| && records[inodes[s].num] == inodes[s].rec
    ensures var y := Reached(inodes[s], pos); inodes == inodes[s := y] && records == records[y.num := y.rec]
  {
    assert Reached(inodes[s], pos) == inodes[s];
  }

  lemma CountedNext(s: Snap, p: nat, i: nat, f: Fork, g: Fork)
    requires Sized(s) && p < NR_SLOTS && i < NR_FILES
    ensures ShareEntry(Counted(s, p, i).(fork := f), Entry(p, i)).(fork := g) == Counted(s, p, i + 1).(fork := g)
  {
  }

  /** No step leaves a fork half counted. */
  lemma NotHalfway(s: Snap, e: Event)
    requires InRange(s) && !(s.fork.Forking? && s.fork.done > 0)
    ensures var f := Step(s, e).fork; !(f.Forking? && f.done > 0)
  {
  }

  /** What do_open returns, in the order of its checks. */
  ghost function OpenOutcome(s: Snap, p: nat, num: nat, existing: bool): OpenResult
    requires Sized(s) && p < NR_SLOTS
  {
    if FreeEntry(s.filp, p, 0) == NR_FILES then FilpFull
    else if FreeDesc(s.fds, 0) == NR_FILE_DESC then DescTableFull
    else if existing && num == 0 then Failed
    else if SlotFor(s.inodes, num) == NR_INODE then CacheFull
    else Fd(FreeEntry(s.filp, p, 0))
  }

  /** The outcomes in terms of the tables. */
  lemma OutcomeInFields(s: Snap, p: nat, num: nat, existing: bool)
    requires Sized(s) && p < NR_SLOTS
    ensures var r := OpenOutcome(s, p, num, existing);
      && (r == FilpFull <==> EntriesFull(s, p)) && (r == DescTableFull <==> !EntriesFull(s, p) && DescsFull(s))
      && (r == Failed <==> !EntriesFull(s, p) && !DescsFull(s) && existing && num == 0)
      && (r == CacheFull <==> !EntriesFull(s, p) && !DescsFull(s) && !(existing && num == 0) && NoInodeSlot(s, num))
      && (r.Fd? ==> r.fd < 64 && s.filp[Entry(p, r.fd)] == Null && forall j: nat :: j < r.fd ==> s.filp[Entry(p, j)] != Null)
  {
    SlotForFull(s.inodes, num);
  }

  /** `fd_cnt` and `i_cnt` are the numbers of `filp` entries on the descriptor and leading to the
      inode, the latter plus `extra`. */
  ghost predicate CountsAre(filp: seq<Ref>, fds: seq<FileDesc>, inodes: seq<Inode>, extra: multiset<nat>) {
    && (forall f: nat :: f < |fds| ==> fds[f].cnt == multiset(filp)[Slot(f)])
    && (forall s: nat :: s < |inodes| && inodes[s].cnt > 0 ==> inodes[s].cnt == multiset(Targets(filp, fds))[Slot(s)] + extra[inodes[s].num])
    && (forall s: nat :: s < |inodes| && inodes[s].cnt == 0 ==> Slot(s) !in Targets(filp, fds))
  }

  lemma AllCounts(filp: seq<Ref>, fds: seq<FileDesc>, inodes: seq<Inode>, pins: multiset<nat>)
    requires DescCounts(filp, fds) && InodeCounts(Targets(filp, fds), inodes, pins)
    ensures CountsAre(filp, fds, inodes, pins)
  {
    forall f: nat | f < |fds| ensures fds[f].cnt == multiset(filp)[Slot(f)] {
      assert DescExact(fds[f], multiset(filp)[Slot(f)]);
    }
    forall s: nat | s < |inodes| ensures InodeExact(inodes[s], multiset(Targets(filp, fds))[Slot(s)], pins) {
    }
  }

  /** Taking entry k off its descriptor keeps every count and the cache. */
  lemma ReleaseKeeps(counted: seq<Ref>, fds: seq<FileDesc>, inodes: seq<Inode>, pins: multiset<nat>, records: seq<Record>, live: set<nat>, k: nat, f: nat)
    requires DescCounts(counted, fds) && InodeCounts(Targets(counted, fds), inodes, pins) && Coherent(inodes, records, live)
    requires k < |counted| && counted[k] == Slot(f)
    ensures f < NR_FILE_DESC && fds[f].inode.Slot? && fds[f].inode.i < NR_INODE
    ensures var fds', inodes' := fds[f := Lowered(fds[f])], inodes[fds[f].inode.i := PutOnce(inodes[fds[f].inode.i])];
      && DescCounts(counted[k := Null], fds') && InodeCounts(Targets(counted[k := Null], fds'), inodes', pins)
      && Coherent(inodes', records, live)
  {
    assert Slot(f) in counted;
    assert DescExact(fds[f], multiset(counted)[Slot(f)]);
    var s := fds[f].inode.i;
    Disconnected(counted, fds, inodes, pins, k, f, Lowered(fds[f]), s);
    CountLowered(inodes, records, live, s);
  }

  /** Putting entry k on a descriptor in use keeps every count and the cache. */
  lemma ShareKeeps(counted: seq<Ref>, fds: seq<FileDesc>, inodes: seq<Inode>, pins: multiset<nat>, records: seq<Record>, live: set<nat>, k: nat, f: nat)
    requires DescCounts(counted, fds) && InodeCounts(Targets(counted, fds), inodes, pins) && Coherent(inodes, records, live)
    requires k < |counted| && counted[k] == Null && Slot(f) in counted && f < NR_FILE_DESC
    ensures fds[f].inode.Slot? && fds[f].inode.i < NR_INODE
    ensures var fds', inodes' := fds[f := Raised(fds[f])], inodes[fds[f].inode.i := GotOnce(inodes[fds[f].inode.i])];
      && DescCounts(counted[k := Slot(f)], fds') && InodeCounts(Targets(counted[k := Slot(f)], fds'), inodes', pins)
      && Coherent(inodes', records, live)
  {
    assert DescExact(fds[f], multiset(counted)[Slot(f)]);
    var s := fds[f].inode.i;
    Shared(counted, fds, inodes, pins, k, f, s);
    SlotUpdated(inodes, records, live, s, GotOnce(inodes[s]));
  }

  /** A slot some `filp` entry leads to is live, and a descriptor some entry is on is in use: neither
      is ever taken for a free one. */
  lemma ReferencedIsLive(counted: seq<Ref>, fds: seq<FileDesc>, inodes: seq<Inode>, pins: multiset<nat>, k: nat)
    requires DescCounts(counted, fds) && InodeCounts(Targets(counted, fds), inodes, pins)
    requires k < |counted| && counted[k].Slot?
    ensures counted[k].i < NR_FILE_DESC && fds[counted[k].i].inode.Slot? && fds[counted[k].i].inode.i < NR_INODE
    ensures inodes[fds[counted[k].i].inode.i].cnt > 0
  {
    var f, t := counted[k].i, Targets(counted, fds);
    assert Slot(f) in counted && DescExact(fds[f], multiset(counted)[Slot(f)]);
    var s := fds[f].inode.i;
    assert t[k] == Slot(s) && Slot(s) in t;
    assert InodeExact(inodes[s], multiset(t)[Slot(s)], pins);
  }

  lemma SeekKeepsCounts(counted: seq<Ref>, fds: seq<FileDesc>, f: nat, y: FileDesc)
    requires DescCounts(counted, fds) && f < NR_FILE_DESC && y.inode == fds[f].inode && y.cnt == fds[f].cnt
    ensures DescCounts(counted, fds[f := y]) && Targets(counted, fds[f := y]) == Targets(counted, fds)
  {
    var after := fds[f := y];
    TargetsOfDesc(counted, fds, f, y);
    forall g: nat | g < NR_FILE_DESC ensures DescExact(after[g], multiset(counted)[Slot(g)]) {
      assert DescExact(fds[g], multiset(counted)[Slot(g)]);
    }
  }

  /** The record of `num` changed on disk and nothing else did. */
  lemma RecordStored(records: seq<Record>, d0: seq<byte>, d1: seq<byte>, sb: SuperBlock, num: nat, r: Record)
    requires OnDisk(records, d0, sb) && ValidNum(sb, num) && |d1| == |d0| && Stored(d1, sb, num) == r
    requires forall a :: 0 <= a < |d0| && !(RecordByte(sb, num) <= a < RecordByte(sb, num) + INODE_SIZE) ==> d1[a] == d0[a]
    ensures OnDisk(records[num := r], d1, sb)
  {
    forall n: nat | ValidNum(sb, n) ensures records[num := r][n] == Stored(d1, sb, n) {
      if n != num {
        RecordsApart(d0, d1, sb, num, n);
        assert records[n] == Stored(d0, sb, n);
      }
    }
  }

  lemma StoredCoherent(inodes: seq<Inode>, records: seq<Record>, live: set<nat>, s: nat, r: Record)
    requires Coherent(inodes, records, live) && s < |inodes| && inodes[s].cnt > 0
    ensures inodes[s].num < |records|
    ensures Coherent(inodes[s := inodes[s].(rec := r)], records[inodes[s].num := r], live)
  {
    assert SlotCoherent(inodes[s], records, live);
    var after, rec := inodes[s := inodes[s].(rec := r)], records[inodes[s].num := r];
    forall t: nat | t < |inodes| ensures SlotCoherent(after[t], rec, live) {
      assert SlotCoherent(inodes[t], records, live);
    }
  }

  lemma RecountRecord(targets: seq<Ref>, inodes: seq<Inode>, pins: multiset<nat>, s: nat, r: Record)
    requires InodeCounts(targets, inodes, pins) && s < NR_INODE && inodes[s].cnt > 0
    ensures InodeCounts(targets, inodes[s := inodes[s].(rec := r)], pins)
  {
    var after := inodes[s := inodes[s].(rec := r)];
    forall g: nat | g < NR_INODE ensures InodeExact(after[g], multiset(targets)[Slot(g)], pins) {
      assert InodeExact(inodes[g], multiset(targets)[Slot(g)], pins);
    }
    StillCached(inodes, s, after[s], pins);
  }

  lemma EntryChanged(counted: seq<Ref>, filp: seq<Ref>, fork: Fork, p: nat, fd: nat, x: Ref)
    requires CountsEntries(counted, filp, fork) && p < NR_SLOTS && fd < NR_FILES
    requires fork.Forking? ==> p != fork.parent && p != fork.child
    ensures CountsEntries(counted[Entry(p, fd) := x], filp[Entry(p, fd) := x], fork)
  {
  }

  lemma CopyNext(filp: seq<Ref>, parent: nat, child: nat, n: nat)
    requires |filp| == NR_SLOTS * NR_FILES && parent < NR_SLOTS && child < NR_SLOTS && n < NR_FILES && parent != child
    ensures Copied(filp, parent, child, n + 1) == Copied(filp, parent, child, n)[Entry(child, n) := filp[Entry(parent, n)]]
    ensures Copied(filp, parent, child, n)[Entry(parent, n)] == filp[Entry(parent, n)]
  {
    assert Entry(child, n) - Entry(child, 0) + Entry(parent, 0) == Entry(parent, n);
    assert !(Entry(child, 0) <= Entry(parent, n) < Entry(child, n));
    var a, b := Copied(filp, parent, child, n + 1), Copied(filp, parent, child, n)[Entry(child, n) := filp[Entry(parent, n)]];
    forall k: nat | k < |filp| ensures a[k] == b[k] {
      assert Entry(child, n + 1) == Entry(child, n) + 1;
    }
    assert a == b;
  }

  lemma ForkStarted(filp: seq<Ref>, parent: nat, child: nat)
    requires CountsEntries(filp, filp, Idle) && parent < NR_SLOTS && child < NR_SLOTS && parent != child
    requires forall i: nat :: i < NR_FILES ==> filp[Entry(child, i)] == Null
    ensures CountsEntries(filp, Copied(filp, parent, child, NR_FILES), Forking(parent, child, 0))
  {
    var after := Copied(filp, parent, child, NR_FILES);
    forall k: nat | k < |filp| ensures filp[k] == if Entry(child, 0) <= k < Entry(child, NR_FILES) then Null else after[k] {
      if Entry(child, 0) <= k < Entry(child, NR_FILES) {
        assert filp[Entry(child, k - Entry(child, 0))] == Null;
      }
    }
    forall i: nat | i < NR_FILES ensures after[Entry(child, i)] == after[Entry(parent, i)] {
      assert after[Entry(parent, i)] == filp[Entry(parent, i)];
      assert Entry(child, i) - Entry(child, 0) + Entry(parent, 0) == Entry(parent, i);
    }
  }

  lemma ChildCounted(counted: seq<Ref>, filp: seq<Ref>, fork: Fork)
    requires CountsEntries(counted, filp, fork) && fork.Forking? && fork.done < NR_FILES
    ensures var k := Entry(fork.child, fork.done);
      k < |filp| && CountsEntries(counted[k := filp[k]], filp, fork.(done := fork.done + 1))
  {
  }

  lemma NewNumber(inodes: seq<Inode>, records: seq<Record>, live: set<nat>, num: nat)
    requires Coherent(inodes, records, live) && 0 < num < |records| && num !in live
    ensures Coherent(inodes, records, live + {num}) && !Cached(inodes, num)
  {
    forall t: nat | t < |inodes| ensures SlotCoherent(inodes[t], records, live + {num}) && (inodes[t].cnt > 0 ==> inodes[t].num != num) {
      assert SlotCoherent(inodes[t], records, live);
    }
  }

  lemma OnlyHolder(inodes: seq<Inode>, s: nat, num: nat)
    requires NumsApart(inodes) && s < |inodes| && inodes[s].cnt == 1 && inodes[s].num == num
    ensures !Cached(inodes[s := inodes[s].(cnt := 0)], num)
  {
  }

  lemma NumberGone(inodes: seq<Inode>, records: seq<Record>, live: set<nat>, s: nat, num: nat)
    requires Coherent(inodes, records, live) && s < |inodes| && !Cached(inodes, num)
    ensures Coherent(inodes, records, live - {num})
  {
    forall t: nat | t < |inodes| ensures SlotCoherent(inodes[t], records, live - {num}) {
      assert SlotCoherent(inodes[t], records, live);
    }
  }

  lemma CountLowered(inodes: seq<Inode>, records: seq<Record>, live: set<nat>, s: nat)
    requires Coherent(inodes, records, live) && s < |inodes| && inodes[s].cnt > 0
    ensures Coherent(inodes[s := inodes[s].(cnt := inodes[s].cnt - 1)], records, live)
  {
    var after := inodes[s := inodes[s].(cnt := inodes[s].cnt - 1)];
    forall t: nat | t < |inodes| ensures SlotCoherent(after[t], records, live) {
      assert SlotCoherent(inodes[t], records, live);
    }
  }

  lemma SlotUpdated(inodes: seq<Inode>, records: seq<Record>, live: set<nat>, s: nat, x: Inode)
    requires Coherent(inodes, records, live) && s < |inodes| && inodes[s].cnt > 0 && x.num == inodes[s].num && x.rec == inodes[s].rec
    ensures Coherent(inodes[s := x], records, live)
  {
    var after := inodes[s := x];
    forall t: nat | t < |inodes| ensures SlotCoherent(after[t], records, live) {
      assert SlotCoherent(inodes[t], records, live);
    }
  }

  lemma NewSlotCoherent(inodes: seq<Inode>, records: seq<Record>, live: set<nat>, s: nat, x: Inode)
    requires Coherent(inodes, records, live) && s < |inodes| && SlotCoherent(x, records, live) && !Cached(inodes, x.num)
    ensures Coherent(inodes[s := x], records, live)
  {
    var after := inodes[s := x];
    forall t: nat | t < |inodes| ensures SlotCoherent(after[t], records, live) {
      assert SlotCoherent(inodes[t], records, live);
    }
    NewSlotApart(inodes, s, x);
  }

  lemma EmptyTables(counted: seq<Ref>, fds: seq<FileDesc>, inodes: seq<Inode>)
    requires |fds| == NR_FILE_DESC && |inodes| == NR_INODE
    requires forall k :: 0 <= k < |counted| ==> counted[k] == Null
    requires forall f :: 0 <= f < |fds| ==> fds[f].cnt == 0 && fds[f].inode == Null
    requires forall s :: 0 <= s < |inodes| ==> inodes[s].cnt == 0
    ensures DescCounts(counted, fds) && InodeCounts(Targets(counted, fds), inodes, multiset{})
  {
    var t := Targets(counted, fds);
    forall f: nat ensures multiset(counted)[Slot(f)] == 0 && multiset(t)[Slot(f)] == 0 {
      assert Slot(f) !in counted && Slot(f) !in t;
    }
  }

  lemma NewSlotApart(inodes: seq<Inode>, s: nat, x: Inode)
    requires s < |inodes| && NumsApart(inodes) && !Cached(inodes, x.num)
    ensures NumsApart(inodes[s := x])
  {
    forall t: nat | t < |inodes| && inodes[t].cnt > 0 ensures inodes[t].num != x.num {
    }
  }

  /** Entry fd of p is on a descriptor, with one reference, of the cached inode `num`. */
  ghost predicate Opened(filp: seq<Ref>, fds: seq<FileDesc>, inodes: seq<Inode>, p: nat, fd: nat, num: nat, flags: int) {
    && Entry(p, fd) < |filp| && filp[Entry(p, fd)].Slot? && filp[Entry(p, fd)].i < |fds|
    && var d := fds[filp[Entry(p, fd)].i];
       d.cnt == 1 && d.pos == 0 && d.mode == flags && d.inode.Slot? && d.inode.i < |inodes| && inodes[d.inode.i].cnt > 0 && inodes[d.inode.i].num == num
  }
}
