/** The inode map and the sector map together over whole runs: mkfs (fs/main.c), then creates
    (fs/open.c) and unlinks (fs/link.c) in any order. */
module FileMaps {
  import opened Disks
  import opened BitMaps
  import opened SectorMap

  const NR_DEFAULT_FILE_SECTS: nat := 2048
  const NR_CONSOLES: nat := 3
  const IMAP_BYTE: nat := 1024
  const IMAP_BITS: nat := 4096

  // ----- The inode map

  /** Changes one bit of the buffered inode-map sector and writes the sector back. */
  method PutBit(d: Disk, j: nat, k: nat, value: bool)
    requires d.Valid() && IMAP_BYTE + SECTOR_SIZE <= d.data.Length && j < SECTOR_SIZE && k < 8
    requires d.View(IMAP_BYTE, SECTOR_SIZE) == d.data[..]
    modifies d.data, d.fsbuf
    ensures Assigned(old(d.data[..]), d.data[..], IMAP_BYTE, 8 * j + k, 8 * j + k + 1, value)
  {
    ghost var d0 := d.data[..];
    var x := d.fsbuf[j];
    assert x == d0[IMAP_BYTE + j];
    var y: byte := if value then x | (1 << k) else x & !(1 << k);
    forall i: nat | i < 8 ensures Bit(y, i) == if k <= i < k + 1 then value else MapBit(d0, IMAP_BYTE, j, i) {
      SetBit(x, k, i);
      ClearBit(x, k, i);
    }
    AssignByte(d0, IMAP_BYTE, j, y, k, k + 1, value);
    d.Poke(j, y, IMAP_BYTE, SECTOR_SIZE);
    d.Write(IMAP_BYTE, SECTOR_SIZE);
  }

  ghost predicate ImapFull(d: seq<byte>) {
    AllBits(d, IMAP_BYTE, 0, IMAP_BITS, true)
  }

  /** The first clear bit of the inode map, which gets set, or 0 with nothing changed when the one
      map sector is full: the panic after the loop is never reached. */
  method AllocImapBit(d: Disk) returns (nr: nat)
    requires d.Valid() && IMAP_BYTE + SECTOR_SIZE <= d.data.Length
    modifies d.data, d.fsbuf
    ensures if ImapFull(old(d.data[..])) then nr == 0 && d.data[..] == old(d.data[..])
      else
        && FirstClear(old(d.data[..]), IMAP_BYTE, IMAP_BITS, nr)
        && Assigned(old(d.data[..]), d.data[..], IMAP_BYTE, nr, nr + 1, true)
  {
    ghost var d0 := d.data[..];
    d.Read(IMAP_BYTE, SECTOR_SIZE);
    for j := 0 to SECTOR_SIZE
      invariant AllBits(d0, IMAP_BYTE, 0, 8 * j, true) && d.data[..] == d0 && d.View(IMAP_BYTE, SECTOR_SIZE) == d0
    {
      var x := d.fsbuf[j];
      assert x == d0[IMAP_BYTE + j];
      if x == 0xFF {
        ByteFull(d0, IMAP_BYTE, j);
      } else {
        var k := FirstZero(x);
        StartFilling(d0, IMAP_BYTE, IMAP_BITS, 2, 1, j, k, x);
        assert !MapBit(d0, IMAP_BYTE, j, k);
        PutBit(d, j, k, true);
        return j * 8 + k;
      }
    }
    nr := 0;
  }

  /** Clears the inode's bit; the assertion that it was set is the result. */
  method FreeImapBit(d: Disk, nr: nat) returns (ok: bool)
    requires d.Valid() && IMAP_BYTE + SECTOR_SIZE <= d.data.Length && nr < IMAP_BITS
    modifies d.data, d.fsbuf
    ensures ok <==> MapBit(old(d.data[..]), IMAP_BYTE, nr / 8, nr % 8)
    ensures ok ==> Assigned(old(d.data[..]), d.data[..], IMAP_BYTE, nr, nr + 1, false)
  {
    var byteIdx, bitIdx := nr / 8, nr % 8;
    d.Read(IMAP_BYTE, SECTOR_SIZE);
    assert d.fsbuf[byteIdx] == d.data[IMAP_BYTE + byteIdx];
    ok := Bit(d.fsbuf[byteIdx], bitIdx);
    if ok {
      PutBit(d, byteIdx, bitIdx, false);
    }
  }

  // ----- The run invariant

  /** Whole extents of 2048 bits that fit in the sector map after its reserved bit 0. */
  function Extents(sb: SuperBlock): nat {
    if sb.nrSmapSects == 0 then 0 else 2 * sb.nrSmapSects - 1
  }

  predicate Used(files: map<nat, nat>, e: nat) {
    e == 0 || exists k :: k in files && files[k] == e
  }

  /** Files are numbered 5..4095 and own distinct extents other than 0, which holds `/`. */
  ghost predicate FilesApart(sb: SuperBlock, files: map<nat, nat>) {
    && (forall k :: k in files ==> NR_CONSOLES + 2 <= k < IMAP_BITS && 0 < files[k] < Extents(sb))
    && (forall k, l :: k in files && l in files && k != l ==> files[k] != files[l])
  }

  ghost predicate ImapInv(d: seq<byte>, files: map<nat, nat>) {
    IMAP_BYTE + SECTOR_SIZE <= |d| && forall t: nat, j: nat :: t < SECTOR_SIZE && j < 8 ==>
      MapBit(d, IMAP_BYTE, t, j) == (8 * t + j < NR_CONSOLES + 2 || 8 * t + j in files)
  }

  ghost predicate SmapInv(d: seq<byte>, sb: SuperBlock, files: map<nat, nat>) {
    sb.InodeSect() * SECTOR_SIZE <= |d| && forall t: nat, j: nat :: t < sb.nrSmapSects * SECTOR_SIZE && j < 8 ==>
      MapBit(d, sb.SmapByte(), t, j) == (8 * t + j == 0 || Used(files, (8 * t + j - 1) / 2048))
  }

  /** Exactly the bits of the live inodes and of their extents are set. */
  ghost predicate MapInv(d: seq<byte>, sb: SuperBlock, files: map<nat, nat>) {
    && sb.nrImapSects == 1 && sb.nrSmapSects > 0 && (sb.InodeSect() + 1) * SECTOR_SIZE <= |d|
    && FilesApart(sb, files) && ImapInv(d, files) && SmapInv(d, sb, files)
  }

  /** First data sector of extent e. */
  function StartSect(sb: SuperBlock, e: nat): nat {
    sb.FirstSect() + 2048 * e
  }

  /** No sector belongs to two files, or to a file and the root directory. */
  lemma NoSharedSector(sb: SuperBlock, files: map<nat, nat>, k: nat, l: nat, s: nat)
    requires FilesApart(sb, files) && k in files && l in files && k != l
    requires StartSect(sb, files[k]) <= s < StartSect(sb, files[k]) + NR_DEFAULT_FILE_SECTS
    ensures !(StartSect(sb, files[l]) <= s < StartSect(sb, files[l]) + NR_DEFAULT_FILE_SECTS)
    ensures !(StartSect(sb, 0) <= s < StartSect(sb, 0) + NR_DEFAULT_FILE_SECTS)
  {
    assert files[k] != files[l];
  }

  /** With every extent below e used and e free, the first clear bit is the first of extent e, and
      the whole extent is clear. */
  lemma FirstExtent(d: seq<byte>, sb: SuperBlock, files: map<nat, nat>, e: nat)
    requires SmapInv(d, sb, files) && e < Extents(sb) && !Used(files, e)
    requires forall g: nat :: g < e ==> Used(files, g)
    ensures RoomAt(d, sb.SmapByte(), sb.SmapBits(), 1 + 2048 * e, NR_DEFAULT_FILE_SECTS)
  {
    var m, f := sb.SmapByte(), 1 + 2048 * e;
    assert f / 8 == 256 * e && f % 8 == 1;
    assert !MapBit(d, m, 256 * e, 1) by { assert (8 * (256 * e) + 1 - 1) / 2048 == e; }
    forall t: nat, j: nat | m + t < |d| && j < 8 && 8 * t + j < f ensures MapBit(d, m, t, j) {
      assert 8 * t + j > 0 ==> (8 * t + j - 1) / 2048 < e;
    }
    forall t: nat, j: nat | m + t < |d| && j < 8 && f <= 8 * t + j < f + 2048 ensures !MapBit(d, m, t, j) {
      assert (8 * t + j - 1) / 2048 == e;
    }
  }

  /** With every whole extent used the allocator finds no room. */
  lemma NoRoomInSmap(d: seq<byte>, sb: SuperBlock, files: map<nat, nat>, g: nat)
    requires SmapInv(d, sb, files) && forall e: nat :: e < Extents(sb) ==> Used(files, e)
    ensures !RoomAt(d, sb.SmapByte(), sb.SmapBits(), g, NR_DEFAULT_FILE_SECTS)
  {
    if FirstClear(d, sb.SmapByte(), sb.SmapBits(), g) {
      assert 8 * (g / 8) + g % 8 == g;
      assert !MapBit(d, sb.SmapByte(), g / 8, g % 8);
      assert g > 0 && !Used(files, (g - 1) / 2048);
    }
  }

  lemma FirstFreeInode(d: seq<byte>, files: map<nat, nat>, nr: nat)
    requires ImapInv(d, files) && FirstClear(d, IMAP_BYTE, IMAP_BITS, nr)
    ensures NR_CONSOLES + 2 <= nr && nr !in files
    ensures forall k: nat :: NR_CONSOLES + 2 <= k < nr ==> k in files
  {
    assert 8 * (nr / 8) + nr % 8 == nr;
    forall k: nat | NR_CONSOLES + 2 <= k < nr ensures k in files {
      assert MapBit(d, IMAP_BYTE, k / 8, k % 8);
    }
  }

  // ----- How the two maps change

  lemma ImapUntouched(d: seq<byte>, e: seq<byte>, m: nat, lo: nat, hi: nat, value: bool, files: map<nat, nat>)
    requires ImapInv(d, files) && Assigned(d, e, m, lo, hi, value) && m >= IMAP_BYTE + SECTOR_SIZE
    ensures ImapInv(e, files)
  {
    forall t: nat, j: nat | t < SECTOR_SIZE && j < 8 ensures MapBit(e, IMAP_BYTE, t, j) == MapBit(d, IMAP_BYTE, t, j) {
      assert e[IMAP_BYTE + t] == d[IMAP_BYTE + t];
    }
  }

  lemma SmapUntouched(d: seq<byte>, e: seq<byte>, lo: nat, hi: nat, value: bool, sb: SuperBlock, files: map<nat, nat>)
    requires SmapInv(d, sb, files) && Assigned(d, e, IMAP_BYTE, lo, hi, value) && hi <= IMAP_BITS && sb.nrImapSects == 1
    ensures SmapInv(e, sb, files)
  {
    forall t: nat, j: nat | t < sb.nrSmapSects * SECTOR_SIZE && j < 8
      ensures MapBit(e, sb.SmapByte(), t, j) == MapBit(d, sb.SmapByte(), t, j)
    {
      assert MapBit(e, IMAP_BYTE, SECTOR_SIZE + t, j) == MapBit(d, IMAP_BYTE, SECTOR_SIZE + t, j);
    }
  }

  lemma ImapSet(d: seq<byte>, e: seq<byte>, files: map<nat, nat>, nr: nat, x: nat)
    requires ImapInv(d, files) && Assigned(d, e, IMAP_BYTE, nr, nr + 1, true)
    ensures ImapInv(e, files[nr := x])
  {
  }

  lemma ImapCleared(d: seq<byte>, e: seq<byte>, files: map<nat, nat>, nr: nat)
    requires ImapInv(d, files) && Assigned(d, e, IMAP_BYTE, nr, nr + 1, false) && nr >= NR_CONSOLES + 2
    ensures ImapInv(e, files - {nr})
  {
  }

  lemma SmapSet(d: seq<byte>, e: seq<byte>, sb: SuperBlock, files: map<nat, nat>, nr: nat, x: nat)
    requires SmapInv(d, sb, files) && Assigned(d, e, sb.SmapByte(), 1 + 2048 * x, 1 + 2048 * x + 2048, true) && nr !in files
    ensures SmapInv(e, sb, files[nr := x])
  {
    var after := files[nr := x];
    forall g: nat ensures Used(after, g) <==> Used(files, g) || g == x {
      if Used(files, g) && g > 0 {
        var k :| k in files && files[k] == g;
        assert k in after && after[k] == g;
      }
      assert nr in after && after[nr] == x;
    }
  }

  lemma SmapCleared(d: seq<byte>, e: seq<byte>, sb: SuperBlock, files: map<nat, nat>, nr: nat)
    requires SmapInv(d, sb, files) && FilesApart(sb, files) && nr in files
    requires Assigned(d, e, sb.SmapByte(), 1 + 2048 * files[nr], 1 + 2048 * files[nr] + 2048, false)
    ensures SmapInv(e, sb, files - {nr})
  {
    var after := files - {nr};
    forall g: nat ensures Used(after, g) <==> Used(files, g) && g != files[nr] {
      if Used(files, g) && g != files[nr] && g > 0 {
        var k :| k in files && files[k] == g;
        assert k in after && after[k] == g;
      }
    }
  }

  lemma {:induction false} LeastFree(files: map<nat, nat>, n: nat) returns (e: nat)
    requires exists g: nat :: g < n && !Used(files, g)
    ensures e < n && !Used(files, e) && forall g: nat :: g < e ==> Used(files, g)
    decreases n
  {
    if exists g: nat :: g < n - 1 && !Used(files, g) {
      e := LeastFree(files, n - 1);
    } else {
      e := n - 1;
    }
  }

  // ----- What the maps leave alone

  /** Bytes before and after the two maps are the same. */
  ghost predicate SameOutside(d: seq<byte>, e: seq<byte>, sb: SuperBlock) {
    |e| == |d| && forall a: nat :: a < |d| && (a < IMAP_BYTE || a >= sb.InodeSect() * SECTOR_SIZE) ==> e[a] == d[a]
  }

  lemma ImapFrame(d: seq<byte>, e: seq<byte>, sb: SuperBlock, nr: nat, value: bool)
    requires Assigned(d, e, IMAP_BYTE, nr, nr + 1, value) && nr < IMAP_BITS && sb.nrImapSects == 1
    ensures SameOutside(d, e, sb)
  {
    forall a: nat | a < |d| && a >= sb.InodeSect() * SECTOR_SIZE ensures e[a] == d[a] {
      AssignedFrame(d, e, IMAP_BYTE, nr, nr + 1, value, a);
    }
  }

  lemma SmapFrame(d: seq<byte>, e: seq<byte>, sb: SuperBlock, lo: nat, hi: nat, value: bool)
    requires Assigned(d, e, sb.SmapByte(), lo, hi, value) && hi <= sb.SmapBits()
    ensures SameOutside(d, e, sb)
  {
    forall a: nat | a < |d| && a >= sb.InodeSect() * SECTOR_SIZE ensures e[a] == d[a] {
      AssignedFrame(d, e, sb.SmapByte(), lo, hi, value, a);
    }
  }

  // ----- Create, unlink, and runs of them

  datatype CreateResult = Created(inode: nat, start: nat) | NoInode | NoSectors

  ghost predicate InodesUsedUp(files: map<nat, nat>) {
    forall k: nat :: NR_CONSOLES + 2 <= k < IMAP_BITS ==> k in files
  }

  ghost predicate ExtentsUsedUp(sb: SuperBlock, files: map<nat, nat>) {
    forall e: nat :: e < Extents(sb) ==> Used(files, e)
  }

  lemma ImapFullMeans(d: seq<byte>, files: map<nat, nat>)
    requires ImapInv(d, files)
    ensures ImapFull(d) <==> InodesUsedUp(files)
  {
    if ImapFull(d) {
      forall k: nat | NR_CONSOLES + 2 <= k < IMAP_BITS ensures k in files {
        assert MapBit(d, IMAP_BYTE, k / 8, k % 8);
      }
    }
  }

  method AllocInode(d: Disk, sb: SuperBlock, ghost files: map<nat, nat>) returns (inode: nat)
    requires d.Valid() && sb.nrImapSects == 1 && ImapInv(d.data[..], files) && SmapInv(d.data[..], sb, files)
    modifies d.data, d.fsbuf
    ensures inode == 0 <==> InodesUsedUp(files)
    ensures inode != 0 ==>
      && NR_CONSOLES + 2 <= inode < IMAP_BITS && inode !in files
      && (forall k: nat :: NR_CONSOLES + 2 <= k < inode ==> k in files)
      && ImapInv(d.data[..], files[inode := 0]) && SmapInv(d.data[..], sb, files)
    ensures SameOutside(old(d.data[..]), d.data[..], sb)
  {
    ghost var d0 := d.data[..];
    ImapFullMeans(d0, files);
    assert MapBit(d0, IMAP_BYTE, 0, 0);
    inode := AllocImapBit(d);
    if inode != 0 {
      FirstFreeInode(d0, files, inode);
      SmapUntouched(d0, d.data[..], inode, inode + 1, true, sb, files);
      ImapSet(d0, d.data[..], files, inode, 0);
      ImapFrame(d0, d.data[..], sb, inode, true);
    }
  }

  /** The allocator's assertions hold exactly while a whole extent is free; it takes the lowest. */
  method AllocExtent(d: Disk, sb: SuperBlock, ghost files: map<nat, nat>, ghost live: map<nat, nat>)
    returns (a: Allocation, ghost e: nat)
    requires d.Valid() && sb.nrImapSects == 1 && ImapInv(d.data[..], live) && SmapInv(d.data[..], sb, files)
    modifies d.data, d.fsbuf
    ensures a.AssertionFailure? <==> ExtentsUsedUp(sb, files)
    ensures a.Sector? ==>
      && e < Extents(sb) && !Used(files, e) && (forall g: nat :: g < e ==> Used(files, g)) && a.nr == StartSect(sb, e)
      && ImapInv(d.data[..], live) && forall k: nat :: k !in files ==> SmapInv(d.data[..], sb, files[k := e])
    ensures a.Sector? ==> SameOutside(old(d.data[..]), d.data[..], sb)
  {
    ghost var d0, f := d.data[..], 0;
    e := 0;
    if !ExtentsUsedUp(sb, files) {
      e := LeastFree(files, Extents(sb));
      FirstExtent(d0, sb, files, e);
    }
    a, f := AllocSmapBit(d, sb, NR_DEFAULT_FILE_SECTS);
    if a.Sector? {
      if ExtentsUsedUp(sb, files) {
        NoRoomInSmap(d0, sb, files, f);
      }
      FirstClearUnique(d0, sb.SmapByte(), sb.SmapBits(), f, 1 + 2048 * e);
      ImapUntouched(d0, d.data[..], sb.SmapByte(), f, f + 2048, true, live);
      SmapFrame(d0, d.data[..], sb, f, f + 2048, true);
      forall k: nat | k !in files ensures SmapInv(d.data[..], sb, files[k := e]) {
        SmapSet(d0, d.data[..], sb, files, k, e);
      }
    }
  }

  /** The map work of create_file: the lowest free inode and the lowest free extent, when both
      exist. */
  method CreateMaps(d: Disk, sb: SuperBlock, ghost files: map<nat, nat>) returns (r: CreateResult, ghost files': map<nat, nat>)
    requires d.Valid() && MapInv(d.data[..], sb, files)
    modifies d.data, d.fsbuf
    ensures r.NoInode? <==> InodesUsedUp(files)
    ensures r.NoSectors? <==> !InodesUsedUp(files) && ExtentsUsedUp(sb, files)
    ensures r.Created? ==>
      && MapInv(d.data[..], sb, files') && r.inode !in files && r.inode in files' && files' == files[r.inode := files'[r.inode]]
      && r.start == StartSect(sb, files'[r.inode])
      && (forall k: nat :: NR_CONSOLES + 2 <= k < r.inode ==> k in files)
      && (forall e: nat :: e < files'[r.inode] ==> Used(files, e))
      && SameOutside(old(d.data[..]), d.data[..], sb)
    ensures r.Created? ==> !Stops(sb, files, Create) && files' == FileStep(sb, files, Create)
  {
    files' := files;
    var inode := AllocInode(d, sb, files);
    if inode == 0 {
      return NoInode, files;
    }
    var a;
    ghost var e;
    a, e := AllocExtent(d, sb, files, files[inode := 0]);
    if a.AssertionFailure? {
      return NoSectors, files;
    }
    files' := files[inode := e];
    FileAdded(sb, files, inode, e);
    SameKeys(d.data[..], files[inode := 0], files');
    assert LeastInode(files, NR_CONSOLES + 2) == inode && LeastExtent(sb, files, 0) == e;
    return Created(inode, a.nr), files';
  }

  lemma FileAdded(sb: SuperBlock, files: map<nat, nat>, nr: nat, e: nat)
    requires FilesApart(sb, files) && nr !in files && NR_CONSOLES + 2 <= nr < IMAP_BITS && e < Extents(sb) && !Used(files, e)
    ensures FilesApart(sb, files[nr := e])
  {
  }

  lemma SameKeys(d: seq<byte>, files: map<nat, nat>, other: map<nat, nat>)
    requires ImapInv(d, files) && files.Keys == other.Keys
    ensures ImapInv(d, other)
  {
  }

  /** The map work of do_unlink for a live file: its two assertions hold, and exactly its bits are
      cleared. */
  method UnlinkMaps(d: Disk, sb: SuperBlock, inode: nat, start: nat, ghost files: map<nat, nat>) returns (ok: bool)
    requires d.Valid() && MapInv(d.data[..], sb, files) && inode in files && start == StartSect(sb, files[inode])
    modifies d.data, d.fsbuf
    ensures ok && MapInv(d.data[..], sb, files - {inode}) && SameOutside(old(d.data[..]), d.data[..], sb)
  {
    ghost var d0, e := d.data[..], files[inode];
    assert MapBit(d0, IMAP_BYTE, inode / 8, inode % 8) by { assert 8 * (inode / 8) + inode % 8 == inode; }
    ok := FreeImapBit(d, inode);
    ghost var d1 := d.data[..];
    SmapUntouched(d0, d1, inode, inode + 1, false, sb, files);
    ImapCleared(d0, d1, files, inode);
    ExtentAllSet(d1, sb, files, inode);
    ok := FreeSmapBits(d, sb, start, NR_DEFAULT_FILE_SECTS);
    ImapUntouched(d1, d.data[..], sb.SmapByte(), 1 + 2048 * e, 1 + 2048 * e + 2048, false, files - {inode});
    SmapCleared(d1, d.data[..], sb, files, inode);
    ImapFrame(d0, d1, sb, inode, false);
    SmapFrame(d1, d.data[..], sb, 1 + 2048 * e, 1 + 2048 * e + 2048, false);
  }

  lemma ExtentAllSet(d: seq<byte>, sb: SuperBlock, files: map<nat, nat>, nr: nat)
    requires SmapInv(d, sb, files) && FilesApart(sb, files) && nr in files
    ensures AllBits(d, sb.SmapByte(), 1 + 2048 * files[nr], 1 + 2048 * files[nr] + 2048, true)
  {
    var m, e := sb.SmapByte(), files[nr];
    forall t: nat, j: nat | m + t < |d| && j < 8 && 1 + 2048 * e <= 8 * t + j < 1 + 2048 * e + 2048 ensures MapBit(d, m, t, j) {
      assert (8 * t + j - 1) / 2048 == e && Used(files, e);
    }
  }

  /** The map work of a create followed by that of an unlink of the same file leaves the whole disk
      as it was, byte for byte. */
  method CreateThenUnlink(d: Disk, sb: SuperBlock, ghost files: map<nat, nat>) returns (r: CreateResult)
    requires d.Valid() && MapInv(d.data[..], sb, files)
    modifies d.data, d.fsbuf
    ensures r.Created? <==> !InodesUsedUp(files) && !ExtentsUsedUp(sb, files)
    ensures r.Created? ==> MapInv(d.data[..], sb, files)
    ensures r.Created? ==> d.data[..] == old(d.data[..])
  {
    ghost var files', d0 := files, d.data[..];
    r, files' := CreateMaps(d, sb, files);
    if r.Created? {
      var _ := UnlinkMaps(d, sb, r.inode, r.start, files');
      assert files' - {r.inode} == files;
      SameDisk(d0, d.data[..], sb, files);
    }
  }

  lemma SameDisk(d: seq<byte>, e: seq<byte>, sb: SuperBlock, files: map<nat, nat>)
    requires MapInv(d, sb, files) && MapInv(e, sb, files) && SameOutside(d, e, sb)
    ensures e == d
  {
    SameMaps(d, e, sb, files);
    var lo, hi := IMAP_BYTE, sb.InodeSect() * SECTOR_SIZE;
    forall a: nat | a < |d| ensures e[a] == d[a] {
      if lo <= a < hi {
        assert d[lo..hi][a - lo] == e[lo..hi][a - lo];
      }
    }
  }

  /** The two maps are determined by the files. */
  lemma SameMaps(d: seq<byte>, e: seq<byte>, sb: SuperBlock, files: map<nat, nat>)
    requires MapInv(d, sb, files) && MapInv(e, sb, files) && |d| == |e|
    ensures d[IMAP_BYTE..sb.InodeSect() * SECTOR_SIZE] == e[IMAP_BYTE..sb.InodeSect() * SECTOR_SIZE]
  {
    forall a: nat | IMAP_BYTE <= a < sb.InodeSect() * SECTOR_SIZE ensures d[a] == e[a] {
      forall j: nat | j < 8 ensures Bit(d[a], j) == Bit(e[a], j) {
        if a < IMAP_BYTE + SECTOR_SIZE {
          assert MapBit(d, IMAP_BYTE, a - IMAP_BYTE, j) == MapBit(e, IMAP_BYTE, a - IMAP_BYTE, j);
        } else {
          assert MapBit(d, sb.SmapByte(), a - sb.SmapByte(), j) == MapBit(e, sb.SmapByte(), a - sb.SmapByte(), j);
        }
      }
      SameBits(d[a], e[a]);
    }
  }

  // ----- mkfs and whole runs

  /** The layout mkfs computes from the size of the partition in sectors. */
  function MakeSuper(nrSects: nat): (sb: SuperBlock)
    ensures sb.nrImapSects == 1 && sb.nrSmapSects > 0 && sb.nrInodeSects == 256
    ensures sb.SmapBits() > nrSects
  {
    SuperBlock(1, nrSects / 4096 + 1, 4096 * 32 / SECTOR_SIZE)
  }

  method ZeroBuffer(d: Disk)
    requires d.Valid()
    modifies d.fsbuf
    ensures forall i :: 0 <= i < SECTOR_SIZE ==> d.fsbuf[i] == 0
  {
    forall i | 0 <= i < SECTOR_SIZE {
      d.fsbuf[i] := 0;
    }
  }

  method MkfsImap(d: Disk)
    requires d.Valid() && IMAP_BYTE + SECTOR_SIZE <= d.data.Length
    modifies d.data, d.fsbuf
    ensures ImapInv(d.data[..], map[])
  {
    ZeroBuffer(d);
    for i := 0 to NR_CONSOLES + 2
      invariant forall a :: 1 <= a < SECTOR_SIZE ==> d.fsbuf[a] == 0
      invariant forall j: nat :: j < 8 ==> Bit(d.fsbuf[0], j) == (j < i)
    {
      var x := d.fsbuf[0];
      var y: byte := x | (1 << i);
      forall j: nat | j < 8 ensures Bit(y, j) == (j == i || Bit(x, j)) { SetBit(x, i, j); }
      d.fsbuf[0] := y;
    }
    ghost var v := d.View(IMAP_BYTE, SECTOR_SIZE);
    forall t: nat, j: nat | t < SECTOR_SIZE && j < 8 ensures MapBit(v, IMAP_BYTE, t, j) == (8 * t + j < NR_CONSOLES + 2) {
      assert v[IMAP_BYTE + t] == d.fsbuf[t];
      ZeroByte(j);
    }
    d.Write(IMAP_BYTE, SECTOR_SIZE);
  }

  /** The buffer mkfs writes as the first sector of the sector map: 2049 bits set. */
  method FillFirstSmapSector(d: Disk)
    requires d.Valid()
    modifies d.fsbuf
    ensures forall t: nat, j: nat :: t < SECTOR_SIZE && j < 8 ==> Bit(d.fsbuf[t], j) == (8 * t + j < NR_DEFAULT_FILE_SECTS + 1)
  {
    ZeroBuffer(d);
    var nr := NR_DEFAULT_FILE_SECTS + 1;
    var i := 0;
    while i < nr / 8
      invariant i <= 256
      invariant forall a :: 0 <= a < SECTOR_SIZE ==> d.fsbuf[a] == if a < i then 0xFF else 0
    {
      d.fsbuf[i] := 0xFF;
      i := i + 1;
    }
    for j := 0 to nr % 8
      invariant forall a :: 0 <= a < SECTOR_SIZE && a != i ==> d.fsbuf[a] == if a < i then 0xFF else 0
      invariant d.fsbuf[i] == if j == 0 then 0 else 1
    {
      d.fsbuf[i] := d.fsbuf[i] | (1 << j);
    }
    FullByte(0xFF);
    forall t: nat, j: nat | t < SECTOR_SIZE && j < 8 ensures Bit(d.fsbuf[t], j) == (8 * t + j < nr) {
      ZeroByte(j);
      if t == 256 { assert Bit(1, j) == (j == 0); }
    }
  }

  /** Zeroes `count` sectors from byte `from` on. */
  method ZeroSectors(d: Disk, from: nat, count: nat)
    requires d.Valid() && from + count * SECTOR_SIZE <= d.data.Length
    modifies d.data, d.fsbuf
    ensures forall a :: 0 <= a < d.data.Length ==>
      d.data[a] == if from <= a < from + count * SECTOR_SIZE then 0 else old(d.data[a])
  {
    ZeroBuffer(d);
    for i := 0 to count
      invariant forall a :: 0 <= a < SECTOR_SIZE ==> d.fsbuf[a] == 0
      invariant forall a :: 0 <= a < d.data.Length ==>
        d.data[a] == if from <= a < from + i * SECTOR_SIZE then 0 else old(d.data[a])
    {
      ghost var v := d.View(from + i * SECTOR_SIZE, SECTOR_SIZE);
      d.Write(from + i * SECTOR_SIZE, SECTOR_SIZE);
      assert forall a :: 0 <= a < d.data.Length ==> d.data[a] == d.data[..][a];
    }
  }

  method MkfsSmap(d: Disk, sb: SuperBlock)
    requires d.Valid() && sb.nrImapSects == 1 && sb.nrSmapSects > 0 && sb.InodeSect() * SECTOR_SIZE <= d.data.Length
    requires ImapInv(d.data[..], map[])
    modifies d.data, d.fsbuf
    ensures ImapInv(d.data[..], map[]) && SmapInv(d.data[..], sb, map[])
  {
    var m := sb.SmapByte();
    FillFirstSmapSector(d);
    ghost var d0, buf := d.data[..], d.fsbuf[..SECTOR_SIZE];
    d.Write(m, SECTOR_SIZE);
    ghost var d1 := d.data[..];
    ZeroSectors(d, m + SECTOR_SIZE, sb.nrSmapSects - 1);
    FreshMaps(d0, buf, d1, d.data[..], sb);
  }

  lemma FreshMaps(d0: seq<byte>, buf: seq<byte>, d1: seq<byte>, d2: seq<byte>, sb: SuperBlock)
    requires sb.nrImapSects == 1 && sb.nrSmapSects > 0 && sb.InodeSect() * SECTOR_SIZE <= |d0| == |d2| && |buf| == SECTOR_SIZE
    requires ImapInv(d0, map[]) && d1 == d0[..sb.SmapByte()] + buf + d0[sb.SmapByte() + SECTOR_SIZE..]
    requires forall a :: 0 <= a < |d2| ==>
      d2[a] == if sb.SmapByte() + SECTOR_SIZE <= a < sb.InodeSect() * SECTOR_SIZE then 0 else d1[a]
    requires forall t: nat, j: nat :: t < SECTOR_SIZE && j < 8 ==> Bit(buf[t], j) == (8 * t + j < NR_DEFAULT_FILE_SECTS + 1)
    ensures ImapInv(d2, map[]) && SmapInv(d2, sb, map[])
  {
    var m := sb.SmapByte();
    forall t: nat, j: nat | t < sb.nrSmapSects * SECTOR_SIZE && j < 8
      ensures MapBit(d2, m, t, j) == (8 * t + j == 0 || Used(map[], (8 * t + j - 1) / 2048))
    {
      ZeroByte(j);
      assert t < SECTOR_SIZE ==> d2[m + t] == buf[t];
    }
    forall t: nat, j: nat | t < SECTOR_SIZE && j < 8 ensures MapBit(d2, IMAP_BYTE, t, j) == MapBit(d0, IMAP_BYTE, t, j) {
      assert d2[IMAP_BYTE + t] == d0[IMAP_BYTE + t];
    }
  }

  /** The layout in sectors: boot block, super block, inode map, sector map, 256 sectors of inodes, and the
      data from there on. */
  lemma DiskLayout(nrSects: nat)
    ensures var sb := MakeSuper(nrSects);
      && IMAP_BYTE == 2 * 512 && sb.SmapSect() == 3 && sb.SmapByte() == 3 * 512 && sb.nrSmapSects == nrSects / 4096 + 1
      && sb.InodeSect() == 3 + sb.nrSmapSects && sb.FirstSect() == sb.InodeSect() + 256 && sb.SmapBits() == 4096 * sb.nrSmapSects
  {
  }

  /** The map has bits for sectors past the end of the partition, and the allocator does not look:
      every extent it can hand out lies inside the partition only for these sizes. */
  lemma ExtentsInsidePartition(n: nat)
    ensures (forall e: nat :: e < Extents(MakeSuper(n)) ==> StartSect(MakeSuper(n), e) + NR_DEFAULT_FILE_SECTS <= n)
        <==> n % 4096 >= 2308 + n / 4096
  {
    var sb := MakeSuper(n);
    var last := Extents(sb) - 1;
    assert StartSect(sb, last) + NR_DEFAULT_FILE_SECTS == 4096 * (n / 4096) + 2308 + n / 4096;
    forall e: nat | e < Extents(sb) ensures StartSect(sb, e) <= StartSect(sb, last) {
    }
  }

  datatype MapOp = Create | Unlink(inode: nat)

  /** The least inode number from k on that no file has; IMAP_BITS if there is none. */
  function LeastInode(files: map<nat, nat>, k: nat): (r: nat)
    requires k <= IMAP_BITS
    ensures k <= r <= IMAP_BITS && (r < IMAP_BITS ==> r !in files)
    ensures forall j: nat :: k <= j < r ==> j in files
    decreases IMAP_BITS - k
  {
    if k == IMAP_BITS || k !in files then k else LeastInode(files, k + 1)
  }

  /** The least extent from e on that is not used; Extents(sb) if there is none. */
  ghost function LeastExtent(sb: SuperBlock, files: map<nat, nat>, e: nat): (r: nat)
    requires e <= Extents(sb)
    ensures e <= r <= Extents(sb) && (r < Extents(sb) ==> !Used(files, r))
    ensures forall g: nat :: e <= g < r ==> Used(files, g)
    decreases Extents(sb) - e
  {
    if e == Extents(sb) || !Used(files, e) then e else LeastExtent(sb, files, e + 1)
  }

  /** A create with no inode or no whole extent left, or an unlink of a file that is not there. */
  ghost predicate Stops(sb: SuperBlock, files: map<nat, nat>, op: MapOp) {
    match op
    case Create => InodesUsedUp(files) || ExtentsUsedUp(sb, files)
    case Unlink(k) => k !in files
  }

  /** The files and their extents after one operation. */
  ghost function FileStep(sb: SuperBlock, files: map<nat, nat>, op: MapOp): map<nat, nat> {
    if Stops(sb, files, op) then files else
    match op
    case Create => files[LeastInode(files, NR_CONSOLES + 2) := LeastExtent(sb, files, 0)]
    case Unlink(k) => files - {k}
  }

  ghost function FilesAfter(sb: SuperBlock, ops: seq<MapOp>): map<nat, nat> {
    if ops == [] then map[] else FileStep(sb, FilesAfter(sb, ops[..|ops| - 1]), ops[|ops| - 1])
  }

  /** Where each file starts, as its inode says. */
  ghost predicate StartsMatch(sb: SuperBlock, files: map<nat, nat>, starts: map<nat, nat>) {
    starts.Keys == files.Keys && forall k :: k in files ==> starts[k] == StartSect(sb, files[k])
  }

  /** The map work of one create or unlink. */
  method StepMaps(d: Disk, sb: SuperBlock, op: MapOp, starts: map<nat, nat>, ghost files: map<nat, nat>)
    returns (ok: bool, starts': map<nat, nat>)
    requires d.Valid() && MapInv(d.data[..], sb, files) && StartsMatch(sb, files, starts)
    modifies d.data, d.fsbuf
    ensures ok <==> !Stops(sb, files, op)
    ensures ok || op.Unlink? ==> MapInv(d.data[..], sb, FileStep(sb, files, op))
    ensures ok ==> StartsMatch(sb, FileStep(sb, files, op), starts')
  {
    starts' := starts;
    match op
    case Create =>
      var r;
      ghost var after;
      r, after := CreateMaps(d, sb, files);
      ok := r.Created?;
      if ok {
        starts' := starts[r.inode := r.start];
      }
    case Unlink(k) =>
      ok := k in starts;
      if ok {
        var done := UnlinkMaps(d, sb, k, starts[k], files);
        assert done;
        starts' := starts - {k};
      }
  }

  /** The map part of mkfs. */
  method MkfsMaps(d: Disk, sb: SuperBlock)
    requires d.Valid() && sb.nrImapSects == 1 && sb.nrSmapSects > 0 && (sb.InodeSect() + 1) * SECTOR_SIZE <= d.data.Length
    modifies d.data, d.fsbuf
    ensures MapInv(d.data[..], sb, map[])
  {
    MkfsImap(d);
    MkfsSmap(d, sb);
  }

  /** Operation i of the run is carried out. */
  ghost predicate GoesOn(sb: SuperBlock, ops: seq<MapOp>, i: nat)
    requires i < |ops|
  {
    !Stops(sb, FilesAfter(sb, ops[..i]), ops[i])
  }

  lemma FilesNext(sb: SuperBlock, ops: seq<MapOp>, n: nat)
    requires n < |ops|
    ensures FilesAfter(sb, ops[..n + 1]) == FileStep(sb, FilesAfter(sb, ops[..n]), ops[n])
  {
    assert ops[..n + 1][..n] == ops[..n];
  }

  /** mkfs, then any creates and unlinks: the maps are those of the files after the run, which stops
      exactly at a create with no inode or no whole extent left, or an unlink of a file that is not
      there. */
  method RunMaps(d: Disk, nrSects: nat, ops: seq<MapOp>) returns (n: nat, ghost files: map<nat, nat>)
    requires d.Valid() && (MakeSuper(nrSects).InodeSect() + 1) * SECTOR_SIZE <= d.data.Length
    modifies d.data, d.fsbuf
    ensures n <= |ops| && files == FilesAfter(MakeSuper(nrSects), ops[..n])
    ensures forall i: nat :: i < n ==> GoesOn(MakeSuper(nrSects), ops, i)
    ensures n < |ops| ==> Stops(MakeSuper(nrSects), files, ops[n])
    ensures n == |ops| || ops[n].Unlink? ==> MapInv(d.data[..], MakeSuper(nrSects), files)
  {
    var sb := MakeSuper(nrSects);
    MkfsMaps(d, sb);
    files := map[];
    var starts: map<nat, nat> := map[];
    n := 0;
    while n < |ops|
      invariant n <= |ops| && MapInv(d.data[..], sb, files) && files == FilesAfter(sb, ops[..n]) && StartsMatch(sb, files, starts)
      invariant forall i: nat {:trigger GoesOn(sb, ops, i)} :: i < n ==> GoesOn(sb, ops, i)
    {
      FilesNext(sb, ops, n);
      var ok;
      ok, starts := StepMaps(d, sb, ops[n], starts, files);
      if !ok {
        return;
      }
      files := FileStep(sb, files, ops[n]);
      n := n + 1;
    }
  }
}
