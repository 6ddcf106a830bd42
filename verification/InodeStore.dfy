/** Inode records on the disk (fs/main.c, sync_inode and the disk half of get_inode): 32 bytes each,
    four little-endian words of which are used. */
module InodeStore {
  import opened Disks
  import opened SectorMap

  const INODE_SIZE: nat := 32
  const NR_INODES: nat := 4096

  type u32 = bv32

  datatype Record = Record(mode: u32, size: u32, start: u32, nrSects: u32)

  const NO_RECORD := Record(0, 0, 0, 0)

  /** Byte i of v, lowest first. */
  function ByteOf(v: u32, i: nat): byte
    requires i < 4
  {
    (if i == 0 then v & 0xFF else if i == 1 then (v >> 8) & 0xFF else if i == 2 then (v >> 16) & 0xFF else v >> 24) as byte
  }

  function Word(d: seq<byte>, a: nat): u32
    requires a + 4 <= |d|
  {
    Join(d[a], d[a + 1], d[a + 2], d[a + 3])
  }

  function Join(b0: byte, b1: byte, b2: byte, b3: byte): u32 {
    (b0 as u32) | ((b1 as u32) << 8) | ((b2 as u32) << 16) | ((b3 as u32) << 24)
  }

  lemma JoinOfBytes(v: u32)
    ensures Join(ByteOf(v, 0), ByteOf(v, 1), ByteOf(v, 2), ByteOf(v, 3)) == v
  {
  }

  lemma ByteOfShifts(v: u32)
    ensures ByteOf(v, 0) == (v & 0xFF) as byte && ByteOf(v, 1) == ((v >> 8) & 0xFF) as byte
    ensures ByteOf(v, 2) == ((v >> 16) & 0xFF) as byte && ByteOf(v, 3) == ((v >> 24) & 0xFF) as byte
  {
  }

  lemma BytesOfJoin(b0: byte, b1: byte, b2: byte, b3: byte)
    ensures var w := Join(b0, b1, b2, b3); ByteOf(w, 0) == b0 && ByteOf(w, 1) == b1 && ByteOf(w, 2) == b2 && ByteOf(w, 3) == b3
  {
  }

  /** The four bytes from a on are those of w, lowest first. */
  ghost predicate BytesOf(d: seq<byte>, a: nat, w: u32)
    requires a + 4 <= |d|
  {
    d[a] == ByteOf(w, 0) && d[a + 1] == ByteOf(w, 1) && d[a + 2] == ByteOf(w, 2) && d[a + 3] == ByteOf(w, 3)
  }

  lemma WordBytes(d: seq<byte>, a: nat)
    requires a + 4 <= |d|
    ensures BytesOf(d, a, Word(d, a))
  {
    BytesOfJoin(d[a], d[a + 1], d[a + 2], d[a + 3]);
  }

  /** First byte of the record of inode `num` (numbers start at 1). */
  function RecordByte(sb: SuperBlock, num: nat): nat
    requires num > 0
  {
    sb.InodeSect() * SECTOR_SIZE + (num - 1) * INODE_SIZE
  }

  predicate ValidNum(sb: SuperBlock, num: nat) {
    0 < num <= NR_INODES && sb.nrInodeSects * SECTOR_SIZE == NR_INODES * INODE_SIZE
  }

  /** The record lies inside the inode area, and inside one sector. */
  lemma RecordPlace(sb: SuperBlock, num: nat)
    requires ValidNum(sb, num)
    ensures var a := RecordByte(sb, num);
      && sb.InodeSect() * SECTOR_SIZE <= a && a + INODE_SIZE <= sb.FirstSect() * SECTOR_SIZE
      && a == (sb.InodeSect() + (num - 1) / 16) * SECTOR_SIZE + (num - 1) % 16 * INODE_SIZE
  {
    assert num - 1 == 16 * ((num - 1) / 16) + (num - 1) % 16;
  }

  function Stored(d: seq<byte>, sb: SuperBlock, num: nat): Record
    requires ValidNum(sb, num) && sb.FirstSect() * SECTOR_SIZE <= |d|
  {
    RecordPlace(sb, num);
    RecordAt(d, RecordByte(sb, num))
  }

  /** The record on disk: mode, size, first sector and number of sectors, in this order. */
  lemma RecordLayout(d: seq<byte>, sb: SuperBlock, num: nat)
    requires ValidNum(sb, num) && sb.FirstSect() * SECTOR_SIZE <= |d|
    ensures var a, x := (2 + sb.nrImapSects + sb.nrSmapSects) * 512 + (num - 1) * 32, Stored(d, sb, num);
      a + 16 <= |d| && BytesOf(d, a, x.mode) && BytesOf(d, a + 4, x.size) && BytesOf(d, a + 8, x.start) && BytesOf(d, a + 12, x.nrSects)
  {
    RecordPlace(sb, num);
    var a := RecordByte(sb, num);
    WordBytes(d, a);
    WordBytes(d, a + 4);
    WordBytes(d, a + 8);
    WordBytes(d, a + 12);
  }

  method PokeWord(d: Disk, i: nat, v: u32)
    requires d.Valid() && i + 4 <= SECTOR_SIZE
    modifies d.fsbuf
    ensures forall k :: 0 <= k < d.fsbuf.Length && !(i <= k < i + 4) ==> d.fsbuf[k] == old(d.fsbuf[k])
    ensures Word(d.fsbuf[..], i) == v
  {
    d.fsbuf[i] := ByteOf(v, 0);
    d.fsbuf[i + 1] := ByteOf(v, 1);
    d.fsbuf[i + 2] := ByteOf(v, 2);
    d.fsbuf[i + 3] := ByteOf(v, 3);
    JoinOfBytes(v);
  }

  /** The record whose first byte is d[a]. */
  function RecordAt(d: seq<byte>, a: nat): Record
    requires a + INODE_SIZE <= |d|
  {
    Record(Word(d, a), Word(d, a + 4), Word(d, a + 8), Word(d, a + 12))
  }

  method PokeRecord(d: Disk, i: nat, r: Record)
    requires d.Valid() && i + INODE_SIZE <= SECTOR_SIZE
    modifies d.fsbuf
    ensures forall k :: 0 <= k < d.fsbuf.Length && !(i <= k < i + INODE_SIZE) ==> d.fsbuf[k] == old(d.fsbuf[k])
    ensures RecordAt(d.fsbuf[..], i) == r
  {
    PokeWord(d, i, r.mode);
    PokeWord(d, i + 4, r.size);
    assert Word(d.fsbuf[..], i) == r.mode;
    PokeWord(d, i + 8, r.start);
    assert Word(d.fsbuf[..], i) == r.mode && Word(d.fsbuf[..], i + 4) == r.size;
    PokeWord(d, i + 12, r.nrSects);
    assert Word(d.fsbuf[..], i) == r.mode && Word(d.fsbuf[..], i + 4) == r.size && Word(d.fsbuf[..], i + 8) == r.start;
  }

  /** Records move with the bytes that hold them. */
  lemma SameRecord(d: seq<byte>, a: nat, e: seq<byte>, b: nat)
    requires a + INODE_SIZE <= |d| && b + INODE_SIZE <= |e| && d[a..a + INODE_SIZE] == e[b..b + INODE_SIZE]
    ensures RecordAt(d, a) == RecordAt(e, b)
  {
    var s := d[a..a + INODE_SIZE];
    assert RecordAt(d, a) == RecordAt(s, 0);
    assert RecordAt(e, b) == RecordAt(e[b..b + INODE_SIZE], 0);
  }

  lemma WrittenBack(d0: seq<byte>, buf: seq<byte>, d1: seq<byte>, pos: nat, off: nat)
    requires pos + SECTOR_SIZE <= |d0| && SECTOR_SIZE <= |buf| && off + INODE_SIZE <= SECTOR_SIZE
    requires d1 == d0[..pos] + buf[..SECTOR_SIZE] + d0[pos + SECTOR_SIZE..]
    requires forall k :: 0 <= k < SECTOR_SIZE && !(off <= k < off + INODE_SIZE) ==> buf[k] == d0[pos..pos + SECTOR_SIZE][k]
    ensures RecordAt(d1, pos + off) == RecordAt(buf, off)
    ensures forall a :: 0 <= a < |d0| && !(pos + off <= a < pos + off + INODE_SIZE) ==> d1[a] == d0[a]
  {
    assert d1[pos + off..pos + off + INODE_SIZE] == buf[off..off + INODE_SIZE];
    SameRecord(d1, pos + off, buf, off);
    forall a | 0 <= a < |d0| && !(pos + off <= a < pos + off + INODE_SIZE) ensures d1[a] == d0[a] {
      if pos <= a < pos + SECTOR_SIZE {
        assert buf[a - pos] == d0[pos..pos + SECTOR_SIZE][a - pos];
      }
    }
  }

  method SyncAt(d: Disk, pos: nat, off: nat, r: Record)
    requires d.Valid() && pos + SECTOR_SIZE <= d.data.Length && off + INODE_SIZE <= SECTOR_SIZE
    modifies d.data, d.fsbuf
    ensures RecordAt(d.data[..], pos + off) == r
    ensures forall a :: 0 <= a < d.data.Length && !(pos + off <= a < pos + off + INODE_SIZE) ==>
      d.data[..][a] == old(d.data[..])[a]
  {
    d.Read(pos, SECTOR_SIZE);
    ghost var d0 := d.data[..];
    assert forall k :: 0 <= k < SECTOR_SIZE ==> d.fsbuf[k] == d0[pos..pos + SECTOR_SIZE][k];
    PokeRecord(d, off, r);
    ghost var buf := d.fsbuf[..];
    d.Write(pos, SECTOR_SIZE);
    WrittenBack(d0, buf, d.data[..], pos, off);
  }

  /** Writes the four fields into the inode's record, through the sector that holds it: afterwards
      the record is r and every byte outside its 32 is untouched. */
  method SyncInode(d: Disk, sb: SuperBlock, num: nat, r: Record)
    requires d.Valid() && ValidNum(sb, num) && sb.FirstSect() * SECTOR_SIZE <= d.data.Length
    modifies d.data, d.fsbuf
    ensures Stored(d.data[..], sb, num) == r
    ensures forall a :: 0 <= a < d.data.Length && !(RecordByte(sb, num) <= a < RecordByte(sb, num) + INODE_SIZE) ==>
      d.data[..][a] == old(d.data[..])[a]
  {
    RecordPlace(sb, num);
    SyncAt(d, (sb.InodeSect() + (num - 1) / 16) * SECTOR_SIZE, (num - 1) % 16 * INODE_SIZE, r);
  }

  method LoadAt(d: Disk, pos: nat, off: nat) returns (r: Record)
    requires d.Valid() && pos + SECTOR_SIZE <= d.data.Length && off + INODE_SIZE <= SECTOR_SIZE
    modifies d.fsbuf
    ensures r == RecordAt(d.data[..], pos + off)
  {
    d.Read(pos, SECTOR_SIZE);
    r := RecordAt(d.fsbuf[..SECTOR_SIZE], off);
    assert d.fsbuf[..SECTOR_SIZE][off..off + INODE_SIZE] == d.data[..][pos + off..pos + off + INODE_SIZE];
    SameRecord(d.fsbuf[..SECTOR_SIZE], off, d.data[..], pos + off);
  }

  /** Reads the four fields of the inode's record. */
  method LoadInode(d: Disk, sb: SuperBlock, num: nat) returns (r: Record)
    requires d.Valid() && ValidNum(sb, num) && sb.FirstSect() * SECTOR_SIZE <= d.data.Length
    modifies d.fsbuf
    ensures r == Stored(d.data[..], sb, num)
  {
    RecordPlace(sb, num);
    r := LoadAt(d, (sb.InodeSect() + (num - 1) / 16) * SECTOR_SIZE, (num - 1) % 16 * INODE_SIZE);
  }

  /** Other inodes' records lie outside the 32 bytes that SyncInode writes. */
  lemma RecordsApart(d: seq<byte>, e: seq<byte>, sb: SuperBlock, num: nat, k: nat)
    requires ValidNum(sb, num) && ValidNum(sb, k) && k != num && sb.FirstSect() * SECTOR_SIZE <= |d| == |e|
    requires forall a :: 0 <= a < |d| && !(RecordByte(sb, num) <= a < RecordByte(sb, num) + INODE_SIZE) ==> e[a] == d[a]
    ensures Stored(e, sb, k) == Stored(d, sb, k)
  {
    RecordPlace(sb, k);
    RecordPlace(sb, num);
  }
}
