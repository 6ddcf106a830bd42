/** Reading and writing regular files (fs/read_write.c, do_rdwt): a loop over chunks of whole
    sectors, proved to be a flat byte copy. */
module ReadWrite {
  import opened Disks

  const CHUNK_LIMIT: nat := 2048

  datatype Direction = READ | WRITE

  /** What do_rdwt uses of the descriptor and the inode. */
  datatype OpenFile = OpenFile(readWrite: bool, pos: nat, size: nat, start: nat, nrSects: nat) {
    /** The limit do_rdwt applies to the end position. */
    function Limit(dir: Direction): nat { if dir.READ? then size else nrSects * 512 }

    /** Disk address of byte p of the file. */
    function Address(p: nat): nat { start * 512 + p }
  }

  function Min(a: int, b: int): int { if a < b then a else b }

  /** `pos_end`. */
  function End(f: OpenFile, dir: Direction, len: nat): nat { Min(f.pos + len, f.Limit(dir)) }

  /** Sectors from the first to the last one of the range, both included; not positive when the end
      lies in an earlier sector than the position. */
  function SectorSpan(f: OpenFile, dir: Direction, len: nat): int {
    End(f, dir, len) / 512 - f.pos / 512 + 1
  }

  /** Sectors the loop goes through: the span, rounded up to whole chunks of 2048 when longer. */
  function Touched(span: int): nat {
    if span <= 0 then 0 else if span <= CHUNK_LIMIT then span else 2048 * ((span + 2047) / 2048)
  }

  /** Bytes from the position to the end of the last chunk. */
  function Capacity(f: OpenFile, dir: Direction, len: nat): (c: int)
    ensures c >= 0
  {
    var span := SectorSpan(f, dir, len);
    if span <= 0 then 0 else Touched(span) * 512 - f.pos % 512
  }

  /** How many bytes the loop moves: the whole chunks are the only bound on the requested length. */
  function Moved(f: OpenFile, dir: Direction, len: nat): nat { Min(len, Capacity(f, dir, len)) }

  /** Every sector the loop reads is on the disk. */
  predicate OnDisk(f: OpenFile, dir: Direction, len: nat, size: nat) {
    (f.start + f.pos / 512 + Touched(SectorSpan(f, dir, len))) * 512 <= size
  }

  /** The chunks reach past the end position, so a request inside the limit is moved in full, and one
      that is not moves more than the limit allows. */
  lemma MovesWhatFits(f: OpenFile, dir: Direction, len: nat)
    requires f.pos <= f.Limit(dir)
    ensures f.pos + len <= f.Limit(dir) ==> Moved(f, dir, len) == len
    ensures Moved(f, dir, len) == End(f, dir, len) - f.pos <==> f.pos + len <= f.Limit(dir)
  {
    var span, e := SectorSpan(f, dir, len), End(f, dir, len);
    assert span >= 1;
    assert Capacity(f, dir, len) >= span * 512 - f.pos % 512;
    assert span * 512 - f.pos % 512 > e - f.pos;
  }

  /** What exactly is moved by a transfer of at most 2048 sectors: up to the end of the request or of the
      sector that holds the limited end, whichever comes first; nothing when that sector comes before
      the position. */
  lemma MovedExactly(f: OpenFile, dir: Direction, len: nat)
    ensures var limit := if dir.READ? then f.size else f.nrSects * 512;
      var e := if f.pos + len < limit then f.pos + len else limit;
      && (e / 512 < f.pos / 512 ==> Moved(f, dir, len) == 0)
      && (0 <= e / 512 - f.pos / 512 < 2048 ==>
            f.pos + Moved(f, dir, len) == if f.pos + len < (e / 512 + 1) * 512 then f.pos + len else (e / 512 + 1) * 512)
  {
  }

  // ----- The loop

  function Patch(d: seq<byte>, a: nat, s: seq<byte>): (r: seq<byte>)
    requires a + |s| <= |d|
    ensures |r| == |d| && forall i :: 0 <= i < |d| ==> r[i] == if a <= i < a + |s| then s[i - a] else d[i]
  {
    d[..a] + s + d[a + |s|..]
  }

  lemma PatchMore(d: seq<byte>, a: nat, s: seq<byte>, t: seq<byte>)
    requires a + |s| + |t| <= |d|
    ensures Patch(Patch(d, a, s), a + |s|, t) == Patch(d, a, s + t)
  {
  }

  /** phys_copy between two buffers. */
  method Copy(dst: array<byte>, to: nat, src: array<byte>, from: nat, bytes: nat)
    requires dst != src && to + bytes <= dst.Length && from + bytes <= src.Length
    modifies dst
    ensures dst[..] == Patch(old(dst[..]), to, src[from..from + bytes])
  {
    forall j | 0 <= j < bytes {
      dst[to + j] := src[from + j];
    }
  }

  lemma PatchThroughWindow(d: seq<byte>, pos: nat, len: nat, w: seq<byte>, off: nat, s: seq<byte>)
    requires pos + len <= |d| && len <= |w| && w[..len] == d[pos..pos + len] && off + |s| <= len
    ensures d[..pos] + Patch(w, off, s)[..len] + d[pos + len..] == Patch(d, pos + off, s)
  {
    var a, b := d[..pos] + Patch(w, off, s)[..len] + d[pos + len..], Patch(d, pos + off, s);
    forall i | 0 <= i < |d| ensures a[i] == b[i] {
      if pos <= i < pos + len {
        assert w[..len][i - pos] == d[i];
      }
    }
  }

  /** One turn of a write: read the chunk, overlay the caller's bytes, write the chunk back. */
  method WriteChunk(d: Disk, pos: nat, len: nat, off: nat, buf: array<byte>, from: nat, bytes: nat)
    requires d.Valid() && buf != d.data && buf != d.fsbuf
    requires pos + len <= d.data.Length && len <= FSBUF_SIZE && off + bytes <= len && from + bytes <= buf.Length
    modifies d.data, d.fsbuf
    ensures d.data[..] == Patch(old(d.data[..]), pos + off, buf[from..from + bytes])
  {
    d.Read(pos, len);
    PatchThroughWindow(d.data[..], pos, len, d.fsbuf[..], off, buf[from..from + bytes]);
    Copy(d.fsbuf, off, buf, from, bytes);
    assert d.View(pos, len) == d.data[..][..pos] + d.fsbuf[..][..len] + d.data[..][pos + len..];
    d.Write(pos, len);
  }

  lemma ReadThroughWindow(d: seq<byte>, pos: nat, len: nat, w: seq<byte>, off: nat, bytes: nat)
    requires pos + len <= |d| && len <= |w| && w[..len] == d[pos..pos + len] && off + bytes <= len
    ensures w[off..off + bytes] == d[pos + off..pos + off + bytes]
  {
    var a, b := w[off..off + bytes], d[pos + off..pos + off + bytes];
    forall i | 0 <= i < bytes ensures a[i] == b[i] {
      assert w[..len][off + i] == d[pos..pos + len][off + i];
    }
    assert a == b;
  }

  /** One turn of a read. */
  method ReadChunk(d: Disk, pos: nat, len: nat, off: nat, buf: array<byte>, to: nat, bytes: nat)
    requires d.Valid() && buf != d.data && buf != d.fsbuf
    requires pos + len <= d.data.Length && len <= FSBUF_SIZE && off + bytes <= len && to + bytes <= buf.Length
    modifies d.fsbuf, buf
    ensures buf[..] == Patch(old(buf[..]), to, d.data[pos + off..pos + off + bytes])
  {
    d.Read(pos, len);
    ReadThroughWindow(d.data[..], pos, len, d.fsbuf[..], off, bytes);
    assert d.fsbuf[off..off + bytes] == d.fsbuf[..][off..off + bytes];
    assert d.data[pos + off..pos + off + bytes] == d.data[..][pos + off..pos + off + bytes];
    Copy(buf, to, d.fsbuf, off, bytes);
  }

  datatype Outcome = Refused | Count(n: nat)

  /** The disk once `rw` bytes of the caller's buffer b have been moved to address a of disk d. */
  ghost function DiskAfter(d: seq<byte>, b: seq<byte>, dir: Direction, a: nat, rw: nat): seq<byte>
    requires rw <= |b| && a + rw <= |d|
  {
    if dir.WRITE? then Patch(d, a, b[..rw]) else d
  }

  /** The caller's buffer once `rw` bytes from address a of disk d have been moved to it. */
  ghost function BufferAfter(d: seq<byte>, b: seq<byte>, dir: Direction, a: nat, rw: nat): seq<byte>
    requires rw <= |b| && a + rw <= |d|
  {
    if dir.READ? then Patch(b, 0, d[a..a + rw]) else b
  }

  ghost predicate Progress(d0: seq<byte>, b0: seq<byte>, d1: seq<byte>, b1: seq<byte>, dir: Direction, a: nat, rw: nat) {
    rw <= |b0| && a + rw <= |d0| && d1 == DiskAfter(d0, b0, dir, a, rw) && b1 == BufferAfter(d0, b0, dir, a, rw)
  }

  lemma ProgressMore(d0: seq<byte>, b0: seq<byte>, d1: seq<byte>, b1: seq<byte>, dir: Direction, a: nat, rw: nat, n: nat)
    requires Progress(d0, b0, d1, b1, dir, a, rw) && rw + n <= |b0| && a + rw + n <= |d0|
    ensures dir.WRITE? ==> Progress(d0, b0, Patch(d1, a + rw, b1[rw..rw + n]), b1, dir, a, rw + n)
    ensures dir.READ? ==> Progress(d0, b0, d1, Patch(b1, rw, d1[a + rw..a + rw + n]), dir, a, rw + n)
  {
    if dir.WRITE? {
      PatchMore(d0, a, b0[..rw], b0[rw..rw + n]);
      assert b0[..rw] + b0[rw..rw + n] == b0[..rw + n];
    } else {
      PatchMore(b0, 0, d0[a..a + rw], d0[a + rw..a + rw + n]);
      assert d0[a..a + rw] + d0[a + rw..a + rw + n] == d0[a..a + rw + n];
    }
  }

  method ReadTurn(d: Disk, buf: array<byte>, i: nat, chunk: nat, off: nat, rw: nat, bytes: nat, ghost a: nat, ghost d0: seq<byte>, ghost b0: seq<byte>)
    requires d.Valid() && buf != d.data && buf != d.fsbuf && chunk <= CHUNK_LIMIT
    requires (i + chunk) * 512 <= d.data.Length && off + bytes <= chunk * 512 && rw + bytes <= buf.Length
    requires Progress(d0, b0, d.data[..], buf[..], READ, a, rw) && (bytes == 0 || a + rw == i * 512 + off)
    modifies d.data, d.fsbuf, buf
    ensures Progress(d0, b0, d.data[..], buf[..], READ, a, rw + bytes)
  {
    ghost var d1, b1 := d.data[..], buf[..];
    ReadChunk(d, i * 512, chunk * 512, off, buf, rw, bytes);
    assert buf[..] == Patch(b1, rw, d1[i * 512 + off..i * 512 + off + bytes]);
    if bytes > 0 {
      ProgressMore(d0, b0, d1, b1, READ, a, rw, bytes);
    } else {
      PatchNothing(b1, rw, d1[i * 512 + off..i * 512 + off]);
    }
  }

  method WriteTurn(d: Disk, buf: array<byte>, i: nat, chunk: nat, off: nat, rw: nat, bytes: nat, ghost a: nat, ghost d0: seq<byte>, ghost b0: seq<byte>)
    requires d.Valid() && buf != d.data && buf != d.fsbuf && chunk <= CHUNK_LIMIT
    requires (i + chunk) * 512 <= d.data.Length && off + bytes <= chunk * 512 && rw + bytes <= buf.Length
    requires Progress(d0, b0, d.data[..], buf[..], WRITE, a, rw) && (bytes == 0 || a + rw == i * 512 + off)
    modifies d.data, d.fsbuf, buf
    ensures Progress(d0, b0, d.data[..], buf[..], WRITE, a, rw + bytes)
  {
    ghost var d1, b1 := d.data[..], buf[..];
    WriteChunk(d, i * 512, chunk * 512, off, buf, rw, bytes);
    assert d.data[..] == Patch(d1, i * 512 + off, b1[rw..rw + bytes]);
    if bytes > 0 {
      ProgressMore(d0, b0, d1, b1, WRITE, a, rw, bytes);
    } else {
      PatchNothing(d1, i * 512 + off, b1[rw..rw]);
    }
  }

  /** One turn of the loop, on `chunk` sectors from sector i. */
  method Turn(d: Disk, dir: Direction, buf: array<byte>, i: nat, chunk: nat, off: nat, rw: nat, bytes: nat, ghost a: nat, ghost d0: seq<byte>, ghost b0: seq<byte>)
    returns (rw': nat)
    requires d.Valid() && buf != d.data && buf != d.fsbuf && chunk <= CHUNK_LIMIT
    requires (i + chunk) * 512 <= d.data.Length && off + bytes <= chunk * 512 && rw + bytes <= buf.Length
    requires Progress(d0, b0, d.data[..], buf[..], dir, a, rw) && (bytes == 0 || a + rw == i * 512 + off)
    modifies d.data, d.fsbuf, buf
    ensures rw' == rw + bytes && Progress(d0, b0, d.data[..], buf[..], dir, a, rw')
  {
    rw' := rw + bytes;
    if dir.READ? {
      ReadTurn(d, buf, i, chunk, off, rw, bytes, a, d0, b0);
    } else {
      WriteTurn(d, buf, i, chunk, off, rw, bytes, a, d0, b0);
    }
  }

  lemma PatchNothing(d: seq<byte>, a: nat, s: seq<byte>)
    requires a <= |d| && s == []
    ensures Patch(d, a, s) == d
  {
  }

  /** The loop counters after k turns over `total` sectors: the next turn starts `done` sectors on. */
  ghost predicate AtTurn(span: nat, total: nat, off0: nat, len: nat, k: nat, done: nat, rw: nat) {
    && done == (if span > CHUNK_LIMIT then 2048 * k else if k == 0 then 0 else span)
    && done <= total && rw == if k == 0 then 0 else Min(len, done * 512 - off0)
  }

  lemma NextTurn(span: nat, total: nat, off0: nat, len: nat, k: nat, done: nat, rw: nat, off: nat, chunk: nat)
    requires AtTurn(span, total, off0, len, k, done, rw) && done < span && total == Touched(span) && off0 < 512
    requires off == (if k == 0 then off0 else 0) && chunk == Min(span, CHUNK_LIMIT)
    ensures var bytes := Min(len - rw, chunk * 512 - off);
      && bytes >= 0 && off + bytes <= chunk * 512 && (bytes == 0 || off0 + rw == done * 512 + off)
      && AtTurn(span, total, off0, len, k + 1, done + chunk, rw + bytes)
  {
  }

  lemma LastTurn(span: nat, total: nat, off0: nat, len: nat, k: nat, done: nat, rw: nat)
    requires AtTurn(span, total, off0, len, k, done, rw) && done >= span > 0 && total == Touched(span) && off0 < 512
    ensures done == total && rw == Min(len, total * 512 - off0)
  {
  }

  /** The loop: `chunk` sectors a turn from sector `first` to sector `last`. */
  method MoveChunks(d: Disk, dir: Direction, buf: array<byte>, first: nat, last: nat, chunk: nat, off0: nat, len: nat, ghost total: nat) returns (rw: nat)
    requires d.Valid() && buf != d.data && buf != d.fsbuf && len <= buf.Length && off0 < 512
    requires first <= last && chunk == Min(last - first + 1, CHUNK_LIMIT)
    requires total == Touched(last - first + 1) && (first + total) * 512 <= d.data.Length
    modifies d.data, d.fsbuf, buf
    ensures rw == Min(len, total * 512 - off0)
    ensures Progress(old(d.data[..]), old(buf[..]), d.data[..], buf[..], dir, first * 512 + off0, rw)
  {
    ghost var d0, b0, a := d.data[..], buf[..], first * 512 + off0;
    ghost var span, k := last - first + 1, 0;
    var off, i := off0, first;
    rw := 0;
    while i <= last
      invariant first <= i && 0 <= k && off == (if k == 0 then off0 else 0)
      invariant AtTurn(span, total, off0, len, k, i - first, rw)
      invariant Progress(d0, b0, d.data[..], buf[..], dir, a, rw)
      decreases last + 1 - i
    {
      NextTurn(span, total, off0, len, k, i - first, rw, off, chunk);
      assert (i + chunk) * 512 <= (first + total) * 512;
      rw := Turn(d, dir, buf, i, chunk, off, rw, Min(len - rw, chunk * 512 - off), a, d0, b0);
      off, i, k := 0, i + chunk, k + 1;
    }
    LastTurn(span, total, off0, len, k, i - first, rw);
  }

  lemma Plan(f: OpenFile, dir: Direction, len: nat, size: nat, first: int, last: int)
    requires OnDisk(f, dir, len, size) && first == f.start + f.pos / 512 && last == f.start + End(f, dir, len) / 512
    ensures last - first + 1 == SectorSpan(f, dir, len) && first * 512 + f.pos % 512 == f.Address(f.pos)
    ensures (first + Touched(last - first + 1)) * 512 <= size
    ensures Moved(f, dir, len) == if first <= last then Min(len, Touched(last - first + 1) * 512 - f.pos % 512) else 0
  {
  }

  /** The chunk arithmetic of do_rdwt and its loop. */
  method Transfer(d: Disk, f: OpenFile, dir: Direction, buf: array<byte>, len: nat) returns (rw: nat)
    requires d.Valid() && buf != d.data && buf != d.fsbuf && len <= buf.Length
    requires f.Address(f.pos) <= d.data.Length && OnDisk(f, dir, len, d.data.Length)
    modifies d.data, d.fsbuf, buf
    ensures rw == Moved(f, dir, len)
    ensures Progress(old(d.data[..]), old(buf[..]), d.data[..], buf[..], dir, f.Address(f.pos), rw)
  {
    var end := Min(f.pos + len, f.Limit(dir));
    var first, last := f.start + f.pos / 512, f.start + end / 512;
    var chunk := Min(last - first + 1, CHUNK_LIMIT);
    rw := 0;
    Plan(f, dir, len, d.data.Length, first, last);
    if first <= last {
      rw := MoveChunks(d, dir, buf, first, last, chunk, f.pos % 512, len, Touched(last - first + 1));
    } else {
      PatchNothing(d.data[..], f.Address(f.pos), buf[..0]);
      PatchNothing(buf[..], 0, d.data[f.Address(f.pos)..f.Address(f.pos)]);
      assert Progress(d.data[..], buf[..], d.data[..], buf[..], dir, f.Address(f.pos), 0);
    }
  }

  /** do_rdwt on a regular file or directory: exactly the bytes from the position on are copied, to the
      disk or from it; position and size follow.  `grown` says that the inode is written back. */
  method DoRdwt(d: Disk, f: OpenFile, dir: Direction, buf: array<byte>, len: nat) returns (r: Outcome, f': OpenFile, grown: bool)
    requires d.Valid() && buf != d.data && buf != d.fsbuf && len <= buf.Length
    requires f.Address(f.pos) <= d.data.Length && OnDisk(f, dir, len, d.data.Length)
    modifies d.data, d.fsbuf, buf
    ensures !f.readWrite ==> r == Refused && f' == f && d.data[..] == old(d.data[..]) && buf[..] == old(buf[..])
    ensures f.readWrite ==>
      var n := Moved(f, dir, len);
      && r == Count(n) && Progress(old(d.data[..]), old(buf[..]), d.data[..], buf[..], dir, f.Address(f.pos), n)
      && f' == f.(pos := f.pos + n, size := if f.pos + n > f.size then f.pos + n else f.size)
      && grown == (f.pos + n > f.size)
  {
    f', grown := f, false;
    if !f.readWrite {
      return Refused, f, false;
    }
    var rw := Transfer(d, f, dir, buf, len);
    f' := f'.(pos := f'.pos + rw);
    if f'.pos > f'.size {
      f', grown := f'.(size := f'.pos), true;
    }
    r := Count(rw);
  }

  /** Writing a range inside the extent changes exactly those bytes of the file, and reading the same
      range gives back what was written. */
  method WriteThenRead(d: Disk, f: OpenFile, src: array<byte>, dst: array<byte>, len: nat) returns (f': OpenFile)
    requires d.Valid() && src != d.data && src != d.fsbuf && dst != d.data && dst != d.fsbuf && src != dst
    requires len <= src.Length && len <= dst.Length && f.readWrite
    requires f.pos + len <= f.nrSects * 512
    requires OnDisk(f, WRITE, len, d.data.Length) && f.Address(f.nrSects * 512) <= d.data.Length
    requires OnDisk(f.(size := if f.pos + len > f.size then f.pos + len else f.size), READ, len, d.data.Length)
    modifies d.data, d.fsbuf, src, dst
    ensures d.data[..] == Patch(old(d.data[..]), f.Address(f.pos), old(src[..])[..len])
    ensures dst[..] == Patch(old(dst[..]), 0, old(src[..])[..len])
    ensures f'.pos == f.pos + len && f'.size == if f.pos + len > f.size then f.pos + len else f.size
  {
    ghost var s0, d0, a := src[..], d.data[..], f.Address(f.pos);
    MovesWhatFits(f, WRITE, len);
    var r, g, grown := DoRdwt(d, f, WRITE, src, len);
    var back := g.(pos := f.pos);
    MovesWhatFits(back, READ, len);
    ghost var d1 := d.data[..];
    assert d1 == Patch(d0, a, s0[..len]);
    r, f', grown := DoRdwt(d, back, READ, dst, len);
    assert d1[a..a + len] == s0[..len];
  }

  /** Exactly how far a write may go beyond the file's own sectors: it stays inside them if and only
      if the request does. */
  lemma WriteStaysInside(f: OpenFile, len: nat)
    requires f.pos <= f.nrSects * 512
    ensures f.pos + Moved(f, WRITE, len) <= f.nrSects * 512 <==> f.pos + len <= f.nrSects * 512
  {
    MovesWhatFits(f, WRITE, len);
  }

  /** Exactly when a read leaves the size alone: a longer request moves bytes past the end of the file
      and then grows the file over them. */
  lemma ReadKeepsSize(f: OpenFile, len: nat)
    requires f.pos <= f.size
    ensures f.pos + Moved(f, READ, len) <= f.size <==> f.pos + len <= f.size
  {
    MovesWhatFits(f, READ, len);
  }

  /** A 1 MB file written from the start with one byte too many: the byte lands in the next extent. */
  lemma WriteSpills()
    ensures var f := OpenFile(true, 0, 0, 1000, 2048);
      Moved(f, WRITE, 0x10_0001) == 0x10_0001 && f.Address(0x10_0000) == 512 * (1000 + 2048)
  {
    var f := OpenFile(true, 0, 0, 1000, 2048);
    assert End(f, WRITE, 0x10_0001) == 0x10_0000 && SectorSpan(f, WRITE, 0x10_0001) == 2049;
  }

  /** Reading 10 bytes of a 5-byte file returns 10 and makes it a 10-byte file. */
  lemma ReadGrows()
    ensures var f := OpenFile(true, 0, 5, 1000, 2048);
      Moved(f, READ, 10) == 10 && f.pos + Moved(f, READ, 10) > f.size
  {
    var f := OpenFile(true, 0, 5, 1000, 2048);
    assert End(f, READ, 10) == 5 && SectorSpan(f, READ, 10) == 1;
  }
}
