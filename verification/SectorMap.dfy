/** The sector map: allocation (fs/open.c, alloc_smap_bit) and freeing (fs/link.c, do_unlink), on the
    disk through the sector buffer. */
module SectorMap {
  import opened Disks
  import opened BitMaps

  /** The fields of the super block that locate things; the inode map takes one sector. */
  datatype SuperBlock = SuperBlock(nrImapSects: nat, nrSmapSects: nat, nrInodeSects: nat) {
    function SmapSect(): nat { 2 + nrImapSects }
    function InodeSect(): nat { 2 + nrImapSects + nrSmapSects }
    function FirstSect(): nat { 2 + nrImapSects + nrSmapSects + nrInodeSects }
    function SmapByte(): nat { SmapSect() * SECTOR_SIZE }
    function SmapBits(): nat { nrSmapSects * SECTOR_SIZE * 8 }
  }

  datatype Allocation = Sector(nr: nat) | AssertionFailure

  ghost predicate FirstClear(d: seq<byte>, m: nat, size: nat, f: nat)
    requires m + size / 8 <= |d|
  {
    f < size && m + f / 8 < |d| && !MapBit(d, m, f / 8, f % 8) && AllBits(d, m, 0, f, true)
  }

  /** The n bits from the first clear one on are inside the map and all clear. */
  ghost predicate RoomAt(d: seq<byte>, m: nat, size: nat, f: nat, n: nat)
    requires m + size / 8 <= |d|
  {
    FirstClear(d, m, size, f) && f + n <= size && AllBits(d, m, f, f + n, false)
  }

  lemma FirstClearUnique(d: seq<byte>, m: nat, size: nat, f: nat, g: nat)
    requires m + size / 8 <= |d| && FirstClear(d, m, size, f) && FirstClear(d, m, size, g)
    ensures f == g
  {
  }

  // ----- Allocation

  /** Index of the lowest clear bit. */
  method FirstZero(x: byte) returns (k: nat)
    requires x != 0xFF
    ensures k < 8 && !Bit(x, k) && forall j: nat :: j < k ==> Bit(x, j)
  {
    k := 0;
    FullByte(x);
    while Bit(x, k)
      invariant k < 8 && forall j: nat :: j < k ==> Bit(x, j)
      decreases 8 - k
    {
      assert k == 7 ==> forall j: nat :: j < 8 ==> Bit(x, j);
      k := k + 1;
    }
  }

  /** Sets bits from k on until the byte ends or `left` bits are set; each must be clear. */
  method FillByte(x: byte, k: nat, left: nat) returns (y: byte, left': nat, ok: bool)
    requires k < 8 && left > 0
    ensures var e := if k + left < 8 then k + left else 8;
      && (ok <==> forall j: nat :: k <= j < e ==> !Bit(x, j))
      && (ok ==> left' == left - (e - k) && forall j: nat :: j < 8 ==> Bit(y, j) == if k <= j < e then true else Bit(x, j))
  {
    y, left' := x, left;
    for i := k to 8
      invariant left' == left - (i - k) && left' > 0
      invariant forall j: nat :: k <= j < i ==> !Bit(x, j)
      invariant forall j: nat :: j < 8 ==> Bit(y, j) == if k <= j < i then true else Bit(x, j)
    {
      if Bit(y, i) {
        ok := false;
        return;
      }
      var z: byte := y | (1 << i);
      forall j: nat | j < 8 ensures Bit(z, j) == (j == i || Bit(y, j)) { SetBit(y, i, j); }
      y := z;
      left' := left' - 1;
      if left' == 0 {
        ok := true;
        return;
      }
    }
    ok := true;
  }

  /** Where the scan stands before byte t of the map: d0 is the disk at the start, v the disk with
      the buffered sector, `free` the result so far (0: none), f the first clear bit once found. */
  ghost predicate Scanning(d0: seq<byte>, v: seq<byte>, m: nat, size: nat, base: nat, n: nat, t: nat, free: nat, left: nat, f: nat)
    requires m + size / 8 <= |d0| && size % 8 == 0
  {
    && 8 * t <= size && left <= n
    && if free == 0 then v == d0 && left == n && AllBits(d0, m, 0, 8 * t, true)
       else
         var e := f + n - left;
         && free == f - 1 + base && FirstClear(d0, m, size, f)
         && AllBits(d0, m, f, e, false) && Assigned(d0, v, m, f, e, true)
         && if left > 0 then e == 8 * t else e <= 8 * t
  }

  /** One iteration of the byte loop, on byte j of the buffered sector i. */
  method ScanByte(d: Disk, m: nat, base: nat, n: nat, i: nat, j: nat, free: nat, left: nat, ghost d0: seq<byte>, ghost size: nat, ghost f: nat)
    returns (free': nat, left': nat, ghost f': nat, ok: bool)
    requires d.Valid() && base > 1 && j < SECTOR_SIZE && left > 0 && m + 512 * i + 512 <= d.data.Length == |d0|
    requires size % 8 == 0 && m + size / 8 <= |d0| && 8 * (512 * i + 512) <= size
    requires Scanning(d0, d.View(m + 512 * i, 512), m, size, base, n, 512 * i + j, free, left, f)
    modifies d.fsbuf
    ensures ok ==> Scanning(d0, d.View(m + 512 * i, 512), m, size, base, n, 512 * i + j + 1, free', left', f')
    ensures !ok ==> forall g: nat :: !RoomAt(d0, m, size, g, n)
    ensures free' == 0 ==> free == 0
  {
    ghost var v, t := d.View(m + 512 * i, 512), 512 * i + j;
    var x := d.fsbuf[j];
    assert x == v[m + t];
    var k := 0;
    free', left', f', ok := free, left, f, true;
    if free == 0 {
      if x == 0xFF {
        ByteFull(d0, m, t);
        return;
      }
      k := FirstZero(x);
      f' := 8 * t + k;
      free' := (i * SECTOR_SIZE + j) * 8 + k - 1 + base;
      StartFilling(d0, m, size, base, n, t, k, x);
    }
    assert Filling(d0, v, m, size, base, n, t, k, free', left, f') by {
      if free > 0 { assert Assigned(d0, v, m, f, f + n - left, true); }
    }
    left', ok := FillBuffered(d, m, base, n, i, j, k, free', left, d0, size, f');
  }

  /** Bits from k on of byte j of the buffered sector i. */
  method FillBuffered(d: Disk, ghost m: nat, ghost base: nat, ghost n: nat, ghost i: nat, j: nat, k: nat, ghost free: nat, left: nat, ghost d0: seq<byte>, ghost size: nat, ghost f: nat)
    returns (left': nat, ok: bool)
    requires d.Valid() && j < SECTOR_SIZE && m + 512 * i + 512 <= d.data.Length == |d0|
    requires size % 8 == 0 && m + size / 8 <= |d0| && 8 * (512 * i + 512) <= size
    requires Filling(d0, d.View(m + 512 * i, 512), m, size, base, n, 512 * i + j, k, free, left, f)
    modifies d.fsbuf
    ensures ok ==> Scanning(d0, d.View(m + 512 * i, 512), m, size, base, n, 512 * i + j + 1, free, left', f)
    ensures !ok ==> forall g: nat :: !RoomAt(d0, m, size, g, n)
  {
    ghost var v, t := d.View(m + 512 * i, 512), 512 * i + j;
    var x := d.fsbuf[j];
    assert x == v[m + t];
    var y;
    y, left', ok := FillByte(x, k, left);
    if ok {
      FilledByte(d0, v, m, size, base, n, t, k, free, left, f, x, y);
      d.Poke(j, y, m + 512 * i, 512);
      assert d.View(m + 512 * i, 512) == v[m + t := y];
    } else {
      NoRoom(d0, v, m, size, base, n, t, k, free, left, f, x);
    }
  }

  /** The free run starts at f, and everything from f up to bit k of byte t has been set. */
  ghost predicate Filling(d0: seq<byte>, v: seq<byte>, m: nat, size: nat, base: nat, n: nat, t: nat, k: nat, free: nat, left: nat, f: nat)
    requires m + size / 8 <= |d0|
  {
    && k < 8 && 0 < left <= n && free > 0 && free == f - 1 + base && f + n - left == 8 * t + k
    && FirstClear(d0, m, size, f) && AllBits(d0, m, f, 8 * t + k, false) && Assigned(d0, v, m, f, 8 * t + k, true)
  }

  lemma ByteFull(d: seq<byte>, m: nat, t: nat)
    requires m + t < |d| && d[m + t] == 0xFF && AllBits(d, m, 0, 8 * t, true)
    ensures AllBits(d, m, 0, 8 * t + 8, true)
  {
    FullByte(0xFF);
  }

  lemma StartFilling(d: seq<byte>, m: nat, size: nat, base: nat, n: nat, t: nat, k: nat, x: byte)
    requires m + size / 8 <= |d| && m + t < |d| && 8 * t + 8 <= size && AllBits(d, m, 0, 8 * t, true) && k < 8
    requires x == d[m + t] && !Bit(x, k) && forall j: nat :: j < k ==> Bit(x, j)
    requires n > 0 && base > 1
    ensures Filling(d, d, m, size, base, n, t, k, 8 * t + k - 1 + base, n, 8 * t + k)
  {
    assert (8 * t + k) / 8 == t && (8 * t + k) % 8 == k;
    forall u: nat, j: nat | m + u < |d| && j < 8 && 8 * u + j < 8 * t + k ensures MapBit(d, m, u, j) {
      if u == t { assert Bit(x, j); }
    }
  }

  lemma NoRoom(d: seq<byte>, v: seq<byte>, m: nat, size: nat, base: nat, n: nat, t: nat, k: nat, free: nat, left: nat, f: nat, x: byte)
    requires m + size / 8 <= |d| && m + t < |d| && Filling(d, v, m, size, base, n, t, k, free, left, f) && x == v[m + t]
    requires exists j: nat :: k <= j < 8 && j < k + left && Bit(x, j)
    ensures forall g: nat :: !RoomAt(d, m, size, g, n)
  {
    var j: nat :| k <= j < 8 && j < k + left && Bit(x, j);
    assert MapBit(v, m, t, j) && MapBit(d, m, t, j);
    forall g: nat ensures !RoomAt(d, m, size, g, n) {
      if RoomAt(d, m, size, g, n) { FirstClearUnique(d, m, size, f, g); }
    }
  }

  lemma FilledByte(d: seq<byte>, v: seq<byte>, m: nat, size: nat, base: nat, n: nat, t: nat, k: nat, free: nat, left: nat, f: nat, x: byte, y: byte)
    requires m + size / 8 <= |d| && m + t < |d| && Filling(d, v, m, size, base, n, t, k, free, left, f) && x == v[m + t]
    requires size % 8 == 0 && 8 * t + 8 <= size
    requires var e := if k + left < 8 then k + left else 8;
      && (forall j: nat :: k <= j < e ==> !Bit(x, j))
      && (forall j: nat :: j < 8 ==> Bit(y, j) == if k <= j < e then true else Bit(x, j))
    ensures var e := if k + left < 8 then k + left else 8;
      Scanning(d, v[m + t := y], m, size, base, n, t + 1, free, left - (e - k), f)
  {
    var e := if k + left < 8 then k + left else 8;
    AssignByte(v, m, t, y, k, e, true);
    AssignedJoin(d, v, v[m + t := y], m, f, 8 * t + k, 8 * t + e, true);
    forall u: nat, j: nat | m + u < |d| && j < 8 && f <= 8 * u + j < 8 * t + e ensures !MapBit(d, m, u, j) {
      if 8 * u + j >= 8 * t + k {
        assert u == t && !Bit(x, j) && !MapBit(v, m, t, j);
      }
    }
  }

  /** The byte loop over one sector, read into the buffer and written back if anything was set. */
  method ScanSector(d: Disk, m: nat, base: nat, n: nat, i: nat, free: nat, left: nat, ghost d0: seq<byte>, ghost size: nat, ghost f: nat)
    returns (free': nat, left': nat, ghost f': nat, ok: bool)
    requires d.Valid() && base > 1 && n >= left > 0 && m + 512 * i + 512 <= d.data.Length == |d0|
    requires size % 8 == 0 && m + size / 8 <= |d0| && 8 * (512 * i + 512) <= size
    requires Scanning(d0, d.data[..], m, size, base, n, 512 * i, free, left, f)
    modifies d.data, d.fsbuf
    ensures ok ==> Scanning(d0, d.data[..], m, size, base, n, 512 * (i + 1), free', left', f')
    ensures !ok ==> forall g: nat :: !RoomAt(d0, m, size, g, n)
  {
    d.Read(m + 512 * i, 512);
    free', left', f', ok := free, left, f, true;
    var j := 0;
    while j < SECTOR_SIZE && left' > 0
      invariant j <= SECTOR_SIZE && (free' == 0 ==> d.data[..] == d0)
      invariant Scanning(d0, d.View(m + 512 * i, 512), m, size, base, n, 512 * i + j, free', left', f')
    {
      free', left', f', ok := ScanByte(d, m, base, n, i, j, free', left', d0, size, f');
      if !ok {
        return;
      }
      j := j + 1;
    }
    SkipAhead(d0, d.View(m + 512 * i, 512), m, size, base, n, 512 * i + j, 512 * (i + 1), free', left', f');
    if free' > 0 {
      d.Write(m + 512 * i, 512);
    }
  }

  /** Once all n bits are set the position no longer matters. */
  lemma SkipAhead(d0: seq<byte>, v: seq<byte>, m: nat, size: nat, base: nat, n: nat, t: nat, u: nat, free: nat, left: nat, f: nat)
    requires m + size / 8 <= |d0| && size % 8 == 0 && t <= u && 8 * u <= size && n > 0
    requires Scanning(d0, v, m, size, base, n, t, free, left, f) && (left == 0 || t == u)
    ensures Scanning(d0, v, m, size, base, n, u, free, left, f)
    ensures free == 0 ==> v == d0
  {
  }

  /** Finds the first clear bit and sets n bits from there; returns the sector of the first.  It
      succeeds exactly when those n bits are clear and inside the map, and then changes no other
      bit of the disk. */
  method AllocSmapBit(d: Disk, sb: SuperBlock, n: nat) returns (r: Allocation, ghost f: nat)
    requires d.Valid() && n > 0 && sb.SmapByte() + sb.nrSmapSects * SECTOR_SIZE <= d.data.Length
    modifies d.data, d.fsbuf
    ensures r.Sector? <==> exists g: nat :: RoomAt(old(d.data[..]), sb.SmapByte(), sb.SmapBits(), g, n)
    ensures r.Sector? ==> r.nr == f - 1 + sb.FirstSect() && RoomAt(old(d.data[..]), sb.SmapByte(), sb.SmapBits(), f, n)
    ensures r.Sector? ==> Assigned(old(d.data[..]), d.data[..], sb.SmapByte(), f, f + n, true)
  {
    var m, base, size := sb.SmapByte(), sb.FirstSect(), sb.SmapBits();
    ghost var d0 := d.data[..];
    var free, left, i := 0, n, 0;
    f := 0;
    while i < sb.nrSmapSects && left > 0
      invariant i <= sb.nrSmapSects
      invariant Scanning(d0, d.data[..], m, size, base, n, 512 * i, free, left, f)
    {
      var ok;
      free, left, f, ok := ScanSector(d, m, base, n, i, free, left, d0, size, f);
      if !ok {
        return AssertionFailure, f;
      }
      i := i + 1;
    }
    if left > 0 {
      MapExhausted(d0, d.data[..], m, size, base, n, free, left, f);
      return AssertionFailure, f;
    }
    assert RoomAt(d0, m, size, f, n);
    return Sector(free), f;
  }

  lemma MapExhausted(d0: seq<byte>, v: seq<byte>, m: nat, size: nat, base: nat, n: nat, free: nat, left: nat, f: nat)
    requires m + size / 8 <= |d0| && size % 8 == 0 && left > 0
    requires Scanning(d0, v, m, size, base, n, size / 8, free, left, f)
    ensures forall g: nat :: !RoomAt(d0, m, size, g, n)
  {
    forall g: nat ensures !RoomAt(d0, m, size, g, n) {
      if free > 0 && RoomAt(d0, m, size, g, n) { FirstClearUnique(d0, m, size, f, g); }
    }
  }

  // ----- Freeing

  /** The bits [b, e) were all set and have been cleared; nothing else changed. */
  ghost predicate Freed(d0: seq<byte>, v: seq<byte>, m: nat, b: nat, e: nat) {
    b <= e && AllBits(d0, m, b, e, true) && Assigned(d0, v, m, b, e, false)
  }

  /** The same for byte t: bits [k, e) of x are set, and y is x with them cleared. */
  ghost predicate ClearedIn(x: byte, y: byte, k: nat, e: nat) {
    && k <= e <= 8
    && (forall j: nat :: k <= j < e ==> Bit(x, j))
    && (forall j: nat :: j < 8 ==> Bit(y, j) == if k <= j < e then false else Bit(x, j))
  }

  lemma FreedByte(d: seq<byte>, v: seq<byte>, m: nat, b: nat, t: nat, k: nat, e: nat, x: byte, y: byte)
    requires m + t < |d| == |v| && Freed(d, v, m, b, 8 * t + k) && x == v[m + t] && ClearedIn(x, y, k, e)
    ensures Freed(d, v[m + t := y], m, b, 8 * t + e)
  {
    AssignByte(v, m, t, y, k, e, false);
    AssignedJoin(d, v, v[m + t := y], m, b, 8 * t + k, 8 * t + e, false);
    forall u: nat, j: nat | m + u < |d| && j < 8 && b <= 8 * u + j < 8 * t + e ensures MapBit(d, m, u, j) {
      if 8 * u + j >= 8 * t + k {
        assert u == t && Bit(x, j) && MapBit(v, m, t, j);
      }
    }
  }

  lemma ClearBitFound(d: seq<byte>, v: seq<byte>, m: nat, b: nat, hi: nat, t: nat, k: nat, x: byte)
    requires m + t < |d| == |v| && k <= 8 && Freed(d, v, m, b, 8 * t + k) && x == v[m + t]
    requires exists j: nat :: k <= j < 8 && 8 * t + j < hi && !Bit(x, j)
    ensures !AllBits(d, m, b, hi, true)
  {
    var j: nat :| k <= j < 8 && 8 * t + j < hi && !Bit(x, j);
    assert !MapBit(v, m, t, j) && !MapBit(d, m, t, j);
  }

  /** Clears bits from k on until the byte ends or `left` bits are cleared; each must be set. */
  method ClearByte(x: byte, k: nat, left: nat) returns (y: byte, left': nat, ok: bool)
    requires k < 8
    ensures var e := if k + left < 8 then k + left else 8;
      && (ok ==> left' == left - (e - k) && ClearedIn(x, y, k, e))
      && (!ok ==> exists j: nat :: k <= j < e && !Bit(x, j))
  {
    y, left' := x, left;
    var i := k;
    while i < 8 && left' > 0
      invariant k <= i <= 8 && left' == left - (i - k) && ClearedIn(x, y, k, i)
    {
      if !Bit(y, i) {
        ok := false;
        return;
      }
      var z: byte := y & !(1 << i);
      forall j: nat | j < 8 ensures Bit(z, j) == (j != i && Bit(y, j)) { ClearBit(y, i, j); }
      y := z;
      i, left' := i + 1, left' - 1;
    }
    ok := true;
  }

  /** Moves the buffer on to the next sector when byte i is past the end of sector s. */
  method Advance(d: Disk, s: nat, i: nat) returns (s': nat, i': nat)
    requires d.Valid() && i <= SECTOR_SIZE && (s + 1) * SECTOR_SIZE <= d.data.Length
    requires i == SECTOR_SIZE ==> (s + 2) * SECTOR_SIZE <= d.data.Length
    modifies d.data, d.fsbuf
    ensures i' < SECTOR_SIZE && s' * SECTOR_SIZE + i' == s * SECTOR_SIZE + i && s' == s + (if i == SECTOR_SIZE then 1 else 0)
    ensures d.View(s' * SECTOR_SIZE, SECTOR_SIZE) == old(d.View(s * SECTOR_SIZE, SECTOR_SIZE))
  {
    s', i' := s, i;
    if i == SECTOR_SIZE {
      d.Write(s * SECTOR_SIZE, SECTOR_SIZE);
      s', i' := s + 1, 0;
      d.Read(s' * SECTOR_SIZE, SECTOR_SIZE);
    }
  }

  /** C's division, which rounds toward zero. */
  function Quotient(a: int, b: int): int
    requires b > 0
  {
    if a >= 0 then a / b else -(-a / b)
  }

  /** `left` of the n bits from b on are still to be cleared, the next ones in byte t of the map. */
  ghost predicate Clearing(d0: seq<byte>, v: seq<byte>, m: nat, b: nat, n: nat, left: nat, t: nat) {
    && left <= n && Freed(d0, v, m, b, b + n - left)
    && if left > 0 then b + n - left == 8 * t else b + n <= 8 * t
  }

  /** The first byte, bit by bit. */
  method ClearFirst(d: Disk, s: nat, i: nat, b: nat, n: nat, ghost m: nat, ghost t: nat, ghost d0: seq<byte>)
    returns (left: nat, ok: bool)
    requires d.Valid() && (s + 1) * SECTOR_SIZE <= d.data.Length == |d0| && i < SECTOR_SIZE
    requires s * SECTOR_SIZE + i == m + t && b / 8 == t && d.View(s * SECTOR_SIZE, SECTOR_SIZE) == d0
    modifies d.fsbuf
    ensures !ok ==> !AllBits(d0, m, b, b + n, true)
    ensures ok ==> left == (if n < 8 - b % 8 then 0 else n - (8 - b % 8))
    ensures ok ==> Clearing(d0, d.View(s * SECTOR_SIZE, SECTOR_SIZE), m, b, n, left, t + 1)
  {
    var y;
    var x := d.fsbuf[i];
    assert x == d0[m + t] && b == 8 * t + b % 8;
    AssignedNothing(d0, m, b, false);
    y, left, ok := ClearByte(x, b % 8, n);
    if !ok {
      ClearBitFound(d0, d0, m, b, b + n, t, b % 8, x);
    } else {
      FreedByte(d0, d0, m, b, t, b % 8, if b % 8 + n < 8 then b % 8 + n else 8, x, y);
      d.Poke(i, y, s * SECTOR_SIZE, SECTOR_SIZE);
      assert d.View(s * SECTOR_SIZE, SECTOR_SIZE) == d0[m + t := y];
    }
  }

  /** One whole byte. */
  method ClearWhole(d: Disk, s: nat, i: nat, b: nat, n: nat, left: nat, ghost m: nat, ghost t: nat, ghost d0: seq<byte>)
    returns (ok: bool)
    requires d.Valid() && (s + 1) * SECTOR_SIZE <= d.data.Length == |d0| && i < SECTOR_SIZE && left >= 8
    requires s * SECTOR_SIZE + i == m + t && Clearing(d0, d.View(s * SECTOR_SIZE, SECTOR_SIZE), m, b, n, left, t)
    modifies d.fsbuf
    ensures !ok ==> !AllBits(d0, m, b, b + n, true)
    ensures ok ==> Clearing(d0, d.View(s * SECTOR_SIZE, SECTOR_SIZE), m, b, n, left - 8, t + 1)
  {
    ghost var v := d.View(s * SECTOR_SIZE, SECTOR_SIZE);
    var x := d.fsbuf[i];
    assert x == v[m + t];
    FullByte(x);
    ok := x == 0xFF;
    if ok {
      FreedByte(d0, v, m, b, t, 0, 8, x, 0);
      d.Poke(i, 0, s * SECTOR_SIZE, SECTOR_SIZE);
      assert d.View(s * SECTOR_SIZE, SECTOR_SIZE) == v[m + t := 0];
    } else {
      ClearBitFound(d0, v, m, b, b + n, t, 0, x);
    }
  }

  /** The last byte, with a mask; with no bits left the mask is empty. */
  method ClearLast(d: Disk, s: nat, i: nat, b: nat, n: nat, left: nat, ghost m: nat, ghost t: nat, ghost d0: seq<byte>)
    returns (ok: bool)
    requires d.Valid() && (s + 1) * SECTOR_SIZE <= d.data.Length == |d0| && i < SECTOR_SIZE && left < 8
    requires s * SECTOR_SIZE + i == m + t && Clearing(d0, d.View(s * SECTOR_SIZE, SECTOR_SIZE), m, b, n, left, t)
    modifies d.fsbuf
    ensures !ok ==> !AllBits(d0, m, b, b + n, true)
    ensures ok ==> Freed(d0, d.View(s * SECTOR_SIZE, SECTOR_SIZE), m, b, b + n)
  {
    ghost var v := d.View(s * SECTOR_SIZE, SECTOR_SIZE);
    var x := d.fsbuf[i];
    assert x == v[m + t];
    var mask: byte := !(0xFF << left);
    MaskedOnes(x, left);
    ok := x & mask == mask;
    if ok {
      var y: byte := x & (0xFF << left);
      forall j: nat | j < 8 ensures Bit(y, j) == (j >= left && Bit(x, j)) { KeepFrom(x, left, j); }
      if left > 0 {
        FreedByte(d0, v, m, b, t, 0, left, x, y);
      } else {
        SameBits(x, y);
        assert v[m + t := y] == v;
      }
      d.Poke(i, y, s * SECTOR_SIZE, SECTOR_SIZE);
      assert d.View(s * SECTOR_SIZE, SECTOR_SIZE) == v[m + t := y];
    } else {
      ClearBitFound(d0, v, m, b, b + n, t, 0, x);
    }
  }

  /** The loop over whole bytes. */
  method ClearMiddle(d: Disk, sb: SuperBlock, s: nat, i: nat, b: nat, n: nat, left: nat, byteCnt: int, ghost m: nat, ghost t: nat, ghost d0: seq<byte>)
    returns (s': nat, i': nat, left': nat, ok: bool, ghost t': nat)
    requires d.Valid() && |d0| == d.data.Length && (sb.InodeSect() + 1) * SECTOR_SIZE <= d.data.Length
    requires m == sb.SmapByte() && b + n <= sb.SmapBits() && (left >= 8 || byteCnt > 0 ==> left / 8 == byteCnt)
    requires 0 < i <= SECTOR_SIZE && s * SECTOR_SIZE + i == m + t && s < sb.InodeSect()
    requires Clearing(d0, d.View(s * SECTOR_SIZE, SECTOR_SIZE), m, b, n, left, t)
    modifies d.data, d.fsbuf
    ensures !ok ==> !AllBits(d0, m, b, b + n, true)
    ensures ok ==> left' < 8 && 0 < i' <= SECTOR_SIZE && s' * SECTOR_SIZE + i' == m + t' && s' < sb.InodeSect()
    ensures ok ==> Clearing(d0, d.View(s' * SECTOR_SIZE, SECTOR_SIZE), m, b, n, left', t')
  {
    s', i', left', t', ok := s, i, left, t, true;
    var k := 0;
    while k < byteCnt
      invariant 0 <= k && (left' >= 8 || byteCnt > 0 ==> left' / 8 == byteCnt - k)
      invariant 0 < i' <= SECTOR_SIZE && s' * SECTOR_SIZE + i' == m + t' && s' < sb.InodeSect()
      invariant ok && Clearing(d0, d.View(s' * SECTOR_SIZE, SECTOR_SIZE), m, b, n, left', t')
    {
      s', i' := Advance(d, s', i');
      ok := ClearWhole(d, s', i', b, n, left', m, t', d0);
      if !ok {
        return;
      }
      k, i', left', t' := k + 1, i' + 1, left' - 8, t' + 1;
    }
  }

  /** Clears the sector-map bits of a file of n sectors starting at `start`: first byte bit by bit,
      whole bytes, then a mask, crossing sectors as needed.  It fails its assertions exactly when one
      of those bits is clear; otherwise it clears them and no other bit of the disk. */
  method FreeSmapBits(d: Disk, sb: SuperBlock, start: nat, n: nat) returns (ok: bool)
    requires d.Valid() && sb.FirstSect() <= start + 1
    requires start + 1 - sb.FirstSect() + n <= sb.SmapBits() && start + 1 - sb.FirstSect() < sb.SmapBits()
    requires (sb.InodeSect() + 1) * SECTOR_SIZE <= d.data.Length
    modifies d.data, d.fsbuf
    ensures var b := start + 1 - sb.FirstSect();
      && (ok <==> AllBits(old(d.data[..]), sb.SmapByte(), b, b + n, true))
      && (ok ==> Assigned(old(d.data[..]), d.data[..], sb.SmapByte(), b, b + n, false))
  {
    var b := start - sb.FirstSect() + 1;
    var byteIdx := b / 8;
    var byteCnt := Quotient(n - (8 - b % 8), 8);
    var s: nat, i: nat := sb.SmapSect() + byteIdx / SECTOR_SIZE, byteIdx % SECTOR_SIZE;
    ghost var d0, m: nat, t: nat := d.data[..], sb.SmapByte(), byteIdx;
    d.Read(s * SECTOR_SIZE, SECTOR_SIZE);
    var left;
    left, ok := ClearFirst(d, s, i, b, n, m, t, d0);
    if !ok {
      return;
    }
    s, i, left, ok, t := ClearMiddle(d, sb, s, i + 1, b, n, left, byteCnt, m, t + 1, d0);
    if !ok {
      return;
    }
    s, i := Advance(d, s, i);
    ok := ClearLast(d, s, i, b, n, left, m, t, d0);
    if ok {
      d.Write(s * SECTOR_SIZE, SECTOR_SIZE);
    }
  }
}
