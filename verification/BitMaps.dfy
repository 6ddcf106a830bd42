/** Bits inside bytes, and bit ranges of a map that starts at some byte of the disk. */
module BitMaps {
  import opened Disks

  function Bit(b: byte, k: nat): bool
    requires k < 8
  {
    (b >> k) & 1 == 1
  }

  lemma SetBit(b: byte, k: nat, j: nat)
    requires k < 8 && j < 8
    ensures Bit(b | (1 << k), j) == (j == k || Bit(b, j))
  {
  }

  lemma ClearBit(b: byte, k: nat, j: nat)
    requires k < 8 && j < 8
    ensures Bit(b & !(1 << k), j) == (j != k && Bit(b, j))
  {
  }

  lemma KeepFrom(b: byte, n: nat, j: nat)
    requires n <= 8 && j < 8
    ensures Bit(b & (0xFF << n), j) == (j >= n && Bit(b, j))
  {
  }

  lemma ZeroByte(j: nat)
    requires j < 8
    ensures !Bit(0, j)
  {
  }

  /** A byte is its bits. */
  lemma SameBits(a: byte, b: byte)
    requires forall j: nat :: j < 8 ==> Bit(a, j) == Bit(b, j)
    ensures a == b
  {
    assert Bit(a, 0) == Bit(b, 0) && Bit(a, 1) == Bit(b, 1) && Bit(a, 2) == Bit(b, 2) && Bit(a, 3) == Bit(b, 3);
    assert Bit(a, 4) == Bit(b, 4) && Bit(a, 5) == Bit(b, 5) && Bit(a, 6) == Bit(b, 6) && Bit(a, 7) == Bit(b, 7);
  }

  lemma FullByte(b: byte)
    ensures b == 0xFF <==> forall j: nat :: j < 8 ==> Bit(b, j)
  {
    if forall j: nat :: j < 8 ==> Bit(b, j) {
      assert forall j: nat :: j < 8 ==> Bit(0xFF, j);
      SameBits(b, 0xFF);
    }
  }

  /** `mask` of the last byte in do_unlink: its low n bits are all set. */
  lemma MaskedOnes(b: byte, n: nat)
    requires n < 8
    ensures b & !(0xFF << n) == !(0xFF << n) <==> forall j: nat :: j < n ==> Bit(b, j)
  {
    var mask: byte := !(0xFF << n);
    assert forall j: nat :: j < 8 ==> Bit(mask, j) == (j < n);
    assert forall j: nat :: j < 8 ==> Bit(b & mask, j) == (Bit(b, j) && Bit(mask, j));
    if forall j: nat :: j < n ==> Bit(b, j) {
      SameBits(b & mask, mask);
    }
  }

  // ----- Maps

  /** Bit j of byte t of the map whose first byte is d[m]; as a bit of the map it is number 8t + j. */
  predicate MapBit(d: seq<byte>, m: nat, t: nat, j: nat)
    requires m + t < |d| && j < 8
  {
    Bit(d[m + t], j)
  }

  ghost predicate AllBits(d: seq<byte>, m: nat, lo: nat, hi: nat, value: bool) {
    forall t: nat, j: nat :: m + t < |d| && j < 8 && lo <= 8 * t + j < hi ==> MapBit(d, m, t, j) == value
  }

  /** e is d with the bits [lo, hi) of the map at m all equal to `value`; no other bit differs. */
  ghost predicate Assigned(d: seq<byte>, e: seq<byte>, m: nat, lo: nat, hi: nat, value: bool) {
    && |e| == |d|
    && (forall a: nat :: a < m && a < |d| ==> e[a] == d[a])
    && (forall t: nat, j: nat :: m + t < |d| && j < 8 ==>
         MapBit(e, m, t, j) == if lo <= 8 * t + j < hi then value else MapBit(d, m, t, j))
  }

  lemma AssignedJoin(d: seq<byte>, e: seq<byte>, f: seq<byte>, m: nat, lo: nat, mid: nat, hi: nat, value: bool)
    requires Assigned(d, e, m, lo, mid, value) && Assigned(e, f, m, mid, hi, value) && lo <= mid <= hi
    ensures Assigned(d, f, m, lo, hi, value)
  {
  }

  lemma AssignedNothing(d: seq<byte>, m: nat, lo: nat, value: bool)
    ensures Assigned(d, d, m, lo, lo, value)
  {
  }

  /** Replacing byte t of the map replaces its eight bits. */
  lemma AssignByte(d: seq<byte>, m: nat, t: nat, x: byte, lo: nat, hi: nat, value: bool)
    requires m + t < |d| && lo <= hi <= 8
    requires forall j: nat :: j < 8 ==> Bit(x, j) == if lo <= j < hi then value else MapBit(d, m, t, j)
    ensures Assigned(d, d[m + t := x], m, 8 * t + lo, 8 * t + hi, value)
  {
    var e := d[m + t := x];
    forall u: nat, j: nat | m + u < |d| && j < 8
      ensures MapBit(e, m, u, j) == if 8 * t + lo <= 8 * u + j < 8 * t + hi then value else MapBit(d, m, u, j)
    {
      if u == t {
        assert Bit(x, j) == if lo <= j < hi then value else MapBit(d, m, t, j);
      }
    }
  }

  /** A byte that holds no bit of the range is unchanged. */
  lemma AssignedFrame(d: seq<byte>, e: seq<byte>, m: nat, lo: nat, hi: nat, value: bool, a: nat)
    requires Assigned(d, e, m, lo, hi, value) && m <= a < |d| && (8 * (a - m) + 8 <= lo || hi <= 8 * (a - m))
    ensures e[a] == d[a]
  {
    var t := a - m;
    forall j: nat | j < 8 ensures Bit(e[a], j) == Bit(d[a], j) {
      assert MapBit(e, m, t, j) == MapBit(d, m, t, j);
    }
    SameBits(e[a], d[a]);
  }
}
