/** Byte bitmaps: bit `i` of a bitmap is bit `i % 8` of byte `i / 8`. */
module Bitmap {
  import opened Bits
  import opened PopCount
  import opened Powers

  predicate ByteBit(b: bv8, j: nat) {
    Bit(b as bv64, j)
  }

  /** Whether object `i` is set in the bitmap `bytes`. */
  predicate IsSet(bytes: seq<bv8>, i: nat)
    requires i < 8 * |bytes|
  {
    ByteBit(bytes[i / 8], i % 8)
  }

  /** The set bits with an index below `n`. */
  ghost function SetBits(bytes: seq<bv8>, n: nat): set<nat>
    requires n <= 8 * |bytes|
  {
    set i: nat | i < n && IsSet(bytes, i)
  }

  /** How many of the first `n` bits are set, counted one at a time. */
  ghost function CountSet(bytes: seq<bv8>, n: nat): nat
    requires n <= 8 * |bytes|
  {
    if n == 0 then 0 else CountSet(bytes, n - 1) + (if IsSet(bytes, n - 1) then 1 else 0)
  }

  lemma {:induction false} CountSetIsCardinality(bytes: seq<bv8>, n: nat)
    requires n <= 8 * |bytes|
    ensures CountSet(bytes, n) == |SetBits(bytes, n)|
  {
    if n != 0 {
      CountSetIsCardinality(bytes, n - 1);
      var rest := SetBits(bytes, n - 1);
      assert SetBits(bytes, n) == if IsSet(bytes, n - 1) then rest + {n - 1} else rest;
    }
  }

  // ----- One byte

  /** How many of the low `m` bits of `b` are set. */
  ghost function CountByte(b: bv8, m: nat): nat {
    if m == 0 then 0 else CountByte(b, m - 1) + (if ByteBit(b, m - 1) then 1 else 0)
  }

  lemma ByteBitShift(b: bv8, j: nat)
    ensures ByteBit(b, 0) == ((b as nat) % 2 == 1)
    ensures ByteBit(b, j + 1) == ByteBit(b >> 1, j)
    ensures (b >> 1) as nat == (b as nat) / 2
  {
    assert (b as bv64) >> 1 == (b >> 1) as bv64;
  }

  lemma {:induction false} CountByteShift(b: bv8, m: nat)
    ensures CountByte(b, m + 1) == (b as nat) % 2 + CountByte(b >> 1, m)
  {
    ByteBitShift(b, 0);
    if m != 0 {
      CountByteShift(b, m - 1);
      ByteBitShift(b, m - 1);
    }
  }

  lemma {:induction false} CountByteByTableUpTo(b: bv8, v: nat, m: nat, t: seq<nat>)
    requires b as nat == v < Pow2(m) && v < |t| && Halves(t) && t[0] == 0
    ensures CountByte(b, m) == t[v]
    decreases m
  {
    if m != 0 {
      ByteBitShift(b, 0);
      CountByteShift(b, m - 1);
      CountByteByTableUpTo(b >> 1, v / 2, m - 1, t);
    }
  }

  /** The table gives the number of set bits of every byte. */
  lemma CountByteByTable(b: bv8)
    ensures |ONE_BIT_COUNT| == 256 && ONE_BIT_COUNT[b as nat] == CountByte(b, 8)
  {
    TableHalves();
    assert Pow2(8) == 256;
    CountByteByTableUpTo(b, b as nat, 8, ONE_BIT_COUNT);
  }

  /** The table's count for a byte. */
  function TableEntry(b: bv8): (n: nat)
    ensures n == CountByte(b, 8)
  {
    CountByteByTable(b);
    ONE_BIT_COUNT[b as nat]
  }

  /** The mask that keeps the low `r` bits of a byte. */
  function LowMask(r: nat): bv8
    requires 0 < r < 8
  {
    ((1 as bv8) << r) - 1
  }

  lemma LowMaskShift(r: nat)
    requires 0 < r < 8
    ensures LowMask(r) as nat % 2 == 1
    ensures LowMask(r) >> 1 == if r == 1 then 0 else LowMask(r - 1)
  {
    match r {
      case 1 =>
      case 2 =>
      case 3 =>
      case 4 =>
      case 5 =>
      case 6 =>
      case _ =>
    }
  }

  lemma {:induction false} LowMaskBit(r: nat, j: nat)
    requires 0 < r < 8 && j < 8
    ensures ByteBit(LowMask(r), j) == (j < r)
    decreases j
  {
    LowMaskShift(r);
    if j == 0 {
      ByteBitShift(LowMask(r), 0);
    } else {
      ByteBitShift(LowMask(r), j - 1);
      if r == 1 { BitZero(j - 1); } else { LowMaskBit(r - 1, j - 1); }
    }
  }

  lemma MaskedBit(b: bv8, r: nat, j: nat)
    requires 0 < r < 8 && j < 8
    ensures ByteBit(b & LowMask(r), j) == (ByteBit(b, j) && j < r)
  {
    var m := LowMask(r);
    assert (b & m) as bv64 == (b as bv64) & (m as bv64);
    BitAnd(b as bv64, m as bv64, j);
    LowMaskBit(r, j);
  }

  /** Masking a byte down to `r` bits drops exactly the bits at `r` and above from the count. */
  lemma {:induction false} CountMasked(b: bv8, r: nat, m: nat)
    requires 0 < r < 8 && m <= 8
    ensures CountByte(b & LowMask(r), m) == CountByte(b, if m < r then m else r)
    decreases m
  {
    if m != 0 {
      CountMasked(b, r, m - 1);
      MaskedBit(b, r, m - 1);
    }
  }

  /** Counting on from a byte boundary counts the next byte from its lowest bit. */
  lemma {:induction false} CountSetFromByte(bytes: seq<bv8>, k: nat, m: nat)
    requires k < |bytes| && m <= 8
    ensures CountSet(bytes, 8 * k + m) == CountSet(bytes, 8 * k) + CountByte(bytes[k], m)
  {
    if m != 0 {
      CountSetFromByte(bytes, k, m - 1);
      BitOfByte(bytes, k, m - 1);
    }
  }

  lemma BitOfByte(bytes: seq<bv8>, k: nat, j: nat)
    requires k < |bytes| && j < 8
    ensures IsSet(bytes, 8 * k + j) == ByteBit(bytes[k], j)
  {
  }
}
