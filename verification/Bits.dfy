/** Words and bytes seen as indexed bits.

    A bit is read by single right shifts, so every fact below needs only bit-vector steps by a
    constant amount.  Bits past the width of a word read as clear. */
module Bits {

  const ALL_ONES: bv64 := 0xffff_ffff_ffff_ffff

  function Bit(x: bv64, j: nat): bool {
    if j == 0 then x & 1 == 1 else Bit(x >> 1, j - 1)
  }

  /** Logical shift by `n` places.  Shifting by 64 or more gives 0. */
  function ShiftRight(x: bv64, n: nat): bv64 {
    if n == 0 then x else ShiftRight(x >> 1, n - 1)
  }

  lemma {:induction false} BitShift(x: bv64, n: nat, j: nat)
    ensures Bit(ShiftRight(x, n), j) == Bit(x, n + j)
    decreases n
  {
    if n != 0 {
      BitShift(x >> 1, n - 1, j);
    }
  }

  lemma {:induction false} BitZero(j: nat)
    ensures !Bit(0, j)
  {
    if j != 0 {
      BitZero(j - 1);
    }
  }

  lemma AndStep(x: bv64, y: bv64)
    ensures (x & y) >> 1 == (x >> 1) & (y >> 1)
    ensures ((x & y) & 1 == 1) == ((x & 1 == 1) && (y & 1 == 1))
  {
  }

  ghost predicate Meets(x: bv64, y: bv64, z: bv64) {
    x & y == z
  }

  lemma MeetStep(x: bv64, y: bv64, z: bv64)
    requires Meets(x, y, z)
    ensures (z & 1 == 1) == ((x & 1 == 1) && (y & 1 == 1))
    ensures Meets(x >> 1, y >> 1, z >> 1)
  {
    AndStep(x, y);
  }

  lemma {:induction false} MeetBit(x: bv64, y: bv64, z: bv64, j: nat)
    requires Meets(x, y, z)
    ensures Bit(z, j) == (Bit(x, j) && Bit(y, j))
    decreases j
  {
    MeetStep(x, y, z);
    if j != 0 {
      MeetBit(x >> 1, y >> 1, z >> 1, j - 1);
    }
  }

  lemma BitAnd(x: bv64, y: bv64, j: nat)
    ensures Bit(x & y, j) == (Bit(x, j) && Bit(y, j))
  {
    MeetBit(x, y, x & y, j);
  }

  lemma OnesStep(n: bv7)
    requires n < 64
    ensures (ALL_ONES >> n) & 1 == 1
    ensures n < 63 ==> (ALL_ONES >> n) >> 1 == ALL_ONES >> (n + 1)
  {
  }

  lemma {:induction false} BitOnes(n: bv7, j: nat)
    requires n as nat + j < 64
    ensures Bit(ALL_ONES >> n, j)
    decreases j
  {
    OnesStep(n);
    if j != 0 {
      BitOnes(n + 1, j - 1);
    }
  }

  ghost predicate Covers(x: bv64, y: bv64, m: bv64) {
    x | y == m
  }

  lemma CoverStep(x: bv64, y: bv64, m: bv64)
    requires Covers(x, y, m)
    ensures m & 1 == 1 ==> (x & 1 == 1) || (y & 1 == 1)
    ensures Covers(x >> 1, y >> 1, m >> 1)
  {
  }

  lemma {:induction false} CoverBit(x: bv64, y: bv64, m: bv64, j: nat)
    requires Covers(x, y, m) && Bit(m, j)
    ensures Bit(x, j) || Bit(y, j)
    decreases j
  {
    CoverStep(x, y, m);
    if j != 0 {
      CoverBit(x >> 1, y >> 1, m >> 1, j - 1);
    }
  }

  lemma BitNot(x: bv64, j: nat)
    requires j < 64
    ensures Bit(!x, j) == !Bit(x, j)
  {
    ComplementBits(x, !x, j);
  }

  lemma ComplementBits(x: bv64, y: bv64, j: nat)
    requires x & y == 0 && Covers(x, y, ALL_ONES >> 0) && j < 64
    ensures Bit(y, j) == !Bit(x, j)
  {
    BitAnd(x, y, j);
    BitZero(j);
    BitOnes(0, j);
    CoverBit(x, y, ALL_ONES >> 0, j);
  }

  /** Bits at and above 64 are clear. */
  lemma BitBeyondWord(x: bv64, j: nat)
    requires j >= 64
    ensures !Bit(x, j)
  {
    ShiftedOut(x, 64);
    BitShift(x, 64, j - 64);
    BitZero(j - 64);
  }

  /** A word whose value is below 2^n is 0 after n shifts; n == 64 covers every word. */
  lemma {:induction false} ShiftedOut(x: bv64, n: bv7)
    requires n <= 64 && (n < 64 ==> x >> n == 0)
    ensures ShiftRight(x, n as nat) == 0
    decreases n
  {
    if n != 0 {
      ShiftOutStep(x, n);
      ShiftedOut(x >> 1, n - 1);
    }
  }

  lemma ShiftOutStep(x: bv64, n: bv7)
    requires 0 < n <= 64 && (n < 64 ==> x >> n == 0)
    ensures (x >> 1) >> (n - 1) == 0
    ensures n as nat > 0 && (n - 1) as nat == n as nat - 1
  {
  }

  // ----- Counting trailing zeros

  function LowestBit(x: bv64): nat
    requires x != 0
    decreases x
  {
    if x & 1 == 1 then 0
    else
      HalfIsSmaller(x);
      1 + LowestBit(x >> 1)
  }

  lemma HalfIsSmaller(x: bv64)
    requires x != 0 && x & 1 != 1
    ensures x >> 1 != 0 && x >> 1 < x
  {
  }

  lemma {:induction false} LowestBitIsLowest(x: bv64)
    requires x != 0
    ensures Bit(x, LowestBit(x))
    ensures forall j: nat :: j < LowestBit(x) ==> !Bit(x, j)
    decreases x
  {
    if x & 1 != 1 {
      HalfIsSmaller(x);
      LowestBitIsLowest(x >> 1);
      assert forall j: nat :: 0 < j < 1 + LowestBit(x >> 1) ==> Bit(x, j) == Bit(x >> 1, j - 1);
    }
  }

  /** `u64::trailing_zeros`: the index of the lowest set bit, or 64 when there is none. */
  function TrailingZeros(x: bv64): nat {
    if x == 0 then 64 else LowestBit(x)
  }

  lemma TrailingZerosIsLowest(x: bv64)
    ensures TrailingZeros(x) <= 64
    ensures TrailingZeros(x) < 64 ==> Bit(x, TrailingZeros(x))
    ensures forall j: nat :: j < TrailingZeros(x) ==> !Bit(x, j)
  {
    if x == 0 {
      forall j: nat
        ensures !Bit(x, j)
      {
        BitZero(j);
      }
    } else {
      LowestBitIsLowest(x);
      if LowestBit(x) >= 64 {
        BitBeyondWord(x, LowestBit(x));
      }
    }
  }

  // ----- Little-endian words

  /** `u64::from_le_bytes`, for up to eight bytes: the first byte holds the lowest bits. */
  function FromLeBytes(b: seq<bv8>): bv64 {
    if b == [] then 0 else (b[0] as bv64) | (FromLeBytes(b[1..]) << 8)
  }

  lemma SameLowByte(x: bv64, b: bv8, j: nat)
    requires x & 0xff == b as bv64 && j < 8
    ensures Bit(x, j) == Bit(b as bv64, j)
  {
    BitAnd(x, 0xff, j);
    assert 0xff == ALL_ONES >> 56;
    BitOnes(56, j);
  }

  lemma Skip2(x: bv64, j: nat)
    ensures Bit(x, j + 2) == Bit(x >> 2, j)
  {
    assert Bit(x, j + 2) == Bit(x >> 1, j + 1);
    assert (x >> 1) >> 1 == x >> 2;
  }

  lemma Skip4(x: bv64, j: nat)
    ensures Bit(x, j + 4) == Bit(x >> 4, j)
  {
    Skip2(x, j + 2);
    Skip2(x >> 2, j);
    assert (x >> 2) >> 2 == x >> 4;
  }

  lemma Skip8(x: bv64, j: nat)
    ensures Bit(x, j + 8) == Bit(x >> 8, j)
  {
    Skip4(x, j + 4);
    Skip4(x >> 4, j);
    assert (x >> 4) >> 4 == x >> 8;
  }

  lemma ConsByte(b: bv8, y: bv64, z: bv64)
    requires z == (b as bv64) | (y << 8)
    ensures z & 0xff == b as bv64
    ensures z >> 8 == y & 0x00ff_ffff_ffff_ffff
  {
  }

  lemma ConsByteHighBit(z: bv64, y: bv64, m: bv64, w: bv64, j: nat)
    requires w == y & m && z >> 8 == w && Bit(m, j)
    ensures Bit(z, j + 8) == Bit(y, j)
  {
    Skip8(z, j);
    BitAnd(y, m, j);
  }

  lemma ConsByteHigh(z: bv64, y: bv64)
    requires z >> 8 == y & 0x00ff_ffff_ffff_ffff
    ensures forall j :: 8 <= j < 64 ==> Bit(z, j) == Bit(y, j - 8)
  {
    forall j | 8 <= j < 64
      ensures Bit(z, j) == Bit(y, j - 8)
    {
      BitMask56(j - 8);
      ConsByteHighBit(z, y, 0x00ff_ffff_ffff_ffff, z >> 8, j - 8);
    }
  }

  lemma BitMask56(j: nat)
    requires j < 56
    ensures Bit(0x00ff_ffff_ffff_ffff, j)
  {
    BitOnes(8, j);
  }

  lemma ConsByteBits(b: bv8, y: bv64, z: bv64)
    requires z == (b as bv64) | (y << 8)
    ensures forall j :: 0 <= j < 8 ==> Bit(z, j) == Bit(b as bv64, j)
    ensures forall j :: 8 <= j < 64 ==> Bit(z, j) == Bit(y, j - 8)
  {
    ConsByte(b, y, z);
    forall j | 0 <= j < 8
      ensures Bit(z, j) == Bit(b as bv64, j)
    {
      SameLowByte(z, b, j);
    }
    ConsByteHigh(z, y);
  }

  /** Bit `j` of a little-endian word is bit `j % 8` of byte `j / 8`. */
  lemma {:induction false} BitFromLeBytes(b: seq<bv8>, j: nat)
    requires j < 64 && j < 8 * |b|
    ensures Bit(FromLeBytes(b), j) == Bit(b[j / 8] as bv64, j % 8)
    decreases j
  {
    ConsByteBits(b[0], FromLeBytes(b[1..]), FromLeBytes(b));
    if j >= 8 {
      BitFromLeBytes(b[1..], j - 8);
    }
  }
}
