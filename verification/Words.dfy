/** Bitwise operations on machine words, stated over the numbers the words stand for. */
module Words {
  import opened Powers
  import opened Bits

  const WORD_BITS: nat := 64
  const WORD: nat := 0x1_0000_0000_0000_0000

  /** Bitwise and. */
  function And(x: nat, y: nat): nat {
    if x == 0 || y == 0 then 0
    else 2 * And(x / 2, y / 2) + if x % 2 == 1 && y % 2 == 1 then 1 else 0
  }

  /** Bitwise complement of a word. */
  function Not(x: nat): nat
    requires x < WORD
  {
    WORD - 1 - x
  }

  // ----- These are the operations of the machine
  //
  // The value of a word is read off by halving, so that the proofs need not mix bit-vectors and integers.

  function LowBit(x: bv64): nat {
    if x & 1 == 1 then 1 else 0
  }

  /** The number that the `n` low bits of a word stand for. */
  function Value(x: bv64, n: nat): nat {
    if n == 0 then 0 else 2 * Value(x >> 1, n - 1) + LowBit(x)
  }

  lemma SplitLowBit(x: bv64)
    ensures x >> 1 <= 0x7fff_ffff_ffff_ffff
    ensures x & 1 == 1 ==> x == ((x >> 1) << 1) | 1
    ensures x & 1 != 1 ==> x == (x >> 1) << 1
  {
  }

  lemma Double(x: bv64)
    requires x <= 0x7fff_ffff_ffff_ffff
    ensures (x << 1) as nat == 2 * (x as nat)
    ensures ((x << 1) | 1) as nat == 2 * (x as nat) + 1
  {
  }

  ghost predicate Joins(x: bv64, h: bv64) {
    x as nat == 2 * (h as nat) + LowBit(x)
  }

  lemma Half(x: bv64)
    ensures Joins(x, x >> 1)
  {
    SplitLowBit(x);
    Double(x >> 1);
  }

  lemma ZeroIsZero(x: bv64)
    requires x == 0
    ensures x as nat == 0
  {
  }

  lemma {:induction false} LowBitsAreAll(x: bv64, n: nat)
    requires ShiftRight(x, n) == 0
    ensures Value(x, n) == x as nat
    decreases n
  {
    if n == 0 {
      ZeroIsZero(x);
    } else {
      Half(x);
      LowBitsAreAll(x >> 1, n - 1);
    }
  }

  lemma ValueIsNumber(x: bv64)
    ensures Value(x, WORD_BITS) == x as nat
  {
    ShiftedOut(x, 64);
    LowBitsAreAll(x, 64);
  }

  lemma AndUnfolds(x: nat, y: nat, x': nat, y': nat, b: nat, c: nat)
    requires x == 2 * x' + b && y == 2 * y' + c && b < 2 && c < 2
    ensures And(x, y) == 2 * And(x', y') + b * c
  {
    assert x / 2 == x' && x % 2 == b && y / 2 == y' && y % 2 == c;
  }

  lemma AndBits(x: bv64, y: bv64)
    ensures (x & y) >> 1 == (x >> 1) & (y >> 1)
    ensures LowBit(x & y) == LowBit(x) * LowBit(y)
  {
    AndStep(x, y);
  }

  lemma {:induction false} AndOfValues(x: bv64, y: bv64, n: nat)
    ensures And(Value(x, n), Value(y, n)) == Value(x & y, n)
    decreases n
  {
    if n != 0 {
      AndBits(x, y);
      AndOfValues(x >> 1, y >> 1, n - 1);
      AndUnfolds(Value(x, n), Value(y, n), Value(x >> 1, n - 1), Value(y >> 1, n - 1), LowBit(x), LowBit(y));
    }
  }

  lemma AndIsWordAnd(x: bv64, y: bv64)
    ensures And(x as nat, y as nat) == (x & y) as nat
  {
    ValueIsNumber(x);
    ValueIsNumber(y);
    ValueIsNumber(x & y);
    AndOfValues(x, y, WORD_BITS);
  }

  lemma SharedLowBit(x: bv64, y: bv64, m: bv64)
    requires x & y == 0 && x | y == m
    ensures (m & 1 == 1) == ((x & 1 == 1) || (y & 1 == 1))
    ensures !(x & 1 == 1 && y & 1 == 1)
  {
  }

  lemma DisjointHalves(x: bv64, y: bv64)
    requires x & y == 0
    ensures (x >> 1) & (y >> 1) == 0
  {
  }

  lemma SharedBits(x: bv64, y: bv64, m: bv64)
    requires x & y == 0 && x | y == m
    ensures LowBit(m) == LowBit(x) + LowBit(y)
  {
    SharedLowBit(x, y, m);
  }

  lemma ShareOutStep(x: bv64, y: bv64, m: bv64)
    requires x & y == 0 && Covers(x, y, m)
    ensures (x >> 1) & (y >> 1) == 0 && Covers(x >> 1, y >> 1, m >> 1)
    ensures LowBit(m) == LowBit(x) + LowBit(y)
  {
    SharedBits(x, y, m);
    DisjointHalves(x, y);
    CoverStep(x, y, m);
  }

  /** Two words that share out the bits of a third add up to it. */
  lemma {:induction false} ShareOut(x: bv64, y: bv64, m: bv64, n: nat)
    requires x & y == 0 && Covers(x, y, m)
    ensures Value(x, n) + Value(y, n) == Value(m, n)
    decreases n
  {
    if n != 0 {
      ShareOutStep(x, y, m);
      ShareOut(x >> 1, y >> 1, m >> 1, n - 1);
    }
  }

  lemma Complement(x: bv64)
    ensures x & !x == 0 && Covers(x, !x, ALL_ONES)
  {
  }

  lemma OnesValue()
    ensures ALL_ONES as nat == WORD - 1
  {
  }

  lemma ShareOutWord(x: bv64, y: bv64, m: bv64)
    requires x & y == 0 && Covers(x, y, m)
    ensures x as nat + y as nat == m as nat
  {
    ShareOut(x, y, m, WORD_BITS);
    ValueIsNumber(x);
    ValueIsNumber(y);
    ValueIsNumber(m);
  }

  lemma SharingOnes(x: bv64, y: bv64)
    requires x & y == 0 && Covers(x, y, ALL_ONES)
    ensures x as nat + y as nat == WORD - 1
  {
    OnesValue();
    ShareOutWord(x, y, ALL_ONES);
  }

  lemma NotIsWordNot(x: bv64)
    ensures x as nat < WORD && (!x) as nat == Not(x as nat)
  {
    Complement(x);
    SharingOnes(x, !x);
  }

  lemma {:induction false} ShiftOfValue(x: bv64, n: nat, m: nat)
    ensures Value(ShiftRight(x, n), m) == Div(Value(x, n + m), Pow2(n))
    decreases n
  {
    if n == 0 {
      DivOne(Value(x, m));
    } else {
      ShiftOfValue(x >> 1, n - 1, m);
      ShiftStep(Value(x, n + m), Value(x >> 1, n - 1 + m), LowBit(x), Pow2(n - 1));
    }
  }

  lemma {:induction false} ZeroShifted(n: nat)
    ensures ShiftRight(0, n) == 0
  {
    if n != 0 {
      assert 0 >> 1 == 0 as bv64;
      ZeroShifted(n - 1);
    }
  }

  lemma {:induction false} ShiftTwice(x: bv64, n: nat, m: nat)
    ensures ShiftRight(ShiftRight(x, n), m) == ShiftRight(x, n + m)
    decreases n
  {
    if n != 0 {
      ShiftTwice(x >> 1, n - 1, m);
    }
  }

  lemma ShiftIsDivision(x: bv64, n: nat)
    ensures ShiftRight(x, n) as nat == Div(x as nat, Pow2(n))
  {
    ShiftedOut(x, 64);
    ShiftTwice(x, 64, n);
    ZeroShifted(n);
    LowBitsAreAll(x, n + 64);
    ValueIsNumber(ShiftRight(x, n));
    ShiftOfValue(x, n, 64);
  }

  lemma ShiftStep(x: nat, h: nat, b: nat, p: nat)
    requires x == 2 * h + b && b < 2 && p > 0
    ensures Div(h, p) == Div(x, 2 * p)
  {
    assert h == x / 2;
    HalfDiv(x, p);
  }

  // ----- Masks

  /** The mask of `n` low bits takes the remainder. */
  lemma {:induction false} AndLowMask(x: nat, n: nat)
    ensures And(x, Pow2(n) - 1) == Mod(x, Pow2(n))
  {
    if n != 0 && x != 0 {
      AndLowMask(x / 2, n - 1);
      HalfDiv(x, Pow2(n - 1));
      AndUnfolds(x, Pow2(n) - 1, x / 2, Pow2(n - 1) - 1, x % 2, 1);
    }
  }

  /** The mask without the `n` low bits of a word of `w` bits takes the remainder off. */
  lemma {:induction false} AndHighMask(x: nat, w: nat, n: nat)
    requires n <= w && x < Pow2(w)
    ensures Pow2(n) <= Pow2(w) && And(x, Pow2(w) - Pow2(n)) == x - Mod(x, Pow2(n))
    decreases w
  {
    PowOrder(w, n);
    if n == 0 {
      NoMask(x, w);
    } else {
      HalfBelow(x, Pow2(w - 1));
      AndHighMask(x / 2, w - 1, n - 1);
      HighMaskUp(x, w, n);
    }
  }

  lemma HalfBelow(x: nat, p: nat)
    requires x < 2 * p
    ensures x / 2 < p
  {
  }

  lemma HighMaskUp(x: nat, w: nat, n: nat)
    requires 0 < n <= w && Pow2(n - 1) <= Pow2(w - 1)
    requires And(x / 2, Pow2(w - 1) - Pow2(n - 1)) == x / 2 - Mod(x / 2, Pow2(n - 1))
    ensures Pow2(n) <= Pow2(w) && And(x, Pow2(w) - Pow2(n)) == x - Mod(x, Pow2(n))
  {
    HighMaskHalf(x, Pow2(w - 1), Pow2(n - 1));
  }

  lemma NoMask(x: nat, w: nat)
    requires x < Pow2(w)
    ensures And(x, Pow2(w) - 1) == x && Mod(x, 1) == 0
  {
    AndLowMask(x, w);
    DivOne(x);
  }

  lemma HighMaskHalf(x: nat, p: nat, d: nat)
    requires 0 < d <= p && And(x / 2, p - d) == x / 2 - Mod(x / 2, d)
    ensures And(x, 2 * p - 2 * d) == x - Mod(x, 2 * d)
  {
    HalfDiv(x, d);
    HighMaskStep(x, x / 2, x % 2, p, d, Mod(x / 2, d));
  }

  lemma HighMaskStep(x: nat, h: nat, b: nat, p: nat, d: nat, r: nat)
    requires x == 2 * h + b && b < 2 && d <= p && And(h, p - d) == h - r
    ensures And(x, 2 * p - 2 * d) == x - (2 * r + b)
  {
    AndUnfolds(x, 2 * p - 2 * d, h, p - d, b, 0);
  }

  /** A mask of one bit keeps that bit. */
  lemma {:induction false} AndOneBit(x: nat, n: nat)
    ensures And(x, Pow2(n)) == Div(x, Pow2(n)) % 2 * Pow2(n)
  {
    if n == 0 {
      DivOne(x);
      AndUnfolds(x, 1, x / 2, 0, x % 2, 1);
    } else {
      AndOneBit(x / 2, n - 1);
      OneBitHalf(x, Pow2(n - 1), Div(x / 2, Pow2(n - 1)) % 2);
    }
  }

  lemma OneBitHalf(x: nat, d: nat, b: nat)
    requires d > 0 && b == Div(x / 2, d) % 2 && And(x / 2, d) == b * d
    ensures And(x, 2 * d) == Div(x, 2 * d) % 2 * (2 * d)
  {
    HalfDiv(x, d);
    AndUnfolds(x, 2 * d, x / 2, d, x % 2, 0);
    DoubleProduct(b, d);
  }

  lemma DoubleProduct(b: nat, d: nat)
    ensures 2 * (b * d) == b * (2 * d)
  {
  }
}
