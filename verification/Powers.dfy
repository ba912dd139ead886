/** Powers of two, and division by them.

    Division by a divisor that is not a constant is defined here by repeated subtraction;
    `DivIsDivision` says that it is Dafny's own. */
module Powers {

  function Pow2(k: nat): (p: nat)
    ensures p >= 1
  {
    if k == 0 then 1 else 2 * Pow2(k - 1)
  }

  function Div(x: nat, d: nat): nat
    requires d > 0
  {
    if x < d then 0 else 1 + Div(x - d, d)
  }

  function Mod(x: nat, d: nat): (r: nat)
    requires d > 0
    ensures r < d
  {
    if x < d then x else Mod(x - d, d)
  }

  lemma {:induction false} PowAdd(a: nat, b: nat)
    ensures Pow2(a + b) == Pow2(a) * Pow2(b)
  {
    if a != 0 {
      PowAdd(a - 1, b);
      assert Pow2(a) * Pow2(b) == 2 * (Pow2(a - 1) * Pow2(b));
    }
  }

  lemma PowSum(a: nat, b: nat, x: nat, y: nat)
    requires Pow2(a) == x && Pow2(b) == y
    ensures Pow2(a + b) == x * y
  {
    PowAdd(a, b);
  }

  lemma CommonPowers()
    ensures Pow2(13) == 0x2000 && Pow2(22) == 0x40_0000 && Pow2(26) == 0x400_0000
    ensures Pow2(47) == 0x8000_0000_0000 && Pow2(64) == 0x1_0000_0000_0000_0000
  {
    assert Pow2(4) == 16 && Pow2(5) == 32;
    PowSum(4, 4, 16, 16);
    PowSum(8, 5, 0x100, 32);
    PowSum(13, 13, 0x2000, 0x2000);
    PowSum(13, 5, 0x2000, 32);
    PowSum(18, 4, 0x4_0000, 16);
    PowSum(26, 13, 0x400_0000, 0x2000);
    PowSum(39, 8, 0x80_0000_0000, 0x100);
    PowSum(47, 13, 0x8000_0000_0000, 0x2000);
    PowSum(60, 4, 0x1000_0000_0000_0000, 16);
  }

  lemma PowSub(a: nat, b: nat)
    requires b <= a
    ensures Pow2(a) == Pow2(a - b) * Pow2(b) && Pow2(b) <= Pow2(a)
  {
    PowAdd(a - b, b);
    MultipleGrows(Pow2(a - b), Pow2(b));
  }

  lemma PowOrder(a: nat, b: nat)
    requires b <= a
    ensures Pow2(b) <= Pow2(a)
  {
    PowSub(a, b);
  }

  lemma PowDouble(a: nat, b: nat)
    requires a < b
    ensures 2 * Pow2(a) <= Pow2(b)
  {
    PowSub(b, a + 1);
  }

  lemma PowMultiple(a: nat, b: nat)
    requires b <= a
    ensures Mod(Pow2(a), Pow2(b)) == 0
  {
    PowSub(a, b);
    DivUnique(Pow2(a), Pow2(b), Pow2(a - b), 0);
  }

  lemma MultipleGrows(k: int, d: int)
    requires k >= 1 && d > 0
    ensures k * d >= d
  {
  }

  lemma NextMultiple(k: nat, d: nat)
    ensures (k + 1) * d == k * d + d
  {
  }

  lemma {:induction false} DivMod(x: nat, d: nat)
    requires d > 0
    ensures x == Div(x, d) * d + Mod(x, d)
  {
    if x >= d {
      DivMod(x - d, d);
      NextMultiple(Div(x - d, d), d);
    }
  }

  /** Quotient and remainder are unique. */
  lemma {:induction false} DivUnique(x: nat, d: nat, q: nat, r: nat)
    requires r < d && x == q * d + r
    ensures Div(x, d) == q && Mod(x, d) == r
    decreases q
  {
    if q > 0 {
      NextMultiple(q - 1, d);
      MultipleGrows(q, d);
      DivUnique(x - d, d, q - 1, r);
    }
  }

  lemma DivIsDivision(x: nat, d: nat)
    requires d > 0
    ensures Div(x, d) == x / d && Mod(x, d) == x % d
  {
    DivUnique(x, d, x / d, x % d);
  }

  /** Dividing by a product is dividing twice. */
  lemma DivDiv(x: nat, d: nat, e: nat)
    requires d > 0 && e > 0
    ensures d * e > 0
    ensures Div(x, d * e) == Div(Div(x, d), e)
    ensures Mod(x, d * e) == Mod(Div(x, d), e) * d + Mod(x, d)
    ensures Div(Mod(x, d * e), d) == Mod(Div(x, d), e)
  {
    DivMod(x, d);
    DivMod(Div(x, d), e);
    TwoDivisions(x, d, e, Div(x, d), Mod(x, d), Div(Div(x, d), e), Mod(Div(x, d), e));
  }

  lemma DivByProduct(x: nat, n: nat, e: nat, d: nat)
    requires d > 0 && e > 0 && n == e * d
    ensures n > 0
    ensures Div(x, n) == Div(Div(x, d), e) && Mod(x, n) == Mod(Div(x, d), e) * d + Mod(x, d)
    ensures Div(Mod(x, n), d) == Mod(Div(x, d), e)
  {
    assert n == d * e;
    DivDiv(x, d, e);
  }

  lemma TwoDivisions(x: nat, d: nat, e: nat, q: nat, r: nat, q': nat, r': nat)
    requires x == q * d + r && q == q' * e + r' && r < d && r' < e
    ensures d * e > 0
    ensures Div(x, d * e) == q' && Mod(x, d * e) == r' * d + r && Div(r' * d + r, d) == r'
  {
    Regroup(d, e, r, q', r');
    DivUnique(x, d * e, q', r' * d + r);
    DivUnique(r' * d + r, d, r', r);
  }

  lemma Regroup(d: nat, e: nat, r: nat, q': nat, r': nat)
    requires r < d && r' < e
    ensures (q' * e + r') * d + r == q' * (d * e) + (r' * d + r)
    ensures 0 <= r' * d + r < d * e
  {
    Distribute(q', e, r', d);
    NextMultiple(r', d);
    MultiplesOrdered(r' + 1, e, d);
  }

  lemma Distribute(a: nat, b: nat, c: nat, d: nat)
    ensures (a * b + c) * d == a * (d * b) + c * d
  {
  }

  lemma DivOne(x: nat)
    ensures Div(x, 1) == x && Mod(x, 1) == 0
  {
    DivUnique(x, 1, x, 0);
  }

  lemma HalfDiv(x: nat, d: nat)
    requires d > 0
    ensures Div(x, 2 * d) == Div(x / 2, d) && Mod(x, 2 * d) == 2 * Mod(x / 2, d) + x % 2
  {
    DivMod(x / 2, d);
    var q, r := Div(x / 2, d), Mod(x / 2, d);
    assert q * (2 * d) == 2 * (q * d);
    DivUnique(x, 2 * d, q, 2 * r + x % 2);
  }

  /** Adding a multiple of the divisor shifts the quotient. */
  lemma DivShift(x: nat, d: nat, c: nat)
    requires d > 0
    ensures Div(x + c * d, d) == Div(x, d) + c && Mod(x + c * d, d) == Mod(x, d)
  {
    DivMod(x, d);
    assert (Div(x, d) + c) * d == Div(x, d) * d + c * d;
    DivUnique(x + c * d, d, Div(x, d) + c, Mod(x, d));
  }

  lemma DivBelow(x: nat, d: nat, n: nat)
    requires d > 0
    ensures x < n * d <==> Div(x, d) < n
  {
    DivMod(x, d);
    MultiplesOrdered(Div(x, d), n, d);
    MultiplesOrdered(n, Div(x, d), d);
  }

  lemma StartOfMultiple(k: nat, n: nat, d: nat)
    requires k < n && d > 0
    ensures k * d < n * d && Div(k * d, d) == k && Mod(k * d, d) == 0
  {
    MultiplesOrdered(k, n, d);
    DivUnique(k * d, d, k, 0);
  }

  lemma StartOfProduct(k: nat, m: nat, n: nat, d: nat)
    requires d > 0 && n > 0 && m == n * d
    ensures Mod(Div(k * m, d), n) == 0
  {
    Distribute(k, n, 0, d);
    DivUnique(k * m, d, k * n, 0);
    DivUnique(k * n, n, k, 0);
  }

  lemma MultiplesOrdered(a: nat, b: nat, d: nat)
    ensures a < b ==> a * d + d <= b * d
    ensures a <= b ==> a * d <= b * d
  {
    if a < b {
      assert (a + 1) * d <= b * d;
    }
  }
}
