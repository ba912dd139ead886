/** Sums over sequences, and sequences joined. */
module Sums {

  function Total<T>(f: T -> nat, xs: seq<T>): nat {
    if |xs| == 0 then 0 else Total(f, xs[..|xs| - 1]) + f(xs[|xs| - 1])
  }

  lemma {:induction false} TotalUpdate<T>(f: T -> nat, xs: seq<T>, i: nat, x: T)
    requires i < |xs|
    ensures Total(f, xs[i := x]) + f(xs[i]) == Total(f, xs) + f(x)
    ensures Total(f, xs) >= f(xs[i])
  {
    var last := |xs| - 1;
    if i < last {
      TotalUpdate(f, xs[..last], i, x);
      assert xs[i := x][..last] == xs[..last][i := x];
    } else {
      assert xs[i := x][..last] == xs[..last];
    }
  }

  lemma {:induction false} TotalSame<T>(f: T -> nat, g: T -> nat, xs: seq<T>)
    requires forall i :: 0 <= i < |xs| ==> f(xs[i]) == g(xs[i])
    ensures Total(f, xs) == Total(g, xs)
  {
    if |xs| != 0 {
      TotalSame(f, g, xs[..|xs| - 1]);
    }
  }

  lemma {:induction false} TotalZero<T>(f: T -> nat, xs: seq<T>)
    requires forall i :: 0 <= i < |xs| ==> f(xs[i]) == 0
    ensures Total(f, xs) == 0
  {
    if |xs| != 0 {
      TotalZero(f, xs[..|xs| - 1]);
    }
  }

  lemma ConcatAssociative<T>(xs: seq<T>, ys: seq<T>, zs: seq<T>)
    ensures xs + (ys + zs) == (xs + ys) + zs
  {
  }
}
