/** Sizes of sets of numbers. */
module FiniteSets {

  /** The numbers from `a` up to but not including `b`. */
  ghost function Range(a: nat, b: nat): (s: set<nat>)
    ensures forall i: nat :: i in s <==> a <= i < b
    ensures |s| == if a <= b then b - a else 0
  {
    if b <= a then {} else Range(a, b - 1) + {b - 1}
  }

  lemma SubsetSize(a: set<nat>, b: set<nat>)
    requires a <= b
    ensures |a| <= |b| && |b - a| == |b| - |a|
  {
    assert b == a + (b - a);
  }
}
