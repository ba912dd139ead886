/** A memory span as a value: its bitmaps are sets of object indices.  `MemorySpan.dfy` shows that
    the byte bitmaps and the 64-bit cache behave like these sets. */
module SpanModel {
  import opened FiniteSets

  datatype State = Dead | InUse | Manual | Free

  datatype Span = Span(
    state: State,
    generation: nat,
    pages: nat,
    sizeClass: nat,
    elements: nat,
    freeIndex: nat,
    allocBits: set<nat>,
    markBits: set<nat>,
    allocationsCount: nat,
    needZero: bool)

  // ----- Allocation: the next free object

  /** The least index at or after `from` and below `n` that is not in `bits`, or `n`. */
  ghost function LeastFree(bits: set<nat>, n: nat, from: nat): (r: nat)
    requires from <= n
    ensures from <= r <= n
    ensures r < n ==> r !in bits
    ensures forall i :: from <= i < r ==> i in bits
    decreases n - from
  {
    if from == n || from !in bits then from else LeastFree(bits, n, from + 1)
  }

  lemma LeastFreeUnique(bits: set<nat>, n: nat, from: nat, r: nat)
    requires from <= r <= n
    requires r < n ==> r !in bits
    requires forall i :: from <= i < r ==> i in bits
    ensures r == LeastFree(bits, n, from)
  {
    var l := LeastFree(bits, n, from);
    assert !(l < r);
    assert !(r < l);
  }

  /** One call of `next_free_index`: the object handed out (or `elements`) and the span after it. */
  ghost function NextFree(s: Span): (Span, nat)
    requires s.freeIndex <= s.elements
  {
    var i := LeastFree(s.allocBits, s.elements, s.freeIndex);
    (s.(freeIndex := if i < s.elements then i + 1 else i), i)
  }

  /** The next object handed out is the last of its 64, and none of the 63 before it was free at or after
      the free index. */
  ghost predicate ShiftsWord(s: Span)
    requires s.freeIndex <= s.elements
  {
    var i := LeastFree(s.allocBits, s.elements, s.freeIndex);
    i < s.elements && i % 64 == 63 && s.freeIndex + 63 <= i
  }

  /** Every object handed out by calling `next_free_index` until it is exhausted, in order. */
  ghost function AllocateAll(s: Span): seq<nat>
    requires s.freeIndex <= s.elements
    decreases s.elements - s.freeIndex
  {
    var (t, i) := NextFree(s);
    if i == s.elements then [] else [i] + AllocateAll(t)
  }

  ghost predicate StrictlyIncreasing(xs: seq<nat>) {
    forall i, j :: 0 <= i < j < |xs| ==> xs[i] < xs[j]
  }

  ghost function FreeObjects(s: Span): set<nat> {
    set i: nat | s.freeIndex <= i < s.elements && i !in s.allocBits
  }

  /** Handing out objects to exhaustion yields exactly the free ones, each once, in order. */
  lemma {:induction false} AllocateAllIsFreeObjects(s: Span)
    requires s.freeIndex <= s.elements
    ensures StrictlyIncreasing(AllocateAll(s))
    ensures forall i: nat :: i in AllocateAll(s) <==> i in FreeObjects(s)
    ensures |AllocateAll(s)| == |FreeObjects(s)|
    decreases s.elements - s.freeIndex
  {
    var (t, i) := NextFree(s);
    if i == s.elements {
      assert FreeObjects(s) == {};
    } else {
      AllocateAllIsFreeObjects(t);
      TakeLeast(s, t, i);
      PrependLeast(i, AllocateAll(t), FreeObjects(t));
    }
  }

  lemma TakeLeast(s: Span, t: Span, i: nat)
    requires s.freeIndex <= s.elements && (t, i) == NextFree(s) && i < s.elements
    ensures FreeObjects(s) == {i} + FreeObjects(t)
    ensures forall j :: j in FreeObjects(t) ==> i < j
  {
  }

  lemma PrependLeast(i: nat, rest: seq<nat>, free: set<nat>)
    requires StrictlyIncreasing(rest) && (forall j: nat :: j in rest <==> j in free) && |rest| == |free|
    requires forall j :: j in free ==> i < j
    ensures var xs := [i] + rest;
      && StrictlyIncreasing(xs) && (forall j: nat :: j in xs <==> j in {i} + free) && |xs| == |{i} + free|
  {
    assert forall k :: 0 <= k < |rest| ==> rest[k] in rest;
    assert i !in free;
  }

  // ----- Sweeping one span

  /** The objects allocated when the last sweep ended or since: below the free index, or set. */
  ghost function Allocated(s: Span): set<nat> {
    set i: nat | i < s.elements && (i < s.freeIndex || i in s.allocBits)
  }

  /** The counter tells how many objects are allocated, and only allocated objects are marked.
      The counter is a `u16`. */
  ghost predicate Accounted(s: Span) {
    && s.freeIndex <= s.elements
    && s.allocBits <= Range(0, s.elements)
    && s.markBits <= Allocated(s)
    && s.allocationsCount == |Allocated(s)| < 0x1_0000
  }

  datatype Failure = BadSpanState | AllocationCountIncreased

  datatype SweepResult =
    | Panicked(reason: Failure)
    | FreeToHeap(span: Span)  // `sweep` goes on to return the span to the heap
    | KeepInUse(span: Span)   // `sweep` goes on to push the span on the swept stack

  /** `MemorySpanData::sweep` under heap generation `g`, up to handing the span on. */
  function SweepSpan(s: Span, g: nat): SweepResult
    requires g >= 2
  {
    if s.state != InUse || s.generation != g - 1 then
      Panicked(BadSpanState)
    else
      var count := |s.markBits| % 0x1_0000;
      if count > s.allocationsCount then
        Panicked(AllocationCountIncreased)
      else
        var freeToHeap := s.sizeClass == 0 && count == 0;
        var freed := s.allocationsCount - count;
        var swept := s.(
          needZero := s.needZero || freeToHeap,
          allocationsCount := count,
          freeIndex := 0,
          allocBits := s.markBits,
          markBits := {});
        var released :=
          if freeToHeap || freed == 0 || s.sizeClass != 0 then swept.(generation := g) else swept;
        if freeToHeap then FreeToHeap(released) else KeepInUse(released)
  }

  /** Sweeping a claimed span never panics and conserves objects: what was allocated is what stays
      allocated, namely the marked objects, plus what is freed, namely the unmarked ones.  A span given
      back to the heap is to be zeroed before it is used again. */
  lemma SweepConserves(s: Span, g: nat)
    requires g >= 2 && s.state == InUse && s.generation == g - 1
    requires Accounted(s) && (s.sizeClass == 0 ==> s.elements == 1)
    ensures !SweepSpan(s, g).Panicked?
    ensures var t := SweepSpan(s, g).span;
      && t.generation == g && t.state == InUse && t.pages == s.pages
      && Accounted(t) && t.markBits == {}
      && Allocated(t) == s.markBits
      && s.allocationsCount == t.allocationsCount + |Allocated(s) - s.markBits|
    ensures SweepSpan(s, g).FreeToHeap? <==> s.sizeClass == 0 && s.markBits == {}
    ensures SweepSpan(s, g).FreeToHeap? ==>
      SweepSpan(s, g).span.allocationsCount == 0 && SweepSpan(s, g).span.needZero
    ensures SweepSpan(s, g).KeepInUse? ==> SweepSpan(s, g).span.needZero == s.needZero
  {
    var t := SweptSpan(s, g);
    SweepGives(s, g);
    SubsetSize(s.markBits, Allocated(s));
    MarkedIsAllocated(s, t);
  }

  /** A sweep panics exactly on a span that is not in use and claimed, and on one with more marked objects than
      allocated ones, as far as a `u16` tells. */
  lemma SweepPanicsExactly(s: Span, g: nat)
    requires g >= 2
    ensures SweepSpan(s, g) == Panicked(BadSpanState) <==> s.state != InUse || s.generation + 1 != g
    ensures SweepSpan(s, g) == Panicked(AllocationCountIncreased) <==>
      s.state == InUse && s.generation + 1 == g && |s.markBits| % 0x1_0000 > s.allocationsCount
    ensures SweepSpan(s, g).Panicked? ==>
      SweepSpan(s, g) == Panicked(BadSpanState) || SweepSpan(s, g) == Panicked(AllocationCountIncreased)
  {
  }

  /** A span all of whose marked objects are counted, once swept. */
  ghost function SweptSpan(s: Span, g: nat): Span {
    s.(needZero := s.needZero || (s.sizeClass == 0 && s.markBits == {}), allocationsCount := |s.markBits|,
       freeIndex := 0, allocBits := s.markBits, markBits := {}, generation := g)
  }

  lemma SweepGives(s: Span, g: nat)
    requires g >= 2 && s.state == InUse && s.generation == g - 1
    requires Accounted(s) && (s.sizeClass == 0 ==> s.elements == 1)
    ensures SweepSpan(s, g) ==
      if s.sizeClass == 0 && s.markBits == {} then FreeToHeap(SweptSpan(s, g)) else KeepInUse(SweptSpan(s, g))
  {
    SubsetSize(s.markBits, Allocated(s));
    OneObject(s);
    SweepByCount(s, g, |s.markBits|);
  }

  lemma SweepByCount(s: Span, g: nat, count: nat)
    requires g >= 2 && s.state == InUse && s.generation == g - 1
    requires count == |s.markBits| <= s.allocationsCount < 0x1_0000
    requires s.sizeClass == 0 ==> s.allocationsCount <= 1
    ensures SweepSpan(s, g) ==
      if s.sizeClass == 0 && s.markBits == {} then FreeToHeap(SweptSpan(s, g)) else KeepInUse(SweptSpan(s, g))
  {
    assert count == 0 <==> s.markBits == {};
    assert count % 0x1_0000 == count;
  }

  lemma OneObject(s: Span)
    requires Accounted(s)
    ensures s.elements == 1 ==> s.allocationsCount <= 1
  {
    if s.elements == 1 {
      SubsetSize(Allocated(s), Range(0, 1));
    }
  }

  lemma MarkedIsAllocated(s: Span, t: Span)
    requires Accounted(s) && t.elements == s.elements && t.freeIndex == 0 && t.allocBits == s.markBits
    ensures Allocated(t) == s.markBits <= Range(0, s.elements)
  {
  }

  /** From a reset free index, allocation hands out exactly the clear objects. */
  lemma ResetSpanAllocatesClear(t: Span)
    requires t.freeIndex == 0 && t.allocBits <= Range(0, t.elements)
    ensures StrictlyIncreasing(AllocateAll(t))
    ensures forall i: nat :: i in AllocateAll(t) <==> i < t.elements && i !in t.allocBits
    ensures |AllocateAll(t)| == t.elements - |t.allocBits|
  {
    AllocateAllIsFreeObjects(t);
    SubsetSize(t.allocBits, Range(0, t.elements));
    assert FreeObjects(t) == Range(0, t.elements) - t.allocBits;
  }

  /** After a sweep, allocation hands out exactly the unmarked objects, and as many of them as the
      element count exceeds the allocation count: no marked object is ever handed out. */
  lemma SweptSpanAllocatesUnmarked(s: Span, g: nat, t: Span)
    requires g >= 2 && s.state == InUse && s.generation == g - 1
    requires Accounted(s) && (s.sizeClass == 0 ==> s.elements == 1)
    requires !SweepSpan(s, g).Panicked? && t == SweepSpan(s, g).span
    ensures t.freeIndex <= t.elements
    ensures StrictlyIncreasing(AllocateAll(t))
    ensures forall i: nat :: i in AllocateAll(t) <==> i < s.elements && i !in s.markBits
    ensures |AllocateAll(t)| == s.elements - t.allocationsCount
  {
    SweepConserves(s, g);
    assert Allocated(t) == t.allocBits;
    ResetSpanAllocatesClear(t);
  }
}
