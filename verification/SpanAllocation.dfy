/** Allocation from a swept span, on its bitmaps: `next_free_index` called until it is exhausted. */
module SpanAllocation {
  import opened SpanModel
  import opened MemorySpan

  /** Hands out objects until there are none. */
  method AllocateToExhaustion(span: MemorySpanData) returns (objects: seq<nat>)
    requires span.Valid()
    modifies span`freeIndex, span`allocCache
    ensures span.Valid() && objects == AllocateAll(old(span.Model()))
    ensures span.Model() == old(span.Model()).(freeIndex := span.numberOfElements)
  {
    objects := [];
    ghost var start := span.Model();
    var next, overflows := span.NextFreeIndex();
    ghost var from := start;
    while next < span.numberOfElements
      invariant span.Valid() && from.freeIndex <= from.elements == span.numberOfElements
      invariant (span.Model(), next) == NextFree(from)
      invariant AllocateAll(start) == objects + AllocateAll(from)
      invariant span.Model() == start.(freeIndex := span.freeIndex)
      decreases from.elements - from.freeIndex
    {
      Handed(objects, next, AllocateAll(span.Model()));
      objects := objects + [next];
      from := span.Model();
      next, overflows := span.NextFreeIndex();
    }
  }

  lemma Handed(objects: seq<nat>, next: nat, rest: seq<nat>)
    ensures objects + ([next] + rest) == (objects + [next]) + rest
  {
  }

  /** Sweeping a span whose counter is right, and then allocating, hands out exactly the objects that were
      not marked, in order, each once; a span with nothing marked that is one object goes back instead. */
  method SweepAndAllocate(span: MemorySpanData, g: nat) returns (freed: bool, objects: seq<nat>)
    requires span.Valid() && g >= 2 && span.state == InUse && span.sweepGeneration == g - 1
    requires Accounted(span.Model()) && (span.spanClass < 2 ==> span.numberOfElements == 1)
    modifies span
    ensures span.Valid() && span.sweepGeneration == g
    ensures freed <==> old(span.spanClass) < 2 && old(span.Model()).markBits == {}
    ensures span.spanClass == old(span.spanClass)
    ensures freed ==> objects == []
    ensures !freed ==> StrictlyIncreasing(objects)
    ensures !freed ==>
      forall i: nat :: i in objects <==> i < span.numberOfElements && i !in old(span.Model()).markBits
    ensures !freed ==> |objects| == span.numberOfElements - span.allocationsCount
  {
    ghost var before := span.Model();
    var outcome, _ := span.Sweep(g);
    SweepConserves(before, g);
    freed := outcome.Freed?;
    objects := [];
    if !freed {
      SweptSpanAllocatesUnmarked(before, g, span.Model());
      objects := AllocateToExhaustion(span);
    }
  }
}
