/** One thread sweeping (gc.rs `sweep_one` and the drain loop of `background_sweep`, with
    memory_span.rs `sweep` and memory_heap.rs `free_span` as they act on the heap).  Spans are records
    reached by index; `MemorySpan` shows that sweeping the bitmaps acts on a record as `SweepSpan`. */
module Collector {
  import opened Options
  import opened Sums
  import opened Generations
  import opened SpanModel
  import opened FreeChecks

  type SpanId = nat

  datatype Heap = Heap(
    g: nat,
    done: bool,
    pagesSwept: nat,
    pagesInUse: nat,
    spans: seq<Span>,
    buffers: seq<seq<SpanId>>)

  datatype Result =
    | Failed
    | NothingToSweep      // the source's `!0`
    | Pages(pages: nat)   // pages returned to the heap

  predicate Sized(h: Heap) {
    && h.g >= 2 && |h.buffers| == 2
    && forall i, k :: 0 <= i < 2 && 0 <= k < |h.buffers[i]| ==> h.buffers[i][k] < |h.spans|
  }

  function Unswept(h: Heap): seq<SpanId>
    requires |h.buffers| == 2
  {
    h.buffers[1 - SweptIndex(h.g)]
  }

  function Swept(h: Heap): seq<SpanId>
    requires |h.buffers| == 2
  {
    h.buffers[SweptIndex(h.g)]
  }

  /** The locked `free_span`; it leaves the heap alone when it fails. */
  function AfterFreeSpan(h: Heap, x: SpanId): (Heap, bool)
    requires x < |h.spans|
  {
    var s := h.spans[x];
    match PagesAfterFree(s.state, s.allocationsCount, s.generation, s.pages, h.g, h.pagesInUse)
    case None => (h, false)
    case Some(left) => (h.(spans := h.spans[x := s.(state := Free)], pagesInUse := left), true)
  }

  /** `sweep` on a claimed span: `Pages(n)` when it goes back to the heap, `Pages(0)` when it is kept. */
  function AfterSweep(h: Heap, x: SpanId): (r: (Heap, Result))
    requires Sized(h) && x < |h.spans|
    ensures Sized(r.0) && |r.0.spans| == |h.spans|
    ensures r.0.g == h.g && r.0.done == h.done && Unswept(r.0) == Unswept(h)
    ensures r.1 != NothingToSweep
  {
    var swept := h.(pagesSwept := h.pagesSwept + h.spans[x].pages);
    match SweepSpan(h.spans[x], h.g)
    case Panicked(_) => (h, Failed)
    case FreeToHeap(t) =>
      var (h', ok) := AfterFreeSpan(swept.(spans := h.spans[x := t]), x);
      if ok then (h', Pages(t.pages)) else (h, Failed)
    case KeepInUse(t) =>
      (swept.(spans := h.spans[x := t],
              buffers := h.buffers[SweptIndex(h.g) := Swept(h) + [x]]), Pages(0))
  }

  function PopUnswept(h: Heap): Heap
    requires Sized(h) && Unswept(h) != []
  {
    h.(buffers := h.buffers[1 - SweptIndex(h.g) := Unswept(h)[..|Unswept(h)| - 1]])
  }

  /** One round of the loop of `sweep_one`: the heap after it, and the result if the loop stops. */
  function AfterRound(h: Heap): (r: (Heap, Option<Result>))
    requires Sized(h)
    ensures Sized(r.0) && |r.0.spans| == |h.spans| && r.0.g == h.g
    ensures r.1 != Some(NothingToSweep) ==> |Unswept(r.0)| < |Unswept(h)| && r.0.done == h.done
    ensures r.1 == Some(NothingToSweep) ==> Unswept(r.0) == [] && r.0.done
  {
    if Unswept(h) == [] then (h.(done := true), Some(NothingToSweep))
    else
      var x := Unswept(h)[|Unswept(h)| - 1];
      var popped := PopUnswept(h);
      if h.spans[x].state != InUse then
        (popped, if h.spans[x].generation != h.g then Some(Failed) else None)
      else if h.spans[x].generation != h.g - 2 then
        (popped, None)
      else
        var (h', r) := AfterSweep(popped.(spans := h.spans[x := h.spans[x].(generation := h.g - 1)]), x);
        (if r == Failed then popped else h', Some(r))
  }

  /** The loop of `sweep_one`. */
  function AfterLoop(h: Heap): (r: (Heap, Result))
    requires Sized(h)
    ensures Sized(r.0) && |r.0.spans| == |h.spans| && r.0.g == h.g
    ensures r.1 != NothingToSweep ==> |Unswept(r.0)| < |Unswept(h)| && r.0.done == h.done
    ensures r.1 == NothingToSweep ==> Unswept(r.0) == [] && r.0.done
    decreases |Unswept(h)|
  {
    match AfterRound(h)
    case (h', Some(r)) => (h', r)
    case (h', None) => AfterLoop(h')
  }

  function AfterSweepOne(h: Heap): (Heap, Result)
    requires Sized(h)
  {
    if h.done then (h, NothingToSweep) else AfterLoop(h)
  }

  /** The drain loop: the heap afterwards, the results on the way, and whether it went without failure.
      Each round but the last takes a span off the unswept stack, and none puts one on it. */
  function AfterDrain(h: Heap): (Heap, seq<nat>, bool)
    requires Sized(h)
    decreases |Unswept(h)|
  {
    match AfterSweepOne(h)
    case (h', Pages(n)) => var (end, results, ok) := AfterDrain(h'); (end, [n] + results, ok)
    case (h', r) => (h', [], r == NothingToSweep)
  }

  /** Draining `start` came to `from` with the results `results`. */
  ghost predicate Continues(start: Heap, from: Heap, results: seq<nat>)
    requires Sized(start) && Sized(from)
  {
    AfterDrain(start) == (AfterDrain(from).0, results + AfterDrain(from).1, AfterDrain(from).2)
  }

  lemma ContinuesFirst(h: Heap)
    requires Sized(h)
    ensures Continues(h, h, [])
  {
    assert [] + AfterDrain(h).1 == AfterDrain(h).1;
  }

  lemma ContinuesOn(start: Heap, from: Heap, results: seq<nat>, h: Heap, n: nat)
    requires Sized(start) && Sized(from) && Sized(h) && Continues(start, from, results)
    requires AfterSweepOne(from) == (h, Pages(n))
    ensures Continues(start, h, results + [n])
  {
    DrainUnfolds(from, h, n);
    ConcatAssociative(results, [n], AfterDrain(h).1);
  }

  lemma DrainUnfolds(from: Heap, h: Heap, n: nat)
    requires Sized(from) && Sized(h) && AfterSweepOne(from) == (h, Pages(n))
    ensures AfterDrain(from) == (AfterDrain(h).0, [n] + AfterDrain(h).1, AfterDrain(h).2)
  {
  }

  /** The fields of `GC` and of its memory heap that sweeping touches. */
  class GC {
    var sweepGeneration: nat
    var sweepDone: bool
    var sweepers: nat
    var pagesSwept: nat
    var pagesInUse: nat
    var spans: seq<Span>
    var sweepBuffers: seq<seq<SpanId>>
    var backgroundSweeps: nat

    ghost function Model(): Heap
      reads this
    {
      Heap(sweepGeneration, sweepDone, pagesSwept, pagesInUse, spans, sweepBuffers)
    }

    /** Returns a span to the heap; fails on a span that may not be freed. */
    method FreeSpan(x: SpanId) returns (ok: bool)
      requires x < |spans|
      modifies this`spans, this`pagesInUse
      ensures (Model(), ok) == AfterFreeSpan(old(Model()), x)
    {
      var span := spans[x];
      var left := CheckFree(span.state, span.allocationsCount, span.generation, span.pages, sweepGeneration, pagesInUse);
      if left == None {
        return false;
      }
      pagesInUse := left.value;
      spans := spans[x := span.(state := Free)];
      ok := true;
    }

    /** Sweeps span `x` and hands it on. */
    method Sweep(x: SpanId) returns (r: Result)
      requires Sized(Model()) && x < |spans|
      modifies this`spans, this`pagesSwept, this`pagesInUse, this`sweepBuffers
      ensures r == AfterSweep(old(Model()), x).1
      ensures r != Failed ==> Model() == AfterSweep(old(Model()), x).0
    {
      match SweepSpan(spans[x], sweepGeneration) {
        case Panicked(_) =>
          return Failed;
        case FreeToHeap(swept) =>
          pagesSwept := pagesSwept + spans[x].pages;
          spans := spans[x := swept];
          var ok := FreeSpan(x);
          r := if ok then Pages(swept.pages) else Failed;
        case KeepInUse(swept) =>
          pagesSwept := pagesSwept + spans[x].pages;
          spans := spans[x := swept];
          var i := SweptIndex(sweepGeneration);
          sweepBuffers := sweepBuffers[i := sweepBuffers[i] + [x]];
          r := Pages(0);
      }
    }

    /** Pops the unswept stack. */
    method PopSpan() returns (r: Option<SpanId>)
      requires Sized(Model())
      modifies this`sweepBuffers
      ensures r == None <==> Unswept(old(Model())) == []
      ensures r == None ==> Model() == old(Model())
      ensures r.Some? ==> r.value == Unswept(old(Model()))[|Unswept(old(Model()))| - 1] < |spans|
      ensures r.Some? ==> Model() == PopUnswept(old(Model())) && Sized(Model())
    {
      var i := 1 - SweptIndex(sweepGeneration);
      var n := |sweepBuffers[i]|;
      if n == 0 {
        return None;
      }
      r := Some(sweepBuffers[i][n - 1]);
      sweepBuffers := sweepBuffers[i := sweepBuffers[i][..n - 1]];
    }

    /** One round of the loop of `sweep_one`. */
    method Round() returns (r: Option<Result>)
      requires Sized(Model())
      modifies this`spans, this`pagesSwept, this`pagesInUse, this`sweepBuffers, this`sweepDone
      ensures r == AfterRound(old(Model())).1
      ensures r != Some(Failed) ==> Model() == AfterRound(old(Model())).0
    {
      var maybeSpan := PopSpan();
      if maybeSpan == None {
        sweepDone := true;
        return Some(NothingToSweep);
      }
      var x := maybeSpan.value;
      if spans[x].state != InUse {
        // Direct sweeping may have got there first, but then the generation is up to date.
        return if spans[x].generation != sweepGeneration then Some(Failed) else None;
      }
      if spans[x].generation != sweepGeneration - 2 {
        return None;
      }
      spans := spans[x := spans[x].(generation := sweepGeneration - 1)];
      var swept := Sweep(x);
      r := Some(swept);
    }

    /** Sweeps one span.  The answer is the number of pages returned to the heap, if a span was swept. */
    method SweepOne() returns (r: Result)
      requires Sized(Model())
      modifies this`spans, this`pagesSwept, this`pagesInUse, this`sweepBuffers, this`sweepDone, this`sweepers
      ensures r == AfterSweepOne(old(Model())).1
      ensures r != Failed ==> Model() == AfterSweepOne(old(Model())).0 && sweepers == old(sweepers)
      ensures old(sweepDone) ==> r == NothingToSweep && Model() == old(Model())
    {
      if sweepDone {
        return NothingToSweep;
      }
      sweepers := sweepers + 1;
      ghost var from := Model();
      var round := Round();
      while round == None
        invariant Sized(from) && AfterLoop(from) == AfterLoop(old(Model()))
        invariant round == AfterRound(from).1
        invariant round != Some(Failed) ==> Model() == AfterRound(from).0
        invariant sweepers == old(sweepers) + 1
        decreases |Unswept(from)|
      {
        from := Model();
        round := Round();
      }
      sweepers := sweepers - 1;
      r := round.value;
    }

    /** The drain loop of the background sweeper: sweeps until there is nothing to sweep. */
    method Drain() returns (ok: bool)
      requires Sized(Model())
      modifies this
      ensures ok == AfterDrain(old(Model())).2
      ensures ok ==> Model() == AfterDrain(old(Model())).0
      ensures ok ==> backgroundSweeps == old(backgroundSweeps) + |AfterDrain(old(Model())).1|
    {
      ghost var start, from, results := Model(), Model(), [];
      ContinuesFirst(start);
      var r := SweepOne();
      while r.Pages?
        invariant Sized(from) && r == AfterSweepOne(from).1
        invariant r != Failed ==> Model() == AfterSweepOne(from).0
        invariant Continues(start, from, results)
        invariant backgroundSweeps == old(backgroundSweeps) + |results|
        decreases |Unswept(from)|
      {
        backgroundSweeps := backgroundSweeps + 1;
        ContinuesOn(start, from, results, Model(), r.pages);
        from, results := Model(), results + [r.pages];
        r := SweepOne();
      }
      ok := r == NothingToSweep;
    }
  }
}
