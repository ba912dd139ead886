/** What draining the unswept stack does to the heap, and what it would do with the compare-and-swap
    test as the source has it. */
module CollectorTheorems {
  import opened Options
  import opened Sums
  import opened SpanModel
  import opened Collector

  /** A span waiting to be swept. */
  predicate Due(s: Span, g: nat) {
    s.state == InUse && s.generation + 2 == g
  }

  function PagesOf(s: Span): nat {
    if s.state == InUse then s.pages else 0
  }

  function InUsePages(spans: seq<Span>): nat {
    Total(PagesOf, spans)
  }

  function DuePagesOf(g: nat): Span -> nat {
    (s: Span) => if Due(s, g) then s.pages else 0
  }

  function DueOf(g: nat): Span -> nat {
    (s: Span) => if Due(s, g) then 1 else 0
  }

  function DuePages(spans: seq<Span>, g: nat): nat {
    Total(DuePagesOf(g), spans)
  }

  function DueCount(spans: seq<Span>, g: nat): nat {
    Total(DueOf(g), spans)
  }

  ghost predicate NoRepeats(xs: seq<SpanId>) {
    forall i, j :: 0 <= i < j < |xs| ==> xs[i] != xs[j]
  }

  /** A span fit to be swept: its counter is right, and a span of class 0 is one object. */
  ghost predicate Sound(s: Span) {
    Accounted(s) && (s.sizeClass == 0 ==> s.elements == 1)
  }

  ghost predicate SpanConsistent(h: Heap, x: SpanId)
    requires Sized(h) && x < |h.spans|
  {
    var s := h.spans[x];
    && (s.state == InUse ==>
         && Sound(s)
         && (s.generation + 2 == h.g || s.generation == h.g)
         && (Due(s, h.g) ==> x in Unswept(h))
         && (s.generation == h.g ==> x in Swept(h)))
    && (x in Swept(h) ==> s.state == InUse && s.generation == h.g)
    && (x in Unswept(h) ==> Due(s, h.g) || s.generation == h.g)
  }

  /** Each span in use is on its stack, once: with generation g - 2 on the unswept one, with g on the
      swept one.  The unswept stack may also hold spans that direct sweeping has dealt with. */
  ghost predicate Consistent(h: Heap) {
    && Sized(h)
    && NoRepeats(Unswept(h)) && NoRepeats(Swept(h))
    && (h.done ==> Unswept(h) == [])
    && (forall x :: 0 <= x < |h.spans| ==> SpanConsistent(h, x))
    && h.pagesInUse == InUsePages(h.spans)
  }

  /** What sweeping makes of a span: one waiting is swept and, if its one object is unmarked, freed. */
  function Outcome(s: Span, g: nat): Span
    requires g >= 2
  {
    if !Due(s, g) then s
    else match SweepSpan(s.(generation := g - 1), g)
      case FreeToHeap(t) => t.(state := Free)
      case KeepInUse(t) => t
      case Panicked(_) => s
  }

  lemma SumsUpdate(spans: seq<Span>, g: nat, x: nat, s: Span)
    requires x < |spans|
    ensures InUsePages(spans[x := s]) + PagesOf(spans[x]) == InUsePages(spans) + PagesOf(s)
    ensures InUsePages(spans) >= PagesOf(spans[x])
    ensures DuePages(spans[x := s], g) + (if Due(spans[x], g) then spans[x].pages else 0)
         == DuePages(spans, g) + (if Due(s, g) then s.pages else 0)
    ensures DueCount(spans[x := s], g) + (if Due(spans[x], g) then 1 else 0)
         == DueCount(spans, g) + (if Due(s, g) then 1 else 0)
  {
    TotalUpdate(PagesOf, spans, x, s);
    TotalUpdate(DuePagesOf(g), spans, x, s);
    TotalUpdate(DueOf(g), spans, x, s);
  }

  /** The locked `free_span` takes exactly a manual span with no objects, or one in use with no objects
      and the heap's generation; `pages_in_use` never runs short and stays exact. */
  lemma FreeSpanExactly(h: Heap, x: SpanId)
    requires x < |h.spans| && h.pagesInUse == InUsePages(h.spans)
    ensures var (h', ok) := AfterFreeSpan(h, x);
      var s := h.spans[x];
      && (ok <==> s.allocationsCount == 0 && (s.state == Manual || (s.state == InUse && s.generation == h.g)))
      && h'.pagesInUse == InUsePages(h'.spans)
      && |h'.spans| == |h.spans| && h'.buffers == h.buffers
      && (forall y :: 0 <= y < |h.spans| && !(ok && y == x) ==> h'.spans[y] == h.spans[y])
      && (ok ==> h'.spans[x] == s.(state := Free))
  {
    SumsUpdate(h.spans, h.g, x, h.spans[x].(state := Free));
  }

  /** Sweeping a sound span that waits does not fail; what it gives is sound and has the heap's
      generation. */
  lemma OutcomeSound(s: Span, g: nat)
    requires g >= 2 && Due(s, g) && Sound(s)
    ensures var claimed, t := s.(generation := g - 1), Outcome(s, g);
      && t.generation == g && t.pages == s.pages
      && (if t.state == Free
          then SweepSpan(claimed, g) == FreeToHeap(t.(state := InUse)) && t.allocationsCount == 0
          else t.state == InUse && Sound(t) && SweepSpan(claimed, g) == KeepInUse(t))
  {
    var claimed := s.(generation := g - 1);
    ClaimedSound(s, claimed);
    SweepConserves(claimed, g);
    SweptKeepsSize(claimed, g);
  }

  lemma ClaimedSound(s: Span, claimed: Span)
    requires Sound(s) && claimed == s.(generation := claimed.generation)
    ensures Sound(claimed)
  {
    assert Allocated(claimed) == Allocated(s);
  }

  lemma SweptKeepsSize(s: Span, g: nat)
    requires g >= 2 && !SweepSpan(s, g).Panicked?
    ensures var t := SweepSpan(s, g).span;
      t.sizeClass == s.sizeClass && t.elements == s.elements && t.pages == s.pages
  {
  }

  function FreedPages(t: Span): nat {
    if t.state == Free then t.pages else 0
  }

  /** Span `x` of `h`, which waited, has become `t` in `h'` and nothing else has changed, except that
      the unswept stack is now `unswept`. */
  ghost predicate SweptTo(h: Heap, x: SpanId, t: Span, unswept: seq<SpanId>, h': Heap)
    requires Sized(h) && x < |h.spans|
  {
    && Sized(h')
    && h'.g == h.g && h'.done == h.done
    && h'.spans == h.spans[x := t]
    && h'.pagesSwept == h.pagesSwept + h.spans[x].pages
    && h'.pagesInUse + FreedPages(t) == h.pagesInUse
    && Swept(h') == (if t.state == Free then Swept(h) else Swept(h) + [x])
    && Unswept(h') == unswept
  }

  /** The heap after `x` is claimed. */
  function ClaimOnly(h: Heap, x: SpanId): Heap
    requires x < |h.spans| && h.g >= 1
  {
    h.(spans := h.spans[x := h.spans[x].(generation := h.g - 1)])
  }

  lemma SweepGivesOutcome(h: Heap, x: SpanId)
    requires Sized(h) && x < |h.spans| && Due(h.spans[x], h.g) && Sound(h.spans[x])
    requires h.pagesInUse == InUsePages(h.spans)
    ensures var (h', r) := AfterSweep(ClaimOnly(h, x), x);
      var t := Outcome(h.spans[x], h.g);
      SweptTo(h, x, t, Unswept(h), h') && r == Pages(FreedPages(t))
  {
    var s, t := h.spans[x], Outcome(h.spans[x], h.g);
    OutcomeSound(s, h.g);
    SumsUpdate(h.spans, h.g, x, s);
    if t.state == Free {
      SweepFrees(h, x, s.(generation := h.g - 1), t);
    } else {
      SweepKeeps(h, x, s.(generation := h.g - 1), t);
    }
  }

  lemma SweepFrees(h: Heap, x: SpanId, claimed: Span, t: Span)
    requires Sized(h) && x < |h.spans| && claimed == h.spans[x].(generation := h.g - 1)
    requires SweepSpan(claimed, h.g) == FreeToHeap(t.(state := InUse)) && t.state == Free
    requires t.generation == h.g && t.allocationsCount == 0 && t.pages == h.spans[x].pages <= h.pagesInUse
    ensures var (h', r) := AfterSweep(ClaimOnly(h, x), x);
      SweptTo(h, x, t, Unswept(h), h') && r == Pages(t.pages)
  {
    UpdateTwice(h.spans, x, claimed, t.(state := InUse));
    UpdateTwice(h.spans, x, t.(state := InUse), t);
  }

  lemma SweepKeeps(h: Heap, x: SpanId, claimed: Span, t: Span)
    requires Sized(h) && x < |h.spans| && claimed == h.spans[x].(generation := h.g - 1)
    requires SweepSpan(claimed, h.g) == KeepInUse(t) && t.state == InUse
    ensures var (h', r) := AfterSweep(ClaimOnly(h, x), x);
      SweptTo(h, x, t, Unswept(h), h') && r == Pages(0)
  {
    UpdateTwice(h.spans, x, claimed, t);
  }

  lemma UpdateTwice(xs: seq<Span>, x: nat, a: Span, b: Span)
    requires x < |xs|
    ensures xs[x := a][x := b] == xs[x := b]
  {
  }

  // ----- One round

  function Final(h: Heap): seq<Span>
    requires h.g >= 2
  {
    seq(|h.spans|, i requires 0 <= i < |h.spans| => Outcome(h.spans[i], h.g))
  }

  /** From `h` to `h'`, `count` spans were swept and `pages` pages went back to the heap; what is still
      to come is the same. */
  ghost predicate Progress(h: Heap, h': Heap, count: nat, pages: nat)
    requires Sized(h)
  {
    && Consistent(h') && h'.g == h.g
    && Final(h') == Final(h)
    && h'.pagesSwept + DuePages(h'.spans, h.g) == h.pagesSwept + DuePages(h.spans, h.g)
    && DueCount(h'.spans, h.g) + count == DueCount(h.spans, h.g)
    && h'.pagesInUse + pages == h.pagesInUse
  }

  lemma Popped(h: Heap)
    requires Sized(h) && Unswept(h) != []
    ensures var p := PopUnswept(h);
      && Sized(p) && Swept(p) == Swept(h) && Unswept(p) == Unswept(h)[..|Unswept(h)| - 1]
      && p.spans == h.spans && p.g == h.g && p.done == h.done && p.pagesSwept == h.pagesSwept && p.pagesInUse == h.pagesInUse
  {
  }

  /** Popping a span that direct sweeping has dealt with. */
  lemma SkipKeeps(h: Heap)
    requires Consistent(h) && Unswept(h) != []
    requires !Due(h.spans[Unswept(h)[|Unswept(h)| - 1]], h.g)
    ensures Progress(h, PopUnswept(h), 0, 0)
  {
    Popped(h);
    var p := PopUnswept(h);
    forall x | 0 <= x < |p.spans|
      ensures SpanConsistent(p, x)
    {
      assert SpanConsistent(h, x);
    }
  }

  lemma SweptToConsistent(h: Heap, x: SpanId, t: Span, h': Heap)
    requires Consistent(h) && Unswept(h) != [] && x == Unswept(h)[|Unswept(h)| - 1]
    requires Due(h.spans[x], h.g) && t == Outcome(h.spans[x], h.g)
    requires SweptTo(h, x, t, Unswept(h)[..|Unswept(h)| - 1], h')
    ensures Consistent(h')
  {
    assert SpanConsistent(h, x);
    OutcomeSound(h.spans[x], h.g);
    SoundlySwept(h, x, t, h');
  }

  lemma SoundlySwept(h: Heap, x: SpanId, t: Span, h': Heap)
    requires Consistent(h) && Unswept(h) != [] && x == Unswept(h)[|Unswept(h)| - 1] && x !in Swept(h)
    requires SweptTo(h, x, t, Unswept(h)[..|Unswept(h)| - 1], h')
    requires h.spans[x].state == InUse && t.pages == h.spans[x].pages
    requires t.generation == h.g && (t.state == Free || (t.state == InUse && Sound(t)))
    ensures Consistent(h')
  {
    SumsUpdate(h.spans, h.g, x, t);
    forall y | 0 <= y < |h'.spans|
      ensures SpanConsistent(h', y)
    {
      assert SpanConsistent(h, y);
      SweptToSpan(h, x, t, h', y);
    }
  }

  lemma SweptToSpan(h: Heap, x: SpanId, t: Span, h': Heap, y: SpanId)
    requires Sized(h) && Unswept(h) != [] && x == Unswept(h)[|Unswept(h)| - 1] && NoRepeats(Unswept(h))
    requires SweptTo(h, x, t, Unswept(h)[..|Unswept(h)| - 1], h')
    requires t.generation == h.g && (t.state == Free || (t.state == InUse && Sound(t)))
    requires y < |h.spans| && SpanConsistent(h, y) && x !in Swept(h)
    ensures SpanConsistent(h', y)
  {
  }

  lemma SweptToProgress(h: Heap, x: SpanId, t: Span, h': Heap)
    requires Consistent(h) && Unswept(h) != [] && x == Unswept(h)[|Unswept(h)| - 1]
    requires Due(h.spans[x], h.g) && t == Outcome(h.spans[x], h.g)
    requires SweptTo(h, x, t, Unswept(h)[..|Unswept(h)| - 1], h')
    ensures Progress(h, h', 1, FreedPages(t))
  {
    SweptToConsistent(h, x, t, h');
    assert SpanConsistent(h, x);
    OutcomeSound(h.spans[x], h.g);
    SumsUpdate(h.spans, h.g, x, t);
    assert !Due(t, h.g);
    SameFinal(h, x, t, h');
  }

  lemma SameFinal(h: Heap, x: SpanId, t: Span, h': Heap)
    requires h.g >= 2 && x < |h.spans| && h'.g == h.g && h'.spans == h.spans[x := t]
    requires t == Outcome(h.spans[x], h.g) && !Due(t, h.g)
    ensures Final(h') == Final(h)
  {
    forall y | 0 <= y < |h.spans|
      ensures Final(h')[y] == Final(h)[y]
    {
    }
  }

  lemma RoundSweeps(h: Heap, x: SpanId)
    requires Sized(h) && Unswept(h) != [] && x == Unswept(h)[|Unswept(h)| - 1]
    requires Due(h.spans[x], h.g) && Sound(h.spans[x]) && h.pagesInUse == InUsePages(h.spans)
    ensures var t := Outcome(h.spans[x], h.g);
      && AfterRound(h).1 == Some(Pages(FreedPages(t)))
      && SweptTo(h, x, t, Unswept(h)[..|Unswept(h)| - 1], AfterRound(h).0)
  {
    Popped(h);
    var h' := SweepPopped(h, PopUnswept(h), x);
    SweptFromPopped(h, PopUnswept(h), x, Outcome(h.spans[x], h.g), h');
  }

  lemma SweepPopped(h: Heap, p: Heap, x: SpanId) returns (h': Heap)
    requires Sized(h) && Unswept(h) != [] && x == Unswept(h)[|Unswept(h)| - 1] && p == PopUnswept(h)
    requires Sized(p) && Due(h.spans[x], h.g) && Sound(h.spans[x]) && h.pagesInUse == InUsePages(h.spans)
    ensures AfterRound(h) == (h', Some(Pages(FreedPages(Outcome(h.spans[x], h.g)))))
    ensures SweptTo(p, x, Outcome(h.spans[x], h.g), Unswept(p), h')
  {
    SweepGivesOutcome(p, x);
    h' := AfterSweep(ClaimOnly(p, x), x).0;
    SweepRound(h, p, x, h', Pages(FreedPages(Outcome(h.spans[x], h.g))));
  }

  lemma SweptFromPopped(h: Heap, p: Heap, x: SpanId, t: Span, h': Heap)
    requires Sized(h) && Sized(p) && x < |h.spans| && p == h.(buffers := p.buffers) && Swept(p) == Swept(h)
    requires SweptTo(p, x, t, Unswept(p), h')
    ensures SweptTo(h, x, t, Unswept(p), h')
  {
  }

  lemma SweepRound(h: Heap, p: Heap, x: SpanId, h': Heap, r: Result)
    requires Sized(h) && Unswept(h) != [] && x == Unswept(h)[|Unswept(h)| - 1] && Due(h.spans[x], h.g)
    requires p == PopUnswept(h) && Sized(ClaimOnly(p, x)) && AfterSweep(ClaimOnly(p, x), x) == (h', r) && r != Failed
    ensures AfterRound(h) == (h', Some(r))
  {
  }

  /** What a round does with the span on top of the stack, whatever the heap: the span is dropped, and nothing
      else changes, exactly when another has claimed or finished it; a span not in use that was not swept
      in this cycle is an error. */
  lemma RoundAnswers(h: Heap)
    requires Sized(h)
    ensures var (h', r) := AfterRound(h);
      && (r == Some(NothingToSweep) <==> Unswept(h) == [])
      && (Unswept(h) != [] ==>
           var top := h.spans[Unswept(h)[|Unswept(h)| - 1]];
           && (r == None <==> if top.state == InUse then top.generation + 2 != h.g else top.generation == h.g)
           && (top.state != InUse && top.generation != h.g ==> r == Some(Failed))
           && (Due(top, h.g) && Sound(top) && h.pagesInUse == InUsePages(h.spans) ==> r.Some? && r.value.Pages?)
           && (r == None ==> h' == PopUnswept(h)))
  {
    if Unswept(h) != [] {
      var x := Unswept(h)[|Unswept(h)| - 1];
      var p := PopUnswept(h);
      if Due(h.spans[x], h.g) && Sound(h.spans[x]) && h.pagesInUse == InUsePages(h.spans) {
        SweepGivesOutcome(p, x);
      }
    }
  }

  /** A round on a consistent heap does not fail. */
  lemma RoundKeeps(h: Heap)
    requires Consistent(h) && Unswept(h) != []
    ensures AfterRound(h).1 == None ==> Progress(h, AfterRound(h).0, 0, 0)
    ensures AfterRound(h).1.Some? ==>
      AfterRound(h).1.value.Pages? && Progress(h, AfterRound(h).0, 1, AfterRound(h).1.value.pages)
  {
    var x := Unswept(h)[|Unswept(h)| - 1];
    assert SpanConsistent(h, x);
    if Due(h.spans[x], h.g) {
      RoundSweeps(h, x);
      SweptToProgress(h, x, Outcome(h.spans[x], h.g), AfterRound(h).0);
    } else {
      SkipKeeps(h);
    }
  }

  // ----- sweep_one and the drain loop

  lemma ProgressChains(a: Heap, b: Heap, c: Heap, m: nat, n: nat, p: nat, q: nat)
    requires Sized(a) && Sized(b) && Progress(a, b, m, p) && Progress(b, c, n, q)
    ensures Progress(a, c, m + n, p + q)
  {
  }

  lemma {:induction false} LoopKeeps(h: Heap)
    requires Consistent(h)
    ensures var (h', r) := AfterLoop(h);
      && r != Failed
      && (r.Pages? ==> Progress(h, h', 1, r.pages))
      && (r == NothingToSweep ==> Progress(h, h', 0, 0) && DueCount(h.spans, h.g) == 0)
    decreases |Unswept(h)|
  {
    if Unswept(h) == [] {
      var h' := h.(done := true);
      forall x | 0 <= x < |h.spans|
        ensures SpanConsistent(h', x) && !Due(h.spans[x], h.g)
      {
        assert SpanConsistent(h, x);
      }
      NoneDue(h.spans, h.g);
    } else {
      RoundKeeps(h);
      var (h1, r) := AfterRound(h);
      if r == None {
        LoopKeeps(h1);
        var (h', r') := AfterLoop(h1);
        if r'.Pages? {
          ProgressChains(h, h1, h', 0, 1, 0, r'.pages);
        } else {
          ProgressChains(h, h1, h', 0, 0, 0, 0);
        }
      }
    }
  }

  lemma NoneDue(spans: seq<Span>, g: nat)
    requires forall x :: 0 <= x < |spans| ==> !Due(spans[x], g)
    ensures DueCount(spans, g) == 0 && DuePages(spans, g) == 0
  {
    TotalZero(DueOf(g), spans);
    TotalZero(DuePagesOf(g), spans);
  }

  lemma SweepOneKeeps(h: Heap)
    requires Consistent(h)
    ensures var (h', r) := AfterSweepOne(h);
      && r != Failed
      && (r.Pages? ==> Progress(h, h', 1, r.pages))
      && (r == NothingToSweep ==> Progress(h, h', 0, 0) && DueCount(h.spans, h.g) == 0 && h'.done)
  {
    if h.done {
      forall x | 0 <= x < |h.spans|
        ensures !Due(h.spans[x], h.g)
      {
        assert SpanConsistent(h, x);
      }
      NoneDue(h.spans, h.g);
    } else {
      LoopKeeps(h);
    }
  }

  function Sum(ns: seq<nat>): nat {
    if ns == [] then 0 else ns[0] + Sum(ns[1..])
  }

  lemma {:induction false} DrainKeeps(h: Heap)
    requires Consistent(h)
    ensures var (h', results, ok) := AfterDrain(h);
      ok && h'.done && Progress(h, h', |results|, Sum(results)) && |results| == DueCount(h.spans, h.g)
    decreases |Unswept(h)|
  {
    SweepOneKeeps(h);
    var (h1, r) := AfterSweepOne(h);
    if r.Pages? {
      DrainKeeps(h1);
      var (h', results, _) := AfterDrain(h1);
      ProgressChains(h, h1, h', 1, |results|, r.pages, Sum(results));
      var all := [r.pages] + results;
      assert all[1..] == results;
    }
  }

  /** The sweep of a heap: every waiting span becomes its outcome and every other stays as it was. */
  ghost predicate SweptWhole(h: Heap, h': Heap)
    requires Sized(h)
  {
    && |h'.spans| == |h.spans|
    && forall x :: 0 <= x < |h.spans| ==> h'.spans[x] == Outcome(h.spans[x], h.g)
  }

  /** Draining a consistent heap ends, without failure, in a consistent heap with nothing left to
      sweep.  Exactly the waiting spans are swept, each once; `pages_swept` grows by their pages, and
      the results of `sweep_one` add up to the pages returned to the heap. */
  lemma DrainSweepsAll(h: Heap)
    requires Consistent(h)
    ensures var (h', results, ok) := AfterDrain(h);
      && ok && h'.done && Consistent(h') && Unswept(h') == []
      && SweptWhole(h, h')
      && |results| == DueCount(h.spans, h.g)
      && h'.pagesSwept == h.pagesSwept + DuePages(h.spans, h.g)
      && h'.pagesInUse + Sum(results) == h.pagesInUse
  {
    DrainKeeps(h);
    var (h', results, ok) := AfterDrain(h);
    forall x | 0 <= x < |h'.spans|
      ensures !Due(h'.spans[x], h.g)
    {
      assert SpanConsistent(h', x);
    }
    NoneDue(h'.spans, h.g);
    forall x | 0 <= x < |h.spans|
      ensures h'.spans[x] == Outcome(h.spans[x], h.g)
    {
      assert Final(h')[x] == Final(h)[x];
    }
  }

  // ----- The compare-and-swap test as the source has it
  //
  // `compare_and_swap` answers the old value, so the source's test goes on with the loop when the swap
  // has succeeded, dropping the span it has just claimed.

  function AfterLoopAsWritten(h: Heap): (Heap, Result)
    requires Sized(h)
    decreases |Unswept(h)|
  {
    if Unswept(h) == [] then (h.(done := true), NothingToSweep)
    else
      var x := Unswept(h)[|Unswept(h)| - 1];
      var popped := PopUnswept(h);
      if h.spans[x].state != InUse then
        if h.spans[x].generation != h.g then (popped, Failed) else AfterLoopAsWritten(popped)
      else if h.spans[x].generation != h.g - 2 then AfterLoopAsWritten(popped)
      else AfterLoopAsWritten(ClaimOnly(popped, x))
  }

  /** A span that was on the stack to be swept is left claimed by nobody. */
  function Stranded(s: Span, g: nat): Span
    requires g >= 2
  {
    if Due(s, g) then s.(generation := g - 1) else s
  }

  /** The unswept stack holds each waiting span; what it holds besides is up to date. */
  ghost predicate Waiting(h: Heap)
    requires Sized(h)
  {
    && NoRepeats(Unswept(h))
    && forall x :: 0 <= x < |h.spans| ==>
         && (Due(h.spans[x], h.g) ==> x in Unswept(h))
         && (x in Unswept(h) ==> Due(h.spans[x], h.g) || h.spans[x].generation == h.g)
  }

  lemma StrandOne(h: Heap, x: SpanId)
    requires Sized(h) && Waiting(h) && Unswept(h) != [] && x == Unswept(h)[|Unswept(h)| - 1]
    ensures Sized(ClaimOnly(PopUnswept(h), x)) && Unswept(ClaimOnly(PopUnswept(h), x)) == Unswept(h)[..|Unswept(h)| - 1]
    ensures Due(h.spans[x], h.g) ==> Waiting(ClaimOnly(PopUnswept(h), x))
    ensures !Due(h.spans[x], h.g) ==> Waiting(PopUnswept(h))
  {
    Popped(h);
  }

  /** As written, the loop sweeps nothing: it empties the unswept stack, leaving each waiting span in use
      with generation g - 1, on neither stack, and reports that there is nothing to sweep. */
  lemma {:induction false} AsWrittenStrands(h: Heap)
    requires Sized(h) && Waiting(h)
    ensures var (h', r) := AfterLoopAsWritten(h);
      && r == NothingToSweep && h'.done
      && h'.pagesSwept == h.pagesSwept && h'.pagesInUse == h.pagesInUse
      && |h'.spans| == |h.spans|
      && forall x :: 0 <= x < |h.spans| ==> h'.spans[x] == Stranded(h.spans[x], h.g)
    decreases |Unswept(h)|
  {
    if Unswept(h) != [] {
      var x := Unswept(h)[|Unswept(h)| - 1];
      StrandOne(h, x);
      if Due(h.spans[x], h.g) {
        AsWrittenStrands(ClaimOnly(PopUnswept(h), x));
      } else {
        AsWrittenStrands(PopUnswept(h));
      }
    }
  }

  /** The test as written meets the purpose of the sweep exactly on heaps with nothing to sweep. */
  lemma AsWrittenRightExactlyWhenNothingDue(h: Heap)
    requires Consistent(h) && !h.done
    ensures SweptWhole(h, AfterLoopAsWritten(h).0) <==> forall x :: 0 <= x < |h.spans| ==> !Due(h.spans[x], h.g)
  {
    forall x | 0 <= x < |h.spans|
      ensures Due(h.spans[x], h.g) ==> x in Unswept(h)
      ensures x in Unswept(h) ==> Due(h.spans[x], h.g) || h.spans[x].generation == h.g
      ensures Due(h.spans[x], h.g) ==> Outcome(h.spans[x], h.g).generation == h.g
    {
      assert SpanConsistent(h, x);
      if Due(h.spans[x], h.g) { OutcomeSound(h.spans[x], h.g); }
    }
    AsWrittenStrands(h);
    var h' := AfterLoopAsWritten(h).0;
    if x :| 0 <= x < |h.spans| && Due(h.spans[x], h.g) {
      assert h'.spans[x].generation == h.g - 1;
    }
  }
}
