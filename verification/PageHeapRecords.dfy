/** What freeing, merging and inserting do to the records of spans, to which pages are scavenged, and to the
    count of bytes already given back. */
module PageHeapRecords {
  import opened Options
  import opened Released
  import opened SpanModel
  import opened PageHeap
  import opened PageRuns
  import opened PageHeapTheorems

  // ----- Records

  /** Every record but that of span `x` is as it was. */
  ghost predicate OthersSame(h: Heap, h': Heap, x: SpanId) {
    && x < |h.spans| == |h'.spans|
    && forall i :: 0 <= i < |h.spans| && i != x ==> h'.spans[i] == h.spans[i]
  }

  /** Freeing changes the state of one span, and nothing else of any record. */
  ghost predicate OnlyFreed(h: Heap, h': Heap, x: SpanId) {
    && OthersSame(h, h', x)
    && h'.g == h.g && h'.table == h.table && h'.free == h.free && h'.scav == h.scav && h'.current == Some(x)
    && h'.pagesInUse + (if h.spans[x].state == InUse then h.spans[x].pages else 0) == h.pagesInUse
    && var s, s' := h.spans[x], h'.spans[x];
      && s'.state == State.Free && s'.start == s.start && s'.pages == s.pages && s'.needZero == s.needZero
      && s'.scavenged == s.scavenged && s'.allocationsCount == s.allocationsCount && s'.generation == s.generation
  }

  /** Merging `o` grows the current span over it, takes `o` out of the free spans, and changes nothing else
      of any record. */
  ghost predicate OnlyMerged(h: Heap, h': Heap, x: SpanId, o: SpanId) {
    && OthersSame(h, h', x) && o < |h.spans|
    && h'.g == h.g && h'.free == h.free - {o} && h'.scav == h.scav - {o} && h'.current == Some(x)
    && h'.pagesInUse == h.pagesInUse
    && var s, other, s' := h.spans[x], h.spans[o], h'.spans[x];
      && s'.start == (if s.start < other.start then s.start else other.start)
      && s'.pages == s.pages + other.pages
      && (s'.needZero <==> s.needZero || other.needZero)
      && s'.scavenged == s.scavenged && s'.state == s.state
      && s'.allocationsCount == s.allocationsCount && s'.generation == s.generation
  }

  /** Inserting puts the current span with the free spans of its kind, and changes no record. */
  ghost predicate OnlyInserted(h: Heap, h': Heap, x: SpanId) {
    && x < |h.spans| && h'.spans == h.spans && h'.table == h.table && h'.g == h.g && h'.pagesInUse == h.pagesInUse
    && h'.current == None
    && (if h.spans[x].scavenged then h'.scav == h.scav + {x} && h'.free == h.free
        else h'.free == h.free + {x} && h'.scav == h.scav)
  }

  lemma StepRecords(m: Machine, h: Heap, step: Step)
    requires Supported(m) && PageHeapTheorems.Inv(m, h) && Enabled(h, step) && After(m, h, step).Some?
    ensures var h' := After(m, h, step).value;
      match step
      case FreeSpan(x) => OnlyFreed(h, h', x)
      case MergeSpan(o) => h.current.Some? && OnlyMerged(h, h', h.current.value, o)
      case InsertSpan => h.current.Some? && OnlyInserted(h, h', h.current.value)
  {
    match step
    case FreeSpan(x) =>
      assert Part(h, x);
    case MergeSpan(o) =>
      MergeRecords(m, h, o);
    case InsertSpan =>
  }

  lemma MergeRecords(m: Machine, h: Heap, o: SpanId)
    requires Supported(m) && PageHeapTheorems.Inv(m, h) && CanMerge(h, o) && After(m, h, MergeSpan(o)).Some?
    ensures h.current.Some? && OnlyMerged(h, After(m, h, MergeSpan(o)).value, h.current.value, o)
  {
    MergeInBounds(m, h, o);
    MergedRecords(m, h, o, After(m, h, MergeSpan(o)).value);
  }

  lemma MergedRecords(m: Machine, h: Heap, o: SpanId, h': Heap)
    requires Supported(m) && Sorted(h) && CanMerge(h, o)
    requires Mergeable(m, h, o) && AfterMerge(m, h, o) == Some(h')
    ensures OnlyMerged(h, h', h.current.value, o)
  {
  }

  // ----- Scavenged pages

  /** The page lies in a part that is scavenged. */
  ghost predicate InScavenged(h: Heap, p: nat) {
    exists i: nat :: Part(h, i) && h.spans[i].scavenged && Within(h.spans[i], p)
  }

  /** The page lies in the span that the step merges. */
  ghost predicate Joins(h: Heap, step: Step, p: nat) {
    step.MergeSpan? && step.o < |h.spans| && Within(h.spans[step.o], p)
  }

  lemma SamePartsScavenged(h: Heap, h': Heap, p: nat)
    requires |h'.spans| == |h.spans| && forall i: nat :: Part(h', i) <==> Part(h, i)
    requires forall i: nat :: i < |h.spans| ==>
               && h'.spans[i].start == h.spans[i].start && h'.spans[i].pages == h.spans[i].pages
               && h'.spans[i].scavenged == h.spans[i].scavenged
    ensures InScavenged(h', p) <==> InScavenged(h, p)
  {
    if i: nat :| Part(h, i) && h.spans[i].scavenged && Within(h.spans[i], p) {
      assert Part(h', i) && h'.spans[i].scavenged && Within(h'.spans[i], p);
    }
  }

  lemma MergeScavenged(h: Heap, t: PageTable, mapped: iset<nat>, physical: Physical,
                       o: SpanId, r: nat, h': Heap, t': PageTable, p: nat)
    requires PageRuns.Inv(h, t, mapped, physical) && Merged(h, t, o, r, h', t')
    ensures InScavenged(h', p) <==>
      if Within(h.spans[o], p) then h.spans[h.current.value].scavenged else InScavenged(h, p)
  {
    MergeParts(h, t, o, r, h', t');
    var x := h.current.value;
    JoinedRun(h.spans[x], h.spans[o], mapped, physical);
    if i: nat :| Part(h', i) && h'.spans[i].scavenged && Within(h'.spans[i], p) {
      assert Part(h, i) && (i == x || (h'.spans[i] == h.spans[i] && Apart(h.spans[i], h.spans[o])));
    }
    if Within(h.spans[o], p) {
      assert Part(h', x) && Within(h'.spans[x], p);
    } else if i: nat :| Part(h, i) && h.spans[i].scavenged && Within(h.spans[i], p) {
      assert i != o && Part(h', i) && h'.spans[i].scavenged && Within(h'.spans[i], p);
    }
  }

  /** A merge gives the pages of the merged span the kind of the current one; no other page changes its kind,
      at a merge or at any other step. */
  lemma StepScavenged(m: Machine, h: Heap, step: Step, p: nat)
    requires Supported(m) && PageHeapTheorems.Inv(m, h) && Enabled(h, step) && After(m, h, step).Some?
    ensures Joins(h, step, p) ==> h.current.Some? && h.current.value < |h.spans|
    ensures InScavenged(After(m, h, step).value, p) <==>
      if Joins(h, step, p) then h.spans[h.current.value].scavenged else InScavenged(h, p)
  {
    var h' := After(m, h, step).value;
    StepRecords(m, h, step);
    match step
    case FreeSpan(x) =>
      SamePartsScavenged(h, h', p);
    case MergeSpan(o) =>
      MergeInBounds(m, h, o);
      MergeIsMerged(m, h, o, h');
      MergeScavenged(h, PagesOf(m, h.table), MappedPages(m), m.physical, o,
                     ReleasedOf(h.spans[o], m.physical).value, h', PagesOf(m, h'.table), p);
    case InsertSpan =>
      SamePartsScavenged(h, h', p);
  }

  /** Somewhere along the run the page lies in a span that is merged into one of the kind given. */
  ghost predicate JoinedTo(m: Machine, h: Heap, steps: seq<Step>, h': Heap, p: nat, scavenged: bool)
    requires Supported(m) && PageHeapTheorems.Inv(m, h) && Leads(m, h, steps, h')
    decreases |steps|
  {
    steps != [] &&
      (FirstStep(m, h, steps, h');
       || (&& Joins(h, steps[0], p) && h.current.Some? && h.current.value < |h.spans|
           && h.spans[h.current.value].scavenged == scavenged)
       || JoinedTo(m, After(m, h, steps[0]).value, steps[1..], h', p, scavenged))
  }

  /** Over any run, a page comes to be scavenged only by being merged into a scavenged span, and ceases to be
      only by being merged into one that is not. */
  lemma {:induction false} RunScavenged(m: Machine, h: Heap, steps: seq<Step>, h': Heap, p: nat)
    requires Supported(m) && PageHeapTheorems.Inv(m, h) && Leads(m, h, steps, h')
    ensures InScavenged(h', p) ==> InScavenged(h, p) || JoinedTo(m, h, steps, h', p, true)
    ensures InScavenged(h, p) ==> InScavenged(h', p) || JoinedTo(m, h, steps, h', p, false)
    decreases |steps|
  {
    if steps != [] {
      FirstStep(m, h, steps, h');
      StepScavenged(m, h, steps[0], p);
      RunScavenged(m, After(m, h, steps[0]).value, steps[1..], h', p);
    }
  }

  // ----- What is counted as given back

  /** What a span has given back. */
  ghost function Given(m: Machine, s: Run): int {
    GivenBack(Base(s), s.pages, s.scavenged, m.physical)
  }

  /** Freeing a span counts what it had given back, nothing if it is not scavenged; merging adds what the
      merged span had. */
  lemma StepCounts(m: Machine, h: Heap, step: Step)
    requires Supported(m) && PageHeapTheorems.Inv(m, h) && Enabled(h, step) && After(m, h, step).Some?
    ensures var h' := After(m, h, step).value;
      match step
      case FreeSpan(x) => h'.prescavenged == Given(m, h.spans[x]) && (!h.spans[x].scavenged ==> h'.prescavenged == 0)
      case MergeSpan(o) =>
        && h'.prescavenged == h.prescavenged + Given(m, h.spans[o])
        && (o in h.free ==> h'.prescavenged == h.prescavenged)
      case InsertSpan => h'.prescavenged == h.prescavenged
  {
    match step
    case FreeSpan(x) =>
      PartPlaced(m, h, x);
      var s := h.spans[x];
      ReleasedIsGivenBack(Base(s), s.pages, s.scavenged, m.physical);
    case MergeSpan(o) =>
      MergeInBounds(m, h, o);
      var s := h.spans[o];
      ReleasedIsGivenBack(Base(s), s.pages, s.scavenged, m.physical);
    case InsertSpan =>
  }

  /** What the spans merged along the run had given back. */
  ghost function GivenAlong(m: Machine, h: Heap, steps: seq<Step>, h': Heap): int
    requires Supported(m) && PageHeapTheorems.Inv(m, h) && Leads(m, h, steps, h') && Merges(steps, {})
    decreases |steps|
  {
    if steps == [] then 0
    else
      FirstStep(m, h, steps, h');
      Given(m, h.spans[steps[0].o]) + GivenAlong(m, After(m, h, steps[0]).value, steps[1..], h')
  }

  lemma {:induction false} MergesCount(m: Machine, h: Heap, steps: seq<Step>, h': Heap)
    requires Supported(m) && PageHeapTheorems.Inv(m, h) && Leads(m, h, steps, h') && Merges(steps, {})
    ensures h'.prescavenged == h.prescavenged + GivenAlong(m, h, steps, h')
    decreases |steps|
  {
    if steps != [] {
      FirstStep(m, h, steps, h');
      assert steps[0] == MergeSpan(steps[0].o);
      StepCounts(m, h, steps[0]);
      MergesCount(m, After(m, h, steps[0]).value, steps[1..], h');
    }
  }

  /** Coalescing, from the freeing of any span through any merges: what is counted is what the scavenged ones
      among the pieces had given back, and nothing else. */
  lemma CoalescingCounts(m: Machine, h: Heap, x: SpanId, h1: Heap, steps: seq<Step>, h': Heap)
    requires Supported(m) && PageHeapTheorems.Inv(m, h) && Enabled(h, FreeSpan(x)) && After(m, h, FreeSpan(x)) == Some(h1)
    requires PageHeapTheorems.Inv(m, h1) && Leads(m, h1, steps, h') && Merges(steps, {})
    ensures h'.prescavenged == Given(m, h.spans[x]) + GivenAlong(m, h1, steps, h')
  {
    StepCounts(m, h, FreeSpan(x));
    MergesCount(m, h1, steps, h');
  }
}
