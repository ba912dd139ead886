/** Coalescing through the arena map: any run of freeing, merging and inserting keeps the heap a
    partition of the same pages, and never writes outside the arena map. */
module PageHeapTheorems {
  import opened Options
  import opened Powers
  import opened Words
  import opened ArenaIndex
  import opened Released
  import opened PageHeap
  import opened PageRuns

  // ----- The arena map is a page table

  ghost function SlotOfPage(m: Machine, p: nat): Slot
    requires Supported(m)
  {
    SlotAt(m, p * PAGE_SIZE)
  }

  ghost function PagesOf(m: Machine, table: map<Slot, SpanId>): PageTable
    requires Supported(m)
  {
    imap p: nat | p * PAGE_SIZE < WORD && SlotOfPage(m, p) in table :: table[SlotOfPage(m, p)]
  }

  ghost function MappedPages(m: Machine): iset<nat>
    requires Supported(m)
  {
    iset p: nat | p * PAGE_SIZE < WORD && Mapped(m, p * PAGE_SIZE)
  }

  ghost predicate Contains(p: nat, address: nat) {
    p * PAGE_SIZE <= address < p * PAGE_SIZE + PAGE_SIZE && address < WORD
  }

  lemma SlotIsPageSlot(m: Machine, address: nat, p: nat)
    requires Supported(m) && Contains(p, address)
    ensures SlotAt(m, address) == SlotOfPage(m, p)
  {
    CommonPowers();
    DivUnique(address, PAGE_SIZE, p, address - p * PAGE_SIZE);
    DivUnique(p * PAGE_SIZE, PAGE_SIZE, p, 0);
    OneSlotPerPage(m.layout, address, p * PAGE_SIZE);
  }

  lemma PagesHaveOwnSlots(m: Machine, p: nat, q: nat)
    requires Supported(m) && p * PAGE_SIZE < WORD && q * PAGE_SIZE < WORD && p != q
    ensures SlotOfPage(m, p) != SlotOfPage(m, q)
  {
    CommonPowers();
    DivUnique(p * PAGE_SIZE, PAGE_SIZE, p, 0);
    DivUnique(q * PAGE_SIZE, PAGE_SIZE, q, 0);
    OneSlotPerPage(m.layout, p * PAGE_SIZE, q * PAGE_SIZE);
  }

  /** Setting the span of an address changes the entry of its page and no other. */
  lemma SetSpanSetsOnePage(m: Machine, h: Heap, address: nat, q: nat, x: SpanId)
    requires Supported(m) && Contains(q, address)
    ensures PagesOf(m, AfterSetSpan(m, h, address, x).table) == PagesOf(m, h.table)[q := x]
  {
    SlotIsPageSlot(m, address, q);
    forall p: nat | p * PAGE_SIZE < WORD && p != q
      ensures SlotOfPage(m, p) != SlotOfPage(m, q)
    {
      PagesHaveOwnSlots(m, p, q);
    }
  }

  // ----- Steps

  ghost predicate Inv(m: Machine, h: Heap)
    requires Supported(m)
  {
    PageRuns.Inv(h, PagesOf(m, h.table), MappedPages(m), m.physical)
  }

  lemma PartPlaced(m: Machine, h: Heap, i: SpanId)
    requires Supported(m) && Inv(m, h) && Part(h, i)
    ensures i < |h.spans| && Placed(h.spans[i], MappedPages(m), m.physical)
  {
  }

  lemma RewrittenWithin(s: Run, other: Run, mapped: iset<nat>, physical: Physical)
    requires Placed(s, mapped, physical) && Placed(other, mapped, physical) && Adjacent(s, other)
    ensures RewrittenPage(s, other) >= 0 && RewrittenPage(s, other) in mapped
    ensures Contains(RewrittenPage(s, other), RewrittenAddress(s, other))
  {
    assert Within(other, RewrittenPage(s, other));
  }

  /** A merge is defined, and writes within the tables. */
  lemma MergeInBounds(m: Machine, h: Heap, o: SpanId)
    requires Supported(m) && Inv(m, h) && CanMerge(h, o)
    ensures Mergeable(m, h, o) && Mapped(m, RewrittenAddress(h.spans[h.current.value], h.spans[o]))
  {
    var x := h.current.value;
    assert Part(h, x) && Part(h, o);
    PartPlaced(m, h, x);
    PartPlaced(m, h, o);
    RewrittenWithin(h.spans[x], h.spans[o], MappedPages(m), m.physical);
    SlotIsPageSlot(m, RewrittenAddress(h.spans[x], h.spans[o]), RewrittenPage(h.spans[x], h.spans[o]));
  }

  lemma ReleasedWithin(m: Machine, s: Run)
    requires Fits(Base(s), s.pages, m.physical) && ReleasedOf(s, m.physical).Some?
    ensures ReleasedOf(s, m.physical).value <= s.pages * PAGE_SIZE
  {
    if s.scavenged {
      ReleasedAtMost(Base(s), s.pages, m.physical);
    }
  }

  lemma MergeIsMerged(m: Machine, h: Heap, o: SpanId, h': Heap)
    requires Supported(m) && Inv(m, h) && CanMerge(h, o)
    requires Mergeable(m, h, o) && AfterMerge(m, h, o) == Some(h')
    ensures ReleasedOf(h.spans[o], m.physical).Some?
    ensures Merged(h, PagesOf(m, h.table), o, ReleasedOf(h.spans[o], m.physical).value, h', PagesOf(m, h'.table))
  {
    var x, s, other := h.current.value, h.spans[h.current.value], h.spans[o];
    assert Part(h, x) && Part(h, o);
    PartPlaced(m, h, x);
    PartPlaced(m, h, o);
    RewrittenWithin(s, other, MappedPages(m), m.physical);
    SetSpanSetsOnePage(m, h, RewrittenAddress(s, other), RewrittenPage(s, other), x);
    ReleasedWithin(m, other);
  }

  datatype Step =
    | FreeSpan(x: SpanId)
    | MergeSpan(o: SpanId)
    | InsertSpan

  ghost predicate Enabled(h: Heap, step: Step) {
    match step
    case FreeSpan(x) => h.current == None && x < |h.spans| && Busy(h.spans[x])
    case MergeSpan(o) => CanMerge(h, o)
    case InsertSpan => h.current.Some?
  }

  /** `None` when the arithmetic of `released` fails. */
  ghost function After(m: Machine, h: Heap, step: Step): Option<Heap>
    requires Supported(m) && Inv(m, h) && Enabled(h, step)
  {
    match step
    case FreeSpan(x) => assert Part(h, x); AfterFree(m, h, x)
    case MergeSpan(o) => MergeInBounds(m, h, o); AfterMerge(m, h, o)
    case InsertSpan => Some(AfterInsert(h))
  }

  // When a step has a result

  /** The bounds of what a span has released do not cross: it is not scavenged, or the bounds are not
      rounded, or the span meets a boundary between physical pages. */
  ghost predicate MeetsBoundary(m: Machine, s: Run) {
    || !s.scavenged
    || PhysicalPage(m.physical) <= PAGE_SIZE
    || exists j: nat :: Base(s) <= j * PhysicalPage(m.physical) <= End(Base(s), s.pages)
  }

  lemma ReleasedExactly(m: Machine, s: Run)
    requires Fits(Base(s), s.pages, m.physical)
    ensures ReleasedOf(s, m.physical).Some? <==> MeetsBoundary(m, s)
  {
    if s.scavenged && PhysicalPage(m.physical) > PAGE_SIZE {
      DefinedExactly(Base(s), s.pages, m.physical);
    }
  }

  /** The span passes the checks of the locked free, on a heap whose count of pages in use is exact. */
  ghost predicate MayBeFreed(h: Heap, s: Run) {
    s.allocationsCount == 0 && (s.state.InUse? ==> s.generation == h.g)
  }

  /** Freeing fails exactly for a span that holds objects, for one in use that has not been swept, and for a
      scavenged one that meets no boundary between larger physical pages; merging exactly for a neighbour of
      the last kind; inserting never. */
  lemma StepDefinedExactly(m: Machine, h: Heap, step: Step)
    requires Supported(m) && Inv(m, h) && Enabled(h, step) && PagesCounted(h)
    ensures After(m, h, step).Some? <==>
      match step
      case FreeSpan(x) => MayBeFreed(h, h.spans[x]) && MeetsBoundary(m, h.spans[x])
      case MergeSpan(o) => MeetsBoundary(m, h.spans[o])
      case InsertSpan => true
  {
    match step
    case FreeSpan(x) =>
      PartPlaced(m, h, x);
      ReleasedExactly(m, h.spans[x]);
      InUseCounted(h, x);
    case MergeSpan(o) =>
      MergeInBounds(m, h, o);
      ReleasedExactly(m, h.spans[o]);
    case InsertSpan =>
  }

  lemma StepKeeps(m: Machine, h: Heap, step: Step)
    requires Supported(m) && Inv(m, h) && Enabled(h, step) && After(m, h, step).Some?
    ensures Inv(m, After(m, h, step).value)
    ensures forall p: nat :: Holds(h, p) <==> Holds(After(m, h, step).value, p)
  {
    var h' := After(m, h, step).value;
    var t, mapped := PagesOf(m, h.table), MappedPages(m);
    match step
    case FreeSpan(x) =>
      PartPlaced(m, h, x);
      ReleasedWithin(m, h.spans[x]);
      FreeKeeps(h, t, mapped, m.physical, x, ReleasedOf(h.spans[x], m.physical).value, h');
    case MergeSpan(o) =>
      MergeInBounds(m, h, o);
      MergeIsMerged(m, h, o, h');
      MergeKeeps(h, t, mapped, m.physical, o, ReleasedOf(h.spans[o], m.physical).value, h', PagesOf(m, h'.table));
    case InsertSpan =>
      InsertKeeps(h, t, mapped, m.physical);
  }

  lemma StepKeepsDirty(m: Machine, h: Heap, step: Step, dirty: iset<nat>)
    requires Supported(m) && Inv(m, h) && Enabled(h, step) && After(m, h, step).Some?
    requires DirtyMarked(h, dirty)
    ensures DirtyMarked(After(m, h, step).value, dirty)
  {
    var h' := After(m, h, step).value;
    match step
    case FreeSpan(x) =>
      assert Part(h, x);
    case MergeSpan(o) =>
      MergeInBounds(m, h, o);
      MergeIsMerged(m, h, o, h');
      MergeKeepsDirty(h, PagesOf(m, h.table), MappedPages(m), m.physical, o,
                      ReleasedOf(h.spans[o], m.physical).value, h', PagesOf(m, h'.table), dirty);
    case InsertSpan =>
  }

  lemma StepKeepsCount(m: Machine, h: Heap, step: Step)
    requires Supported(m) && Inv(m, h) && Enabled(h, step) && After(m, h, step).Some? && PagesCounted(h)
    ensures PagesCounted(After(m, h, step).value)
  {
    var h' := After(m, h, step).value;
    match step
    case FreeSpan(x) =>
      PartPlaced(m, h, x);
      ReleasedWithin(m, h.spans[x]);
      FreeKeepsCount(h, x, ReleasedOf(h.spans[x], m.physical).value, h');
    case MergeSpan(o) =>
      MergeInBounds(m, h, o);
      MergeIsMerged(m, h, o, h');
      MergeKeepsCount(h, PagesOf(m, h.table), o, ReleasedOf(h.spans[o], m.physical).value, h', PagesOf(m, h'.table));
    case InsertSpan =>
  }

  /** The steps can be taken from `h` one after the other, and lead to `h'`. */
  ghost predicate Leads(m: Machine, h: Heap, steps: seq<Step>, h': Heap)
    requires Supported(m) && Inv(m, h)
    decreases |steps|
  {
    if steps == [] then h' == h
    else
      && Enabled(h, steps[0])
      && After(m, h, steps[0]).Some?
      && (StepKeeps(m, h, steps[0]); Leads(m, After(m, h, steps[0]).value, steps[1..], h'))
  }

  /** Over any run the spans stay disjoint and rightly tagged, they hold the same pages as before, and
      their page counts have the same total. */
  lemma {:induction false} RunKeeps(m: Machine, h: Heap, steps: seq<Step>, h': Heap)
    requires Supported(m) && Inv(m, h) && Leads(m, h, steps, h')
    ensures Inv(m, h')
    ensures forall p: nat :: Holds(h, p) <==> Holds(h', p)
    ensures TotalPages(h) == TotalPages(h')
    decreases |steps|
  {
    if steps != [] {
      StepKeeps(m, h, steps[0]);
      RunKeeps(m, After(m, h, steps[0]).value, steps[1..], h');
      SamePagesSameTotal(h, h', PagesOf(m, h.table), PagesOf(m, h'.table), MappedPages(m), m.physical);
    }
  }

  /** Over any run `pages_in_use` stays the number of pages of the spans in use, and all pages of the heap
      are those, the manually managed ones and the free ones. */
  lemma {:induction false} RunKeepsCount(m: Machine, h: Heap, steps: seq<Step>, h': Heap)
    requires Supported(m) && Inv(m, h) && Leads(m, h, steps, h') && PagesCounted(h)
    ensures PagesCounted(h')
    ensures TotalPages(h') == h'.pagesInUse + ManualPages(h') + FreePages(h')
    decreases |steps|
  {
    if steps == [] {
      AllPagesByState(h);
    } else {
      StepKeeps(m, h, steps[0]);
      StepKeepsCount(m, h, steps[0]);
      RunKeepsCount(m, After(m, h, steps[0]).value, steps[1..], h');
    }
  }

  /** Over any run, a page that has to be zeroed stays in a span marked so. */
  lemma {:induction false} RunKeepsDirty(m: Machine, h: Heap, steps: seq<Step>, h': Heap, dirty: iset<nat>)
    requires Supported(m) && Inv(m, h) && Leads(m, h, steps, h') && DirtyMarked(h, dirty)
    ensures DirtyMarked(h', dirty)
    decreases |steps|
  {
    if steps != [] {
      StepKeeps(m, h, steps[0]);
      StepKeepsDirty(m, h, steps[0], dirty);
      RunKeepsDirty(m, After(m, h, steps[0]).value, steps[1..], h', dirty);
    }
  }

  /** Looking up the page of any span in use, or the lowest or highest page of a free span, finds it. */
  lemma LookupFinds(m: Machine, h: Heap, i: SpanId, address: nat, p: nat)
    requires Supported(m) && Inv(m, h) && Part(h, i) && Contains(p, address)
    requires Within(h.spans[i], p)
    requires Busy(h.spans[i]) || p == h.spans[i].start || p == h.spans[i].start + h.spans[i].pages - 1
    ensures SlotAt(m, address) in h.table && h.table[SlotAt(m, address)] == i
  {
    SlotIsPageSlot(m, address, p);
    assert Tagged(PagesOf(m, h.table), h.spans[i], i);
    assert LeadsTo(PagesOf(m, h.table), p, i);
  }

  // ----- What coalescing knows to have been given back

  /** Bytes of the physical pages that become whole when two runs are joined. */
  ghost function Gap(m: Machine, s: Run, other: Run): nat {
    if OnBoundary(if other.start < s.start then Base(s) else Base(other), m.physical) then 0
    else PhysicalPage(m.physical)
  }

  lemma JoinReleases(m: Machine, s: Run, other: Run)
    requires Adjacent(s, other) && s.scavenged && other.scavenged
    requires Fits(Base(s), s.pages, m.physical) && Fits(Base(other), other.pages, m.physical)
    requires s.pages >= 1 && other.pages >= 1
    requires ReleasedOf(s, m.physical).Some? && ReleasedOf(other, m.physical).Some?
    ensures Fits(Base(Joined(s, other)), Joined(s, other).pages, m.physical)
    ensures ReleasedOf(Joined(s, other), m.physical) ==
      Some(ReleasedOf(s, m.physical).value + ReleasedOf(other, m.physical).value + Gap(m, s, other))
  {
    if other.start < s.start {
      AdjoiningReleases(other, s, m.physical);
    } else {
      AdjoiningReleases(s, other, m.physical);
    }
  }

  lemma AdjoiningReleases(low: Run, high: Run, physical: Physical)
    requires low.start + low.pages == high.start && low.scavenged && high.scavenged
    requires Fits(Base(low), low.pages, physical) && Fits(Base(high), high.pages, physical)
    requires ReleasedOf(low, physical).Some? && ReleasedOf(high, physical).Some?
    ensures Fits(Base(low), low.pages + high.pages, physical)
    ensures ReleasedBytes(Base(low), low.pages + high.pages, true, physical) ==
      Some(ReleasedOf(low, physical).value + ReleasedOf(high, physical).value
           + if OnBoundary(Base(high), physical) then 0 else PhysicalPage(physical))
  {
    assert End(Base(low), low.pages) == Base(high);
    ReleasedOfJoin(Base(low), low.pages, high.pages, physical);
  }

  /** The steps are merges, of spans that are not in `free`. */
  ghost predicate Merges(steps: seq<Step>, free: set<SpanId>) {
    forall k :: 0 <= k < |steps| ==> steps[k].MergeSpan? && steps[k].o !in free
  }

  lemma FirstStep(m: Machine, h: Heap, steps: seq<Step>, h': Heap)
    requires Supported(m) && Inv(m, h) && Leads(m, h, steps, h') && steps != []
    ensures Enabled(h, steps[0]) && After(m, h, steps[0]).Some? && Inv(m, After(m, h, steps[0]).value)
    ensures Leads(m, After(m, h, steps[0]).value, steps[1..], h')
  {
    StepKeeps(m, h, steps[0]);
  }

  /** The gaps closed along a run of merges. */
  ghost function Gaps(m: Machine, h: Heap, steps: seq<Step>, h': Heap): nat
    requires Supported(m) && Inv(m, h) && Leads(m, h, steps, h') && Merges(steps, {})
    decreases |steps|
  {
    if steps == [] then 0
    else
      FirstStep(m, h, steps, h');
      Gap(m, h.spans[h.current.value], h.spans[steps[0].o]) + Gaps(m, After(m, h, steps[0]).value, steps[1..], h')
  }

  /** The span being coalesced is scavenged, and `released` is defined on it. */
  ghost predicate CurrentScavenged(m: Machine, h: Heap) {
    && h.current.Some? && h.current.value < |h.spans|
    && var s := h.spans[h.current.value];
      && s.scavenged && Fits(Base(s), s.pages, m.physical) && ReleasedOf(s, m.physical).Some?
  }

  /** What the span being coalesced has released, less what has been counted. */
  ghost function Uncounted(m: Machine, h: Heap): int
    requires CurrentScavenged(m, h)
  {
    ReleasedOf(h.spans[h.current.value], m.physical).value - h.prescavenged
  }

  lemma MergeReleases(m: Machine, h: Heap, o: SpanId)
    requires Supported(m) && Inv(m, h) && Enabled(h, MergeSpan(o)) && After(m, h, MergeSpan(o)).Some?
    requires CurrentScavenged(m, h) && o !in h.free
    ensures var h' := After(m, h, MergeSpan(o)).value;
      && CurrentScavenged(m, h') && h'.free == h.free
      && Uncounted(m, h') == Uncounted(m, h) + Gap(m, h.spans[h.current.value], h.spans[o])
  {
    var h' := After(m, h, MergeSpan(o)).value;
    MergeInBounds(m, h, o);
    MergeIsMerged(m, h, o, h');
    assert Part(h, h.current.value) && Part(h, o);
    PartPlaced(m, h, h.current.value);
    PartPlaced(m, h, o);
    JoinReleases(m, h.spans[h.current.value], h.spans[o]);
  }

  /** Merging scavenged spans into a scavenged span: what the result has released beyond what was counted
      from its pieces is one physical page for each joint that cut one. */
  lemma {:induction false} MergesRelease(m: Machine, h: Heap, steps: seq<Step>, h': Heap)
    requires Supported(m) && Inv(m, h) && Leads(m, h, steps, h')
    requires Merges(steps, {}) && Merges(steps, h.free)
    requires CurrentScavenged(m, h)
    ensures CurrentScavenged(m, h')
    ensures Uncounted(m, h') == Uncounted(m, h) + Gaps(m, h, steps, h')
    decreases |steps|
  {
    if steps != [] {
      var h1, gap := FirstMerge(m, h, steps, h');
      MergesRelease(m, h1, steps[1..], h');
    }
  }

  lemma FirstMerge(m: Machine, h: Heap, steps: seq<Step>, h': Heap) returns (h1: Heap, gap: nat)
    requires Supported(m) && Inv(m, h) && Leads(m, h, steps, h') && steps != []
    requires Merges(steps, {}) && Merges(steps, h.free)
    requires CurrentScavenged(m, h)
    ensures Inv(m, h1) && Leads(m, h1, steps[1..], h')
    ensures Merges(steps[1..], {}) && Merges(steps[1..], h1.free)
    ensures CurrentScavenged(m, h1) && Uncounted(m, h1) == Uncounted(m, h) + gap
    ensures Gaps(m, h, steps, h') == gap + Gaps(m, h1, steps[1..], h')
  {
    FirstStep(m, h, steps, h');
    var o := steps[0].o;
    assert steps[0] == MergeSpan(o);
    h1, gap := MergeOnce(m, h, o);
    FirstGap(m, h, steps, h', o, h1);
  }

  lemma MergeOnce(m: Machine, h: Heap, o: SpanId) returns (h1: Heap, gap: nat)
    requires Supported(m) && Inv(m, h) && Enabled(h, MergeSpan(o)) && After(m, h, MergeSpan(o)).Some?
    requires CurrentScavenged(m, h) && o !in h.free
    ensures After(m, h, MergeSpan(o)) == Some(h1) && gap == Gap(m, h.spans[h.current.value], h.spans[o])
    ensures CurrentScavenged(m, h1) && h1.free == h.free && Uncounted(m, h1) == Uncounted(m, h) + gap
  {
    h1 := After(m, h, MergeSpan(o)).value;
    gap := Gap(m, h.spans[h.current.value], h.spans[o]);
    MergeReleases(m, h, o);
  }

  lemma FirstGap(m: Machine, h: Heap, steps: seq<Step>, h': Heap, o: SpanId, h1: Heap)
    requires Supported(m) && Inv(m, h) && Leads(m, h, steps, h') && steps != [] && steps[0] == MergeSpan(o)
    requires Merges(steps, {}) && After(m, h, MergeSpan(o)) == Some(h1)
    ensures Inv(m, h1) && Leads(m, h1, steps[1..], h') && Merges(steps[1..], {})
    ensures Gaps(m, h, steps, h') ==
      Gap(m, h.spans[h.current.value], h.spans[o]) + Gaps(m, h1, steps[1..], h')
  {
    FirstStep(m, h, steps, h');
  }

  /** Freeing a scavenged span starts the count with what the span has released. */
  lemma FreeCounts(m: Machine, h: Heap, x: SpanId, h1: Heap)
    requires Supported(m) && Inv(m, h) && Enabled(h, FreeSpan(x)) && h.spans[x].scavenged
    requires After(m, h, FreeSpan(x)) == Some(h1)
    ensures CurrentScavenged(m, h1) && Uncounted(m, h1) == 0 && h1.free == h.free
  {
    assert Part(h, x);
    PartPlaced(m, h, x);
  }

  /** Coalescing, from the freeing of a scavenged span through any merges with scavenged neighbours: what
      was counted as released is at most what the result has released, and that is at most its bytes;
      all three agree when physical pages are no larger than heap pages. */
  lemma CoalescingReleases(m: Machine, h: Heap, x: SpanId, h1: Heap, steps: seq<Step>, h': Heap)
    requires Supported(m) && Inv(m, h) && Enabled(h, FreeSpan(x)) && h.spans[x].scavenged
    requires After(m, h, FreeSpan(x)) == Some(h1)
    requires Inv(m, h1) && Leads(m, h1, steps, h') && Merges(steps, {}) && Merges(steps, h.free)
    ensures CurrentScavenged(m, h') && Uncounted(m, h') == Gaps(m, h1, steps, h')
    ensures var s := h'.spans[h'.current.value];
      && h'.prescavenged <= ReleasedOf(s, m.physical).value <= s.pages * PAGE_SIZE
      && (PhysicalPage(m.physical) <= PAGE_SIZE ==> h'.prescavenged == s.pages * PAGE_SIZE)
  {
    FreeCounts(m, h, x, h1);
    MergesRelease(m, h1, steps, h');
    var s := h'.spans[h'.current.value];
    ReleasedAtMost(Base(s), s.pages, m.physical);
    NoGaps(m, h1, steps, h');
  }

  lemma {:induction false} NoGaps(m: Machine, h: Heap, steps: seq<Step>, h': Heap)
    requires Supported(m) && Inv(m, h) && Leads(m, h, steps, h')
    requires Merges(steps, {})
    ensures PhysicalPage(m.physical) <= PAGE_SIZE ==> Gaps(m, h, steps, h') == 0
    decreases |steps|
  {
    if steps != [] {
      FirstStep(m, h, steps, h');
      var o := steps[0].o;
      assert steps[0] == MergeSpan(o);
      var h1 := After(m, h, MergeSpan(o)).value;
      FirstGap(m, h, steps, h', o, h1);
      NoGaps(m, h1, steps[1..], h');
    }
  }
}
