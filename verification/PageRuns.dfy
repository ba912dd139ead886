/** Free spans, page by page.  The page table here is a map from page numbers to spans;
    `PageHeapTheorems` shows that the slots of the arena map are one. */
module PageRuns {
  import opened Options
  import opened FiniteSets
  import opened Sums
  import opened Released
  import opened SpanModel
  import opened PageHeap

  type PageTable = imap<nat, SpanId>

  /** The spans that make up the heap; a span merged into another is none of them. */
  ghost predicate Part(h: Heap, i: SpanId) {
    && i < |h.spans|
    && (Busy(h.spans[i]) || i in h.free || i in h.scav || h.current == Some(i))
  }

  ghost predicate Within(s: Run, p: nat) {
    s.start <= p < s.start + s.pages
  }

  ghost predicate LeadsTo(t: PageTable, p: nat, i: SpanId) {
    p in t && t[p] == i
  }

  /** The run has pages, and they lie within `mapped`. */
  ghost predicate Placed(s: Run, mapped: iset<nat>, physical: Physical) {
    && s.pages >= 1 && Fits(Base(s), s.pages, physical)
    && forall p: nat :: Within(s, p) ==> p in mapped
  }

  ghost predicate Apart(s: Run, t: Run) {
    s.start + s.pages <= t.start || t.start + t.pages <= s.start
  }

  /** The page table leads from the lowest and the highest page of a span to it; for a span in use, from
      every page. */
  ghost predicate Tagged(t: PageTable, s: Run, i: SpanId) {
    s.pages >= 1 ==>
      && LeadsTo(t, s.start, i) && LeadsTo(t, s.start + s.pages - 1, i)
      && (Busy(s) ==> forall p: nat :: Within(s, p) ==> LeadsTo(t, p, i))
  }

  /** Free spans are kept apart from scavenged ones, and from the span being coalesced. */
  ghost predicate Sorted(h: Heap) {
    && (forall i :: i in h.free ==> i < |h.spans| && h.spans[i].state == State.Free && !h.spans[i].scavenged)
    && (forall i :: i in h.scav ==> i < |h.spans| && h.spans[i].state == State.Free && h.spans[i].scavenged)
    && (h.current.Some? ==>
          var x := h.current.value;
          x < |h.spans| && h.spans[x].state == State.Free && x !in h.free && x !in h.scav
          && h.prescavenged <= h.spans[x].pages * PAGE_SIZE)
  }

  ghost predicate Inv(h: Heap, t: PageTable, mapped: iset<nat>, physical: Physical) {
    && Sorted(h)
    && (forall i: nat :: Part(h, i) ==> Placed(h.spans[i], mapped, physical) && Tagged(t, h.spans[i], i))
    && (forall i: nat, j: nat :: Part(h, i) && Part(h, j) && i != j ==> Apart(h.spans[i], h.spans[j]))
  }

  // ----- The pages of the heap

  ghost predicate Holds(h: Heap, p: nat) {
    exists i: nat :: Part(h, i) && Within(h.spans[i], p)
  }

  /** Pages of the parts among the first `n` spans, added up. */
  ghost function PagesUpTo(h: Heap, n: nat): nat
    requires n <= |h.spans|
  {
    if n == 0 then 0 else PagesUpTo(h, n - 1) + if Part(h, n - 1) then h.spans[n - 1].pages else 0
  }

  ghost function TotalPages(h: Heap): nat {
    PagesUpTo(h, |h.spans|)
  }

  /** The pages of the parts among the first `n` spans, as a set. */
  ghost function PageSet(h: Heap, n: nat): set<nat>
    requires n <= |h.spans|
  {
    if n == 0 then {}
    else if Part(h, n - 1) then
      PageSet(h, n - 1) + Range(h.spans[n - 1].start, h.spans[n - 1].start + h.spans[n - 1].pages)
    else PageSet(h, n - 1)
  }

  ghost predicate HoldsUpTo(h: Heap, n: nat, p: nat)
    requires n <= |h.spans|
  {
    exists i: nat :: i < n && Part(h, i) && Within(h.spans[i], p)
  }

  lemma {:induction false} PageSetHolds(h: Heap, n: nat, p: nat)
    requires n <= |h.spans|
    ensures p in PageSet(h, n) <==> HoldsUpTo(h, n, p)
  {
    if n > 0 {
      PageSetHolds(h, n - 1, p);
      assert HoldsUpTo(h, n, p) <==> HoldsUpTo(h, n - 1, p) || (Part(h, n - 1) && Within(h.spans[n - 1], p));
    }
  }

  lemma LaterSpanApart(h: Heap, n: nat)
    requires n < |h.spans| && Part(h, n)
    requires forall i: nat :: Part(h, i) && i != n ==> Apart(h.spans[i], h.spans[n])
    ensures PageSet(h, n) !! Range(h.spans[n].start, h.spans[n].start + h.spans[n].pages)
  {
    forall p: nat | p in PageSet(h, n)
      ensures !Within(h.spans[n], p)
    {
      PageSetHolds(h, n, p);
    }
  }

  lemma UnionSize(a: set<nat>, b: set<nat>)
    requires a !! b
    ensures |a + b| == |a| + |b|
  {
  }

  /** As the spans are disjoint, their page counts add up to the number of pages they hold. */
  lemma {:induction false} CountsArePages(h: Heap, n: nat)
    requires n <= |h.spans|
    requires forall i: nat, j: nat :: Part(h, i) && Part(h, j) && i != j ==> Apart(h.spans[i], h.spans[j])
    ensures |PageSet(h, n)| == PagesUpTo(h, n)
  {
    if n > 0 {
      CountsArePages(h, n - 1);
      if Part(h, n - 1) {
        LaterSpanApart(h, n - 1);
        UnionSize(PageSet(h, n - 1), Range(h.spans[n - 1].start, h.spans[n - 1].start + h.spans[n - 1].pages));
      }
    }
  }

  /** Heaps that hold the same pages have equal totals, however the pages are cut into spans. */
  lemma SamePagesSameTotal(h: Heap, h': Heap, t: PageTable, t': PageTable, mapped: iset<nat>, physical: Physical)
    requires Inv(h, t, mapped, physical) && Inv(h', t', mapped, physical)
    requires forall p: nat :: Holds(h, p) <==> Holds(h', p)
    ensures TotalPages(h) == TotalPages(h')
  {
    CountsArePages(h, |h.spans|);
    CountsArePages(h', |h'.spans|);
    forall p: nat
      ensures p in PageSet(h, |h.spans|) <==> Holds(h, p)
      ensures p in PageSet(h', |h'.spans|) <==> Holds(h', p)
    {
      PageSetHolds(h, |h.spans|, p);
      PageSetHolds(h', |h'.spans|, p);
    }
    assert PageSet(h, |h.spans|) == PageSet(h', |h'.spans|);
  }

  // ----- Merging

  ghost predicate Adjacent(s: Run, t: Run) {
    s.start + s.pages == t.start || t.start + t.pages == s.start
  }

  /** Span `o` is free and adjacent to the span being coalesced. */
  ghost predicate CanMerge(h: Heap, o: SpanId) {
    && h.current.Some? && h.current.value < |h.spans| && o < |h.spans|
    && (o in h.free || o in h.scav)
    && Adjacent(h.spans[h.current.value], h.spans[o])
  }

  /** The page whose entry merging rewrites: the lowest or the highest of the joined run. */
  ghost function RewrittenPage(s: Run, other: Run): int {
    if other.start < s.start then other.start else s.start + s.pages + other.pages - 1
  }

  /** The end of the current span away from the merged one. */
  ghost function FarEnd(s: Run, other: Run): int {
    if other.start < s.start then s.start + s.pages - 1 else s.start
  }

  /** What merging `o` changes; `r` is what `o` had released. */
  ghost predicate Merged(h: Heap, t: PageTable, o: SpanId, r: nat, h': Heap, t': PageTable) {
    && CanMerge(h, o)
    && var x, s, other := h.current.value, h.spans[h.current.value], h.spans[o];
      && h'.spans == h.spans[x := Joined(s, other)] && h'.current == h.current && h'.pagesInUse == h.pagesInUse
      && RewrittenPage(s, other) >= 0 && t' == t[RewrittenPage(s, other) := x]
      && h'.scav == (if other.scavenged then h.scav - {o} else h.scav)
      && h'.free == (if other.scavenged then h.free else h.free - {o})
      && h'.prescavenged == h.prescavenged + r && r <= other.pages * PAGE_SIZE
  }

  lemma MergeParts(h: Heap, t: PageTable, o: SpanId, r: nat, h': Heap, t': PageTable)
    requires Sorted(h) && Merged(h, t, o, r, h', t')
    ensures Part(h, o) && Part(h, h.current.value) && o != h.current.value
    ensures forall i :: Part(h', i) <==> Part(h, i) && i != o
    ensures Sorted(h')
  {
  }

  lemma JoinedRun(s: Run, t: Run, mapped: iset<nat>, physical: Physical)
    requires Placed(s, mapped, physical) && Placed(t, mapped, physical) && Adjacent(s, t)
    ensures Placed(Joined(s, t), mapped, physical)
    ensures forall p: nat :: Within(Joined(s, t), p) <==> Within(s, p) || Within(t, p)
    ensures RewrittenPage(s, t) >= 0 && Within(t, RewrittenPage(s, t))
  {
  }

  lemma JoinedEnds(s: Run, t: Run)
    requires s.pages >= 1 && t.pages >= 1 && Adjacent(s, t)
    ensures var j := Joined(s, t);
      {j.start, j.start + j.pages - 1} == {RewrittenPage(s, t), FarEnd(s, t)}
    ensures FarEnd(s, t) >= 0 && FarEnd(s, t) != RewrittenPage(s, t)
  {
  }

  lemma CurrentTags(t: PageTable, s: Run, other: Run, x: SpanId, t': PageTable)
    requires s.pages >= 1 && other.pages >= 1 && Adjacent(s, other) && !Busy(s)
    requires Tagged(t, s, x)
    requires RewrittenPage(s, other) >= 0 && t' == t[RewrittenPage(s, other) := x]
    ensures Tagged(t', Joined(s, other), x)
  {
    JoinedEnds(s, other);
  }

  lemma OtherTags(t: PageTable, u: Run, i: SpanId, q: nat, x: SpanId, t': PageTable)
    requires Tagged(t, u, i) && !Within(u, q) && t' == t[q := x]
    ensures Tagged(t', u, i)
  {
  }

  lemma ApartFromJoined(u: Run, s: Run, t: Run)
    requires Apart(u, s) && Apart(u, t) && Adjacent(s, t) && u.pages >= 1
    ensures Apart(u, Joined(s, t)) && Apart(Joined(s, t), u)
  {
  }

  lemma MergedSpan(h: Heap, t: PageTable, mapped: iset<nat>, physical: Physical,
                   o: SpanId, r: nat, h': Heap, t': PageTable, i: SpanId)
    requires Inv(h, t, mapped, physical) && Merged(h, t, o, r, h', t') && Part(h, i) && i != o
    ensures i < |h'.spans| && Placed(h'.spans[i], mapped, physical) && Tagged(t', h'.spans[i], i)
  {
    MergeParts(h, t, o, r, h', t');
    var x, s, other := h.current.value, h.spans[h.current.value], h.spans[o];
    JoinedRun(s, other, mapped, physical);
    if i == x {
      CurrentTags(t, s, other, x, t');
    } else {
      OtherTags(t, h.spans[i], i, RewrittenPage(s, other), x, t');
    }
  }

  lemma MergedApart(h: Heap, t: PageTable, mapped: iset<nat>, physical: Physical,
                    o: SpanId, r: nat, h': Heap, t': PageTable, i: SpanId, j: SpanId)
    requires Inv(h, t, mapped, physical) && Merged(h, t, o, r, h', t')
    requires Part(h, i) && i != o && Part(h, j) && j != o && i != j
    ensures Apart(h'.spans[i], h'.spans[j])
  {
    MergeParts(h, t, o, r, h', t');
    var x := h.current.value;
    if i == x {
      ApartFromJoined(h.spans[j], h.spans[x], h.spans[o]);
    } else if j == x {
      ApartFromJoined(h.spans[i], h.spans[x], h.spans[o]);
    }
  }

  /** Merging keeps the invariant and the pages of the heap. */
  lemma MergeKeeps(h: Heap, t: PageTable, mapped: iset<nat>, physical: Physical,
                   o: SpanId, r: nat, h': Heap, t': PageTable)
    requires Inv(h, t, mapped, physical) && Merged(h, t, o, r, h', t')
    ensures Inv(h', t', mapped, physical)
    ensures forall p: nat :: Holds(h, p) <==> Holds(h', p)
  {
    MergeParts(h, t, o, r, h', t');
    forall i: nat | Part(h', i)
      ensures Placed(h'.spans[i], mapped, physical) && Tagged(t', h'.spans[i], i)
    {
      MergedSpan(h, t, mapped, physical, o, r, h', t', i);
    }
    forall i: nat, j: nat | Part(h', i) && Part(h', j) && i != j
      ensures Apart(h'.spans[i], h'.spans[j])
    {
      MergedApart(h, t, mapped, physical, o, r, h', t', i, j);
    }
    MergeHolds(h, t, mapped, physical, o, r, h', t');
  }

  lemma MergeHolds(h: Heap, t: PageTable, mapped: iset<nat>, physical: Physical,
                   o: SpanId, r: nat, h': Heap, t': PageTable)
    requires Inv(h, t, mapped, physical) && Merged(h, t, o, r, h', t')
    ensures forall p: nat :: Holds(h, p) <==> Holds(h', p)
  {
    MergeParts(h, t, o, r, h', t');
    var x := h.current.value;
    JoinedRun(h.spans[x], h.spans[o], mapped, physical);
    forall p: nat
      ensures Holds(h, p) <==> Holds(h', p)
    {
      if i: nat :| Part(h, i) && Within(h.spans[i], p) {
        assert Part(h', if i == o then x else i) && Within(h'.spans[if i == o then x else i], p);
      }
      if i: nat :| Part(h', i) && Within(h'.spans[i], p) {
        assert Within(h.spans[i], p) || (i == x && Within(h.spans[o], p));
      }
    }
  }

  // ----- Freeing and inserting

  ghost predicate Freed(h: Heap, x: SpanId, r: nat, h': Heap) {
    && h.current == None && x < |h.spans| && Busy(h.spans[x]) && r <= h.spans[x].pages * PAGE_SIZE
    && h' == h.(pagesInUse := h'.pagesInUse, spans := h.spans[x := h.spans[x].(state := State.Free)],
                current := Some(x), prescavenged := r)
    && h'.pagesInUse + (if h.spans[x].state == InUse then h.spans[x].pages else 0) == h.pagesInUse
  }

  lemma FreeKeeps(h: Heap, t: PageTable, mapped: iset<nat>, physical: Physical, x: SpanId, r: nat, h': Heap)
    requires Inv(h, t, mapped, physical) && Freed(h, x, r, h')
    ensures Inv(h', t, mapped, physical)
    ensures forall p: nat :: Holds(h, p) <==> Holds(h', p)
  {
    SameParts(h, t, mapped, physical, h');
  }

  lemma InsertKeeps(h: Heap, t: PageTable, mapped: iset<nat>, physical: Physical)
    requires Inv(h, t, mapped, physical) && h.current.Some?
    ensures h.current.value < |h.spans| && Inv(AfterInsert(h), t, mapped, physical)
    ensures forall p: nat :: Holds(h, p) <==> Holds(AfterInsert(h), p)
  {
    SameParts(h, t, mapped, physical, AfterInsert(h));
  }

  /** Neither freeing nor inserting moves or resizes a span, or takes one out of the heap. */
  lemma SameParts(h: Heap, t: PageTable, mapped: iset<nat>, physical: Physical, h': Heap)
    requires Inv(h, t, mapped, physical) && Sorted(h')
    requires |h'.spans| == |h.spans| && forall i: nat :: Part(h', i) <==> Part(h, i)
    requires forall i: nat :: Part(h, i) ==>
               && h'.spans[i].start == h.spans[i].start && h'.spans[i].pages == h.spans[i].pages
               && (Busy(h'.spans[i]) ==> Busy(h.spans[i]))
    ensures Inv(h', t, mapped, physical)
    ensures forall p: nat :: Holds(h, p) <==> Holds(h', p)
  {
    forall i: nat | Part(h, i)
      ensures Placed(h'.spans[i], mapped, physical) && Tagged(t, h'.spans[i], i)
    {
      assert Placed(h.spans[i], mapped, physical) && Tagged(t, h.spans[i], i);
    }
    forall i: nat, p: nat | Part(h, i)
      ensures Within(h.spans[i], p) <==> Within(h'.spans[i], p)
    {
    }
  }

  // ----- Pages to be zeroed

  /** Every dirty page of the heap lies in a span marked to be zeroed before use. */
  ghost predicate DirtyMarked(h: Heap, dirty: iset<nat>) {
    forall i: nat, p: nat :: Part(h, i) && Within(h.spans[i], p) && p in dirty ==> h.spans[i].needZero
  }

  lemma MergeKeepsDirty(h: Heap, t: PageTable, mapped: iset<nat>, physical: Physical,
                        o: SpanId, r: nat, h': Heap, t': PageTable, dirty: iset<nat>)
    requires Inv(h, t, mapped, physical) && Merged(h, t, o, r, h', t') && DirtyMarked(h, dirty)
    ensures DirtyMarked(h', dirty)
  {
    MergeParts(h, t, o, r, h', t');
    var x := h.current.value;
    JoinedRun(h.spans[x], h.spans[o], mapped, physical);
  }

  // ----- Pages by the state of their span

  function PagesIn(state: State): Run -> nat {
    (s: Run) => if s.state == state then s.pages else 0
  }

  /** `pages_in_use` is exact. */
  ghost predicate PagesCounted(h: Heap) {
    h.pagesInUse == Total(PagesIn(InUse), h.spans)
  }

  /** Pages of the free spans that are parts, among the first `n` spans. */
  ghost function FreePagesUpTo(h: Heap, n: nat): nat
    requires n <= |h.spans|
  {
    if n == 0 then 0
    else FreePagesUpTo(h, n - 1) + if Part(h, n - 1) && !Busy(h.spans[n - 1]) then h.spans[n - 1].pages else 0
  }

  /** Every page of the heap is in use, manually managed, or free. */
  lemma {:induction false} PagesByState(h: Heap, n: nat)
    requires n <= |h.spans|
    ensures PagesUpTo(h, n)
         == Total(PagesIn(InUse), h.spans[..n]) + Total(PagesIn(Manual), h.spans[..n]) + FreePagesUpTo(h, n)
  {
    if n > 0 {
      PagesByState(h, n - 1);
      assert h.spans[..n][..n - 1] == h.spans[..n - 1];
    }
  }

  function ManualPages(h: Heap): nat {
    Total(PagesIn(Manual), h.spans)
  }

  ghost function FreePages(h: Heap): nat {
    FreePagesUpTo(h, |h.spans|)
  }

  lemma AllPagesByState(h: Heap)
    requires PagesCounted(h)
    ensures TotalPages(h) == h.pagesInUse + ManualPages(h) + FreePages(h)
  {
    PagesByState(h, |h.spans|);
    assert h.spans[..|h.spans|] == h.spans;
  }

  lemma InUseCounted(h: Heap, x: SpanId)
    requires PagesCounted(h) && x < |h.spans|
    ensures h.spans[x].state == InUse ==> h.spans[x].pages <= h.pagesInUse
  {
    TotalUpdate(PagesIn(InUse), h.spans, x, h.spans[x]);
  }

  lemma MergeKeepsCount(h: Heap, t: PageTable, o: SpanId, r: nat, h': Heap, t': PageTable)
    requires Sorted(h) && Merged(h, t, o, r, h', t') && PagesCounted(h)
    ensures PagesCounted(h')
  {
    TotalUpdate(PagesIn(InUse), h.spans, h.current.value, h'.spans[h.current.value]);
  }

  lemma FreeKeepsCount(h: Heap, x: SpanId, r: nat, h': Heap)
    requires Freed(h, x, r, h') && PagesCounted(h)
    ensures PagesCounted(h')
  {
    TotalUpdate(PagesIn(InUse), h.spans, x, h'.spans[x]);
  }
}
