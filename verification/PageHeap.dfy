/** Freed spans in the locked heap (memory_heap.rs `free_span`, the `merge` closure of `coalesce`,
    `set_span`).  A span is a run of whole pages; the arena map finds a span from the first or last page
    of a free run, and from every page of a run in use. */
module PageHeap {
  import opened Options
  import opened Powers
  import opened Words
  import opened ArenaIndex
  import opened Released
  import opened SpanModel
  import opened FreeChecks

  type SpanId = nat

  /** The fields of a span that the page heap works on. */
  datatype Run = Run(
    start: nat,          // start address / PAGE_SIZE
    pages: nat,
    needZero: bool,
    scavenged: bool,
    state: State,
    allocationsCount: nat,
    generation: nat)

  datatype Machine = Machine(layout: Layout, physical: Physical)

  ghost predicate Supported(m: Machine) {
    Valid(m.layout) && m.layout.pageShift == PAGE_SHIFT && m.layout.wordBits == WORD_BITS
  }

  datatype Heap = Heap(
    g: nat,
    pagesInUse: nat,
    spans: seq<Run>,
    table: map<Slot, SpanId>,
    free: set<SpanId>,
    scav: set<SpanId>,
    current: Option<SpanId>,   // the span being coalesced
    prescavenged: nat)

  function Base(s: Run): nat {
    s.start * PAGE_SIZE
  }

  predicate Busy(s: Run) {
    s.state == InUse || s.state == Manual
  }

  function SlotAt(m: Machine, address: nat): Slot
    requires Supported(m)
  {
    SlotOf(m.layout, address)
  }

  /** The arena map has an entry for the address. */
  ghost predicate Mapped(m: Machine, address: nat)
    requires Supported(m)
  {
    InBounds(m.layout, SlotAt(m, address))
  }

  function ReleasedOf(s: Run, physical: Physical): Option<nat>
    requires Fits(Base(s), s.pages, physical)
  {
    ReleasedBytes(Base(s), s.pages, s.scavenged, physical)
  }

  // ----- The operations

  function AfterSetSpan(m: Machine, h: Heap, address: nat, x: SpanId): Heap
    requires Supported(m)
  {
    h.(table := h.table[SlotAt(m, address) := x])
  }

  /** Freeing starts to coalesce span `x`; `None` when the span may not be freed or `released` fails. */
  function AfterFree(m: Machine, h: Heap, x: SpanId): Option<Heap>
    requires x < |h.spans| && Fits(Base(h.spans[x]), h.spans[x].pages, m.physical)
  {
    var s := h.spans[x];
    match PagesAfterFree(s.state, s.allocationsCount, s.generation, s.pages, h.g, h.pagesInUse)
    case None => None
    case Some(left) =>
      match ReleasedOf(s, m.physical)
      case None => None
      case Some(r) =>
        Some(h.(pagesInUse := left, spans := h.spans[x := s.(state := State.Free)], current := Some(x), prescavenged := r))
  }

  function Joined(s: Run, other: Run): Run {
    s.(pages := s.pages + other.pages,
       needZero := s.needZero || other.needZero,
       start := if other.start < s.start then other.start else s.start)
  }

  /** The address whose slot merging rewrites: the new first byte, or the new last byte. */
  function RewrittenAddress(s: Run, other: Run): nat
    requires other.pages >= 1
  {
    var t := Joined(s, other);
    if other.start < s.start then Base(t) else Base(t) + t.pages * PAGE_SIZE - 1
  }

  predicate Mergeable(m: Machine, h: Heap, o: SpanId) {
    && h.current.Some? && h.current.value < |h.spans| && o < |h.spans| && h.current.value != o
    && h.spans[o].pages >= 1 && Fits(Base(h.spans[o]), h.spans[o].pages, m.physical)
  }

  /** Merging span `o` into the span being coalesced; `None` when `released` fails. */
  function AfterMerge(m: Machine, h: Heap, o: SpanId): Option<Heap>
    requires Supported(m) && Mergeable(m, h, o)
  {
    var x := h.current.value;
    var s, other := h.spans[x], h.spans[o];
    match ReleasedOf(other, m.physical)
    case None => None
    case Some(r) =>
      var table := AfterSetSpan(m, h, RewrittenAddress(s, other), x).table;
      Some(AfterDiscard(h.(spans := h.spans[x := Joined(s, other)], table := table), o, other.scavenged, r))
  }

  /** Span `o`, which had released `r` bytes, is no longer one of the free spans of its kind. */
  function AfterDiscard(h: Heap, o: SpanId, scavenged: bool, r: nat): Heap {
    h.(prescavenged := h.prescavenged + r,
       scav := if scavenged then h.scav - {o} else h.scav,
       free := if scavenged then h.free else h.free - {o})
  }

  /** The coalesced span joins the free spans of its kind. */
  function AfterInsert(h: Heap): Heap
    requires h.current.Some? && h.current.value < |h.spans|
  {
    var x := h.current.value;
    if h.spans[x].scavenged then h.(scav := h.scav + {x}, current := None)
    else h.(free := h.free + {x}, current := None)
  }

  /** The locked heap, with the variables of `coalesce` that the closure captures. */
  class LockedHeap {
    const m: Machine
    var sweepGeneration: nat
    var pagesInUse: nat
    var spans: seq<Run>
    var table: map<Slot, SpanId>
    var free: set<SpanId>
    var scav: set<SpanId>
    var current: Option<SpanId>
    var prescavenged: nat

    ghost function Model(): Heap
      reads this
    {
      Heap(sweepGeneration, pagesInUse, spans, table, free, scav, current, prescavenged)
    }

    /** Takes span `x` back, up to the merging; fails on a span that may not be freed. */
    method Free(x: SpanId) returns (ok: bool)
      requires x < |spans| && Fits(Base(spans[x]), spans[x].pages, m.physical)
      modifies this
      ensures AfterFree(m, old(Model()), x) == if ok then Some(Model()) else None
    {
      var span := spans[x];
      var left := CheckFree(span.state, span.allocationsCount, span.generation, span.pages, sweepGeneration, pagesInUse);
      if left == None {
        return false;
      }
      pagesInUse := left.value;
      spans := spans[x := span.(state := State.Free)];
      current := Some(x);
      var released := ReleasedOf(spans[x], m.physical);
      if released == None {
        return false;
      }
      prescavenged := released.value;
      ok := true;
    }

    /** Makes the page of `address` lead to span `x`. */
    method SetSpan(address: nat, x: SpanId)
      requires Supported(m) && Mapped(m, address)
      modifies this`table
      ensures Model() == AfterSetSpan(m, old(Model()), address, x)
    {
      var i := ArenaIndexOf(m.layout, address);
      var spanIndex := Mod(Div(address, PageBytes(m.layout)), PagesPerArena(m.layout));
      table := table[Slot(Level1(m.layout, i), Level2(m.layout, i), spanIndex) := x];
    }

    /** Counts what span `o` had released and takes it out of the free spans of its kind. */
    method Discard(o: SpanId) returns (ok: bool)
      requires o < |spans| && Fits(Base(spans[o]), spans[o].pages, m.physical)
      modifies this`prescavenged, this`free, this`scav
      ensures ok <==> ReleasedOf(spans[o], m.physical).Some?
      ensures ok ==>
        Model() == AfterDiscard(old(Model()), o, spans[o].scavenged, ReleasedOf(spans[o], m.physical).value)
    {
      var released := ReleasedOf(spans[o], m.physical);
      if released == None {
        return false;
      }
      prescavenged := prescavenged + released.value;
      if spans[o].scavenged {
        scav := scav - {o};
      } else {
        free := free - {o};
      }
      ok := true;
    }

    /** Grows the current span `x` over `other`, in the span and in the arena map. */
    method Grow(x: SpanId, other: Run)
      requires Supported(m) && x < |spans| && other.pages >= 1
      requires Mapped(m, RewrittenAddress(spans[x], other))
      modifies this`spans, this`table
      ensures spans == old(spans)[x := Joined(old(spans)[x], other)]
      ensures table == AfterSetSpan(m, old(Model()), RewrittenAddress(old(spans)[x], other), x).table
    {
      var span := spans[x];
      span := span.(pages := span.pages + other.pages);
      span := span.(needZero := span.needZero || other.needZero);
      var address;
      if other.start < span.start {
        span := span.(start := other.start);
        address := Base(span);
      } else {
        var offset := span.pages * PAGE_SIZE - 1;
        address := Base(span) + offset;
      }
      assert span == Joined(spans[x], other) && address == RewrittenAddress(spans[x], other);
      spans := spans[x := span];
      SetSpan(address, x);
    }

    /** Merges the adjacent span `o` into the current one. */
    method Merge(o: SpanId) returns (ok: bool)
      requires Supported(m) && Mergeable(m, Model(), o)
      requires Mapped(m, RewrittenAddress(spans[current.value], spans[o]))
      modifies this
      ensures AfterMerge(m, old(Model()), o) == if ok then Some(Model()) else None
    {
      Grow(current.value, spans[o]);
      ok := Discard(o);
    }

    /** Puts the current span with the free spans of its kind. */
    method Insert()
      requires current.Some? && current.value < |spans|
      modifies this
      ensures Model() == AfterInsert(old(Model()))
    {
      var x := current.value;
      if spans[x].scavenged {
        scav := scav + {x};
      } else {
        free := free + {x};
      }
      current := None;
    }
  }
}
