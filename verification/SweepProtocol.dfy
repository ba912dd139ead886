/** The sweep-generation protocol (gc.rs `sweep_one`, memory_span.rs `sweep`, memory_heap.rs
    `free_span` and the choice of buffers) as a step machine: any number of threads run `sweep_one` or
    sweep a span directly, spans are allocated, and collections raise the generation, in any
    interleaving.  Each step makes one access to shared state.

    A sweep buffer appears here as a bag of spans.  `BufferBag` proves that a buffer refines one while at
    most 512 pushes are in flight, so the bag stands for a buffer used within that limit. */
module SweepProtocol {
  import opened Options
  import opened Generations

  type SpanId = nat

  datatype SpanState = InUse | Free

  datatype Span = Span(state: SpanState, generation: nat, pages: nat)

  /** History no step ever tests: who holds or owns a span, whether it was in use when the cycle began
      and with how many pages, and how often it has been swept in the cycle. */
  datatype Aux = Aux(holder: Option<nat>, owner: Option<nat>, due: bool, duePages: nat, sweeps: nat)

  /** Where a thread is: the name says what the next step does. */
  datatype PC =
    | Idle
    | Enter                                             // found sweep_done false; join the sweepers
    | LoadGeneration
    | Pop(g: nat)
    | SetDone(g: nat)
    | LoadFirst(g: nat, x: SpanId)                      // the first of the two reads of the span
    | LoadSpanGeneration(g: nat, x: SpanId, state: SpanState)
    | LoadState(g: nat, x: SpanId, generation: nat)     // only when the generation is read first
    | DirectLoadGeneration(x: SpanId)
    | DirectCheck(g: nat, x: SpanId)
    | Claim(g: nat, x: SpanId, direct: bool)
    | Sweep(g: nat, x: SpanId, direct: bool)
    | Stamp(g: nat, x: SpanId, direct: bool)
    | FreeSpan(g: nat, x: SpanId, direct: bool)
    | Push(g: nat, x: SpanId, direct: bool)
    | Leave(result: Option<nat>, direct: bool)          // `None` is the source's `!0`
    | Panicked

  datatype State = State(
    g: nat,
    done: bool,
    sweepers: nat,
    pagesSwept: nat,
    pagesInUse: nat,
    buffers: seq<multiset<SpanId>>,
    spans: seq<Span>,
    threads: seq<PC>,
    aux: seq<Aux>,
    sweptBefore: nat,   // history: pagesSwept when the cycle began
    reported: nat,      // history: the sum of the results of sweep_one
    freedByOne: nat)    // history: the pages sweep_one has returned to the heap

  /** The source reads a popped span's generation before its state; the intended order is the other. */
  datatype ReadOrder = StateFirst | GenerationFirst

  datatype Choice = Choice(direct: Option<SpanId>, take: SpanId, free: bool)

  datatype Action =
    | Thread(t: nat, choice: Choice)
    | Allocate(x: SpanId, pages: nat)
    | Collect  // a collection marks the heap and raises the generation

  function Swept(s: State): multiset<SpanId>
    requires |s.buffers| == 2
  {
    s.buffers[SweptIndex(s.g)]
  }

  function Unswept(s: State): multiset<SpanId>
    requires |s.buffers| == 2
  {
    s.buffers[1 - SweptIndex(s.g)]
  }

  function Goto(s: State, t: nat, pc: PC): State
    requires t < |s.threads|
  {
    s.(threads := s.threads[t := pc])
  }

  function SetSpan(s: State, x: SpanId, span: Span): State
    requires x < |s.spans|
  {
    s.(spans := s.spans[x := span])
  }

  function SetAux(s: State, x: SpanId, aux: Aux): State
    requires x < |s.aux|
  {
    s.(aux := s.aux[x := aux])
  }

  predicate Sized(s: State) {
    |s.buffers| == 2 && |s.aux| == |s.spans| && s.g >= 2
  }

  /** One step; a step that is not enabled changes nothing. */
  function Step(order: ReadOrder, s: State, a: Action): State {
    if !Sized(s) then s
    else match a
      case Thread(t, choice) => if t < |s.threads| then ThreadStep(order, s, t, choice) else s
      case Allocate(x, pages) => AllocateStep(s, x, pages)
      case Collect => if s.done && s.sweepers == 0 then CollectStep(s) else s
  }

  /** Allocation takes a free span, stamps it as swept and pushes it on the swept stack. */
  function AllocateStep(s: State, x: SpanId, pages: nat): State
    requires Sized(s)
  {
    if x < |s.spans| && s.spans[x].state.Free? then
      SetSpan(s, x, Span(InUse, s.g, pages))
        .(pagesInUse := s.pagesInUse + pages,
          buffers := s.buffers[SweptIndex(s.g) := Swept(s) + multiset{x}])
    else s
  }

  function NewCycle(span: Span, aux: Aux): Aux {
    aux.(due := span.state.InUse?, duePages := if span.state.InUse? then span.pages else 0, sweeps := 0)
  }

  function CollectStep(s: State): State
    requires Sized(s)
  {
    s.(g := s.g + 2, done := false, sweptBefore := s.pagesSwept,
       aux := seq(|s.aux|, i requires 0 <= i < |s.aux| => NewCycle(s.spans[i], s.aux[i])))
  }

  function Release(s: State, x: SpanId): State
    requires Sized(s)
  {
    if x < |s.aux| then SetAux(s, x, s.aux[x].(holder := None)) else s
  }

  /** What `sweep_one` makes of the state and generation of a span it popped. */
  function Judge(s: State, t: nat, g: nat, x: SpanId, state: SpanState, generation: nat): State
    requires Sized(s) && t < |s.threads|
  {
    if !state.InUse? then
      if generation != g then Goto(s, t, Panicked)  // "non in-use span in unswept list"
      else Goto(Release(s, x), t, Pop(g))
    else if generation + 2 != g then Goto(Release(s, x), t, Pop(g))
    else Goto(s, t, Claim(g, x, false))
  }

  function ThreadStep(order: ReadOrder, s: State, t: nat, choice: Choice): State
    requires Sized(s) && t < |s.threads|
  {
    match s.threads[t]
    case Idle =>
      if choice.direct.Some? then Goto(s.(sweepers := s.sweepers + 1), t, DirectLoadGeneration(choice.direct.value))
      else if s.done then s  // sweep_one returns `!0`
      else Goto(s, t, Enter)
    case Enter => Goto(s.(sweepers := s.sweepers + 1), t, LoadGeneration)
    case LoadGeneration => Goto(s, t, Pop(s.g))
    case Pop(g) =>
      var i := 1 - SweptIndex(g);
      if s.buffers[i] == multiset{} then Goto(s, t, SetDone(g))
      else if choice.take in s.buffers[i] && choice.take < |s.spans| then
        var x := choice.take;
        Goto(SetAux(s.(buffers := s.buffers[i := s.buffers[i] - multiset{x}]), x, s.aux[x].(holder := Some(t))),
             t, LoadFirst(g, x))
      else s
    case SetDone(g) => Goto(s.(done := true), t, Leave(None, false))
    case LoadFirst(g, x) =>
      if x >= |s.spans| then s
      else if order.StateFirst? then Goto(s, t, LoadSpanGeneration(g, x, s.spans[x].state))
      else Goto(s, t, LoadState(g, x, s.spans[x].generation))
    case LoadSpanGeneration(g, x, state) =>
      if x >= |s.spans| then s else Judge(s, t, g, x, state, s.spans[x].generation)
    case LoadState(g, x, generation) =>
      if x >= |s.spans| then s else Judge(s, t, g, x, s.spans[x].state, generation)
    case DirectLoadGeneration(x) => Goto(s, t, DirectCheck(s.g, x))
    case DirectCheck(g, x) =>
      if x < |s.spans| && s.spans[x].state.InUse? && s.spans[x].generation + 2 == g then Goto(s, t, Claim(g, x, true))
      else Goto(s, t, Leave(None, true))
    case Claim(g, x, direct) =>
      // compare_and_swap(g - 2, g - 1), going on only when it succeeds
      if x >= |s.spans| then s
      else
        var s' := if direct then s else Release(s, x);
        if s.spans[x].generation + 2 == g then
          Goto(SetAux(SetSpan(s', x, s.spans[x].(generation := g - 1)), x, s'.aux[x].(owner := Some(t))), t,
               Sweep(g, x, direct))
        else Goto(s', t, if direct then Leave(None, true) else Pop(g))
    case Sweep(g, x, direct) =>
      if x >= |s.spans| || !s.spans[x].state.InUse? || s.spans[x].generation + 1 != s.g then Goto(s, t, Panicked)
      else
        Goto(SetAux(s, x, s.aux[x].(sweeps := s.aux[x].sweeps + 1)).(pagesSwept := s.pagesSwept + s.spans[x].pages), t,
             Stamp(g, x, direct))
    case Stamp(g, x, direct) =>
      // every object has been swept; whether the span is given back depends on its marks
      if x >= |s.spans| || !s.spans[x].state.InUse? || s.spans[x].generation + 1 != g then Goto(s, t, Panicked)
      else
        Goto(SetSpan(s, x, s.spans[x].(generation := g)), t,
             if choice.free then FreeSpan(g, x, direct) else Push(g, x, direct))
    case FreeSpan(g, x, direct) =>
      if x >= |s.spans| || !s.spans[x].state.InUse? || s.spans[x].generation != s.g || s.pagesInUse < s.spans[x].pages
      then Goto(s, t, Panicked)  // "invalid free" or "invalid span state"
      else
        var pages := s.spans[x].pages;
        Goto(SetAux(SetSpan(s, x, s.spans[x].(state := Free)), x, s.aux[x].(owner := None))
               .(pagesInUse := s.pagesInUse - pages, freedByOne := s.freedByOne + (if direct then 0 else pages)),
             t, Leave(Some(pages), direct))
    case Push(g, x, direct) =>
      if x >= |s.spans| then s
      else
        var i := SweptIndex(g);
        Goto(SetAux(s, x, s.aux[x].(owner := None)).(buffers := s.buffers[i := s.buffers[i] + multiset{x}]),
             t, Leave(Some(0), direct))
    case Leave(result, direct) =>
      if s.sweepers == 0 then Goto(s, t, Panicked)
      else
        Goto(s.(sweepers := s.sweepers - 1,
                reported := s.reported + (if result.Some? && !direct then result.value else 0)),
             t, Idle)
    case Panicked => s
  }

  function Run(order: ReadOrder, s: State, schedule: seq<Action>): State
    decreases |schedule|
  {
    if schedule == [] then s else Run(order, Step(order, s, schedule[0]), schedule[1..])
  }
}
