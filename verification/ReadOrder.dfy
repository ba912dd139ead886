/** The order of the two reads of a popped span.

    The source reads the generation before the state.  A direct sweeper that gives a span back to the
    heap between the two reads makes `sweep_one` panic; nothing else does. */
module ReadOrder {
  import opened Options
  import opened Generations
  import opened Sums
  import opened SweepProtocol
  import opened SweepInvariant
  import opened SweepTheorems

  // ----- Reading the generation first is safe while direct sweeps give nothing back

  /** No step of the run lets a direct sweep give its span back to the heap. */
  ghost predicate DirectKeeps(s: State, schedule: seq<Action>)
    decreases |schedule|
  {
    schedule != [] ==>
      KeepsDirect(s, schedule[0]) && DirectKeeps(Step(GenerationFirst, s, schedule[0]), schedule[1..])
  }

  ghost predicate KeepsDirect(s: State, a: Action) {
    a.Thread? && a.t < |s.threads| && s.threads[a.t].Stamp? && s.threads[a.t].direct ==> !a.choice.free
  }

  /** No thread of the schedule sweeps directly. */
  ghost predicate NoDirect(schedule: seq<Action>) {
    forall k :: 0 <= k < |schedule| && schedule[k].Thread? ==> schedule[k].choice.direct.None?
  }

  /** A thread that has read only the generation stands where it would, having read that the span is in
      use. */
  function Reordered(pc: PC): PC {
    if pc.LoadState? then LoadSpanGeneration(pc.g, pc.x, InUse) else pc
  }

  ghost function Reorder(s: State): State {
    s.(threads := seq(|s.threads|, i requires 0 <= i < |s.threads| => Reordered(s.threads[i])))
  }

  predicate OwnsDirectly(pc: PC) {
    (pc.Sweep? || pc.Stamp? || pc.Push?) && pc.direct
  }

  /** A span on the unswept stack or held by a popper is in use, and nobody but a direct sweeper has
      claimed it. */
  ghost predicate Waits(s: State, x: SpanId) {
    && Sized(s) && x < |s.spans|
    && (Unswept(s)[x] > 0 || s.aux[x].holder.Some? ==>
         && s.spans[x].state.InUse?
         && (s.aux[x].owner.Some? ==>
              s.aux[x].owner.value < |s.threads| && OwnsDirectly(s.threads[s.aux[x].owner.value])))
  }

  ghost predicate ReadOk(s: State, pc: PC) {
    && (pc.FreeSpan? ==> !pc.direct)
    && (pc.LoadState? ==> pc.x < |s.spans| && (s.spans[pc.x].generation + 2 == pc.g ==> pc.generation + 2 == pc.g))
  }

  ghost predicate OrderInv(s: State) {
    && Inv(Reorder(s))
    && (forall x :: 0 <= x < |s.spans| ==> Waits(s, x))
    && (forall t :: 0 <= t < |s.threads| ==> ReadOk(s, s.threads[t]))
  }

  lemma ReorderGoto(s: State, t: nat, pc: PC)
    requires t < |s.threads|
    ensures Reorder(Goto(s, t, pc)) == Goto(Reorder(s), t, Reordered(pc))
  {
  }

  // What a step does, whichever it is

  /** A thread stands still among spans: what it does to span `y` is at most to take it off the stack,
      let it go or give it up. */
  ghost predicate Frame(s: State, s': State, t: nat, y: SpanId) {
    && Sized(s) && Sized(s') && t < |s.threads| == |s'.threads| && y < |s.spans| == |s'.spans|
    && s'.threads == s.threads[t := s'.threads[t]]
    && s'.spans[y] == s.spans[y] && s'.aux[y].owner == s.aux[y].owner
    && Unswept(s')[y] <= Unswept(s)[y]
    && (s'.aux[y].holder.Some? ==> s.aux[y].holder.Some? || Unswept(s)[y] > 0)
    && (s.aux[y].owner == Some(t) ==> OwnsDirectly(s.threads[t]) ==> OwnsDirectly(s'.threads[t]))
  }

  predicate Sweeps(pc: PC) {
    pc.Claim? || Owning(pc)
  }

  /** The generation a step gives to span `y`, if it changes it, is one of those of a span being swept. */
  ghost predicate GenerationsAfter(s: State, e: State, y: SpanId) {
    y < |s.spans| == |e.spans| ==>
      e.spans[y].generation == s.spans[y].generation || e.spans[y].generation == s.g
      || e.spans[y].generation == s.g - 1
  }

  ghost predicate OwnReadOk(s: State, t: nat) {
    t < |s.threads| && ReadOk(s, s.threads[t])
  }

  /** The thread works with the heap's generation. */
  predicate UpToDate(s: State, pc: PC) {
    Sweeps(pc) || pc.Pop? ==> pc.g == s.g
  }

  /** One step from `s` to `e`, as it bears on span `y`: it reads no other thread's place; away from the two
      reads the order makes no difference; what the thread has read stays good; nobody begins to sweep
      directly unless told to; and a thread that has claimed nothing stands still among spans. */
  ghost predicate StepFacts(s: State, t: nat, choice: Choice, y: SpanId, ts: seq<PC>, e: State)
    requires Sized(s) && t < |s.threads| == |ts|
  {
    var pc := s.threads[t];
    && t < |e.threads| == |s.threads| && e.threads == s.threads[t := e.threads[t]] && |e.spans| == |s.spans|
    && ThreadStep(GenerationFirst, s.(threads := ts), t, choice) == e.(threads := ts[t := e.threads[t]])
    && (!pc.LoadFirst? && !pc.LoadState? ==>
         e == ThreadStep(StateFirst, s, t, choice) && !e.threads[t].LoadState?)
    && (OwnReadOk(s, t) && KeepsDirect(s, Thread(t, choice)) ==> OwnReadOk(e, t))
    && (choice.direct.None? && !SweepsDirectly(pc) ==> !SweepsDirectly(e.threads[t]))
    && (UpToDate(s, pc) ==> GenerationsAfter(s, e, y) && (!Sweeps(pc) && y < |s.spans| ==> Frame(s, e, t, y)))
  }

  ghost predicate StepGiven(s: State, t: nat, ts: seq<PC>) {
    Sized(s) && t < |s.threads| == |ts| && ts[t] == s.threads[t]
  }

  lemma ClaimFacts(s: State, t: nat, choice: Choice, y: SpanId, ts: seq<PC>)
    requires StepGiven(s, t, ts) && s.threads[t].Claim?
    ensures StepFacts(s, t, choice, y, ts, ThreadStep(GenerationFirst, s, t, choice))
  {
  }

  lemma SweeperFacts(s: State, t: nat, choice: Choice, y: SpanId, ts: seq<PC>)
    requires StepGiven(s, t, ts) && (s.threads[t].Sweep? || s.threads[t].Stamp?)
    ensures StepFacts(s, t, choice, y, ts, ThreadStep(GenerationFirst, s, t, choice))
  {
    match s.threads[t]
    case Sweep(_, _, _) =>
    case Stamp(_, _, _) =>
  }

  lemma HanderFacts(s: State, t: nat, choice: Choice, y: SpanId, ts: seq<PC>)
    requires StepGiven(s, t, ts) && (s.threads[t].FreeSpan? || s.threads[t].Push?)
    ensures StepFacts(s, t, choice, y, ts, ThreadStep(GenerationFirst, s, t, choice))
  {
    match s.threads[t]
    case FreeSpan(_, _, _) =>
    case Push(_, _, _) =>
  }

  /** Thread `t` has popped span `x`. */
  ghost function AfterTake(s: State, t: nat, g: nat, x: SpanId): State
    requires Sized(s) && t < |s.threads| && x < |s.spans|
  {
    var i := 1 - SweptIndex(g);
    s.(buffers := s.buffers[i := s.buffers[i] - multiset{x}], aux := s.aux[x := s.aux[x].(holder := Some(t))],
       threads := s.threads[t := LoadFirst(g, x)])
  }

  lemma TakeStep(order: ReadOrder, s: State, t: nat, choice: Choice)
    requires Sized(s) && t < |s.threads| && s.threads[t].Pop? && choice.take < |s.spans|
    requires choice.take in s.buffers[1 - SweptIndex(s.threads[t].g)]
    ensures ThreadStep(order, s, t, choice) == AfterTake(s, t, s.threads[t].g, choice.take)
  {
  }

  lemma TakeFrame(s: State, t: nat, x: SpanId, y: SpanId)
    requires Sized(s) && t < |s.threads| && y < |s.spans| && x < |s.spans| && s.threads[t] == Pop(s.g) && x in Unswept(s)
    ensures Frame(s, AfterTake(s, t, s.g, x), t, y)
  {
  }

  lemma TakeFacts(s: State, t: nat, choice: Choice, y: SpanId, ts: seq<PC>)
    requires StepGiven(s, t, ts) && s.threads[t].Pop? && choice.take < |s.spans|
    requires choice.take in s.buffers[1 - SweptIndex(s.threads[t].g)]
    ensures StepFacts(s, t, choice, y, ts, AfterTake(s, t, s.threads[t].g, choice.take))
  {
    TakeStep(GenerationFirst, s.(threads := ts), t, choice);
    TakeStep(StateFirst, s, t, choice);
    if s.threads[t].g == s.g && y < |s.spans| {
      TakeFrame(s, t, choice.take, y);
    }
  }

  lemma PopFacts(s: State, t: nat, choice: Choice, y: SpanId, ts: seq<PC>)
    requires StepGiven(s, t, ts) && s.threads[t].Pop?
    ensures StepFacts(s, t, choice, y, ts, ThreadStep(GenerationFirst, s, t, choice))
  {
    if choice.take in s.buffers[1 - SweptIndex(s.threads[t].g)] && choice.take < |s.spans| {
      TakeStep(GenerationFirst, s, t, choice);
      TakeFacts(s, t, choice, y, ts);
    } else {
      NoTakeFacts(s, t, choice, y, ts);
    }
  }

  lemma EmptyFacts(s: State, t: nat, choice: Choice, y: SpanId, ts: seq<PC>)
    requires StepGiven(s, t, ts) && s.threads[t].Pop? && s.buffers[1 - SweptIndex(s.threads[t].g)] == multiset{}
    ensures StepFacts(s, t, choice, y, ts, ThreadStep(GenerationFirst, s, t, choice))
  {
  }

  lemma WaitStep(order: ReadOrder, s: State, t: nat, choice: Choice)
    requires Sized(s) && t < |s.threads| && s.threads[t].Pop?
    requires var buffer := s.buffers[1 - SweptIndex(s.threads[t].g)];
      buffer != multiset{} && (choice.take !in buffer || choice.take >= |s.spans|)
    ensures ThreadStep(order, s, t, choice) == s
  {
  }

  lemma WaitFacts(s: State, t: nat, choice: Choice, y: SpanId, ts: seq<PC>)
    requires StepGiven(s, t, ts) && s.threads[t].Pop?
    requires ThreadStep(GenerationFirst, s.(threads := ts), t, choice) == s.(threads := ts)
    requires ThreadStep(StateFirst, s, t, choice) == s
    ensures StepFacts(s, t, choice, y, ts, s)
  {
  }

  lemma NoTakeFacts(s: State, t: nat, choice: Choice, y: SpanId, ts: seq<PC>)
    requires StepGiven(s, t, ts) && s.threads[t].Pop?
    requires choice.take !in s.buffers[1 - SweptIndex(s.threads[t].g)] || choice.take >= |s.spans|
    ensures StepFacts(s, t, choice, y, ts, ThreadStep(GenerationFirst, s, t, choice))
  {
    if s.buffers[1 - SweptIndex(s.threads[t].g)] == multiset{} {
      EmptyFacts(s, t, choice, y, ts);
    } else {
      WaitStep(GenerationFirst, s, t, choice);
      WaitStep(GenerationFirst, s.(threads := ts), t, choice);
      WaitStep(StateFirst, s, t, choice);
      WaitFacts(s, t, choice, y, ts);
    }
  }

  lemma JudgeFrame(s: State, t: nat, g: nat, x: SpanId, state: SpanState, generation: nat, y: SpanId)
    requires Sized(s) && t < |s.threads| && y < |s.spans| && !OwnsDirectly(s.threads[t])
    ensures Frame(s, Judge(s, t, g, x, state, generation), t, y)
  {
  }

  /** What judging a span does, whatever other threads do. */
  lemma JudgeOwn(s: State, ts: seq<PC>, t: nat, g: nat, x: SpanId, state: SpanState, generation: nat)
    requires Sized(s) && t < |s.threads| == |ts|
    ensures var e := Judge(s, t, g, x, state, generation);
      && |e.threads| == |s.threads| && e.threads == s.threads[t := e.threads[t]] && e.spans == s.spans
      && Judge(s.(threads := ts), t, g, x, state, generation) == e.(threads := ts[t := e.threads[t]])
      && !SweepsDirectly(e.threads[t]) && !e.threads[t].FreeSpan? && !e.threads[t].LoadState?
  {
  }

  lemma JudgeStep(order: ReadOrder, s: State, t: nat, choice: Choice)
    requires Sized(s) && t < |s.threads| && s.threads[t].LoadSpanGeneration?
    ensures var pc := s.threads[t];
      ThreadStep(order, s, t, choice) ==
      if pc.x < |s.spans| then Judge(s, t, pc.g, pc.x, pc.state, s.spans[pc.x].generation) else s
  {
  }

  lemma StateStep(order: ReadOrder, s: State, t: nat, choice: Choice)
    requires Sized(s) && t < |s.threads| && s.threads[t].LoadState?
    ensures var pc := s.threads[t];
      ThreadStep(order, s, t, choice) ==
      if pc.x < |s.spans| then Judge(s, t, pc.g, pc.x, s.spans[pc.x].state, pc.generation) else s
  {
  }

  ghost predicate JudgeGiven(s: State, t: nat, ts: seq<PC>) {
    StepGiven(s, t, ts) && (s.threads[t].LoadSpanGeneration? || s.threads[t].LoadState?)
  }

  lemma JudgedFacts(s: State, t: nat, choice: Choice, y: SpanId, ts: seq<PC>,
                    g: nat, x: SpanId, state: SpanState, generation: nat, e: State)
    requires JudgeGiven(s, t, ts) && e == Judge(s, t, g, x, state, generation)
    requires ThreadStep(GenerationFirst, s.(threads := ts), t, choice) == Judge(s.(threads := ts), t, g, x, state, generation)
    requires s.threads[t].LoadSpanGeneration? ==> e == ThreadStep(StateFirst, s, t, choice)
    ensures StepFacts(s, t, choice, y, ts, e)
  {
    JudgeOwn(s, ts, t, g, x, state, generation);
    if y < |s.spans| {
      JudgeFrame(s, t, g, x, state, generation, y);
    }
  }

  lemma NoSpanFacts(s: State, t: nat, choice: Choice, y: SpanId, ts: seq<PC>)
    requires JudgeGiven(s, t, ts) && s.threads[t].x >= |s.spans|
    ensures StepFacts(s, t, choice, y, ts, ThreadStep(GenerationFirst, s, t, choice))
  {
  }

  lemma JudgeFacts(s: State, t: nat, choice: Choice, y: SpanId, ts: seq<PC>)
    requires JudgeGiven(s, t, ts)
    ensures StepFacts(s, t, choice, y, ts, ThreadStep(GenerationFirst, s, t, choice))
  {
    var pc, s' := s.threads[t], s.(threads := ts);
    if pc.x >= |s.spans| {
      NoSpanFacts(s, t, choice, y, ts);
    } else if pc.LoadState? {
      StateStep(GenerationFirst, s, t, choice);
      StateStep(GenerationFirst, s', t, choice);
      JudgedFacts(s, t, choice, y, ts, pc.g, pc.x, s.spans[pc.x].state, pc.generation,
                  ThreadStep(GenerationFirst, s, t, choice));
    } else {
      JudgeStep(GenerationFirst, s, t, choice);
      JudgeStep(GenerationFirst, s', t, choice);
      JudgeStep(StateFirst, s, t, choice);
      JudgedFacts(s, t, choice, y, ts, pc.g, pc.x, pc.state, s.spans[pc.x].generation,
                  ThreadStep(GenerationFirst, s, t, choice));
    }
  }

  lemma FirstReadFacts(s: State, t: nat, choice: Choice, y: SpanId, ts: seq<PC>)
    requires StepGiven(s, t, ts) && s.threads[t].LoadFirst?
    ensures StepFacts(s, t, choice, y, ts, ThreadStep(GenerationFirst, s, t, choice))
  {
  }

  lemma DirectCheckFacts(s: State, t: nat, choice: Choice, y: SpanId, ts: seq<PC>)
    requires StepGiven(s, t, ts) && s.threads[t].DirectCheck?
    ensures StepFacts(s, t, choice, y, ts, ThreadStep(GenerationFirst, s, t, choice))
  {
  }

  lemma GenerationFacts(s: State, t: nat, choice: Choice, y: SpanId, ts: seq<PC>)
    requires StepGiven(s, t, ts) && (s.threads[t].LoadGeneration? || s.threads[t].DirectLoadGeneration?)
    ensures StepFacts(s, t, choice, y, ts, ThreadStep(GenerationFirst, s, t, choice))
  {
    match s.threads[t]
    case LoadGeneration =>
    case DirectLoadGeneration(_) =>
  }

  lemma IdleFacts(s: State, t: nat, choice: Choice, y: SpanId, ts: seq<PC>)
    requires StepGiven(s, t, ts) && s.threads[t].Idle?
    ensures StepFacts(s, t, choice, y, ts, ThreadStep(GenerationFirst, s, t, choice))
  {
  }

  lemma LeaveFacts(s: State, t: nat, choice: Choice, y: SpanId, ts: seq<PC>)
    requires StepGiven(s, t, ts) && s.threads[t].Leave?
    ensures StepFacts(s, t, choice, y, ts, ThreadStep(GenerationFirst, s, t, choice))
  {
  }

  /** Steps at the start and the end of the sweep. */
  lemma CallerFacts(s: State, t: nat, choice: Choice, y: SpanId, ts: seq<PC>)
    requires StepGiven(s, t, ts)
    requires var pc := s.threads[t]; pc.Enter? || pc.SetDone? || pc.Panicked?
    ensures StepFacts(s, t, choice, y, ts, ThreadStep(GenerationFirst, s, t, choice))
  {
    match s.threads[t]
    case Enter =>
    case SetDone(_) =>
    case Panicked =>
  }

  lemma StepHasFacts(s: State, t: nat, choice: Choice, y: SpanId, ts: seq<PC>)
    requires StepGiven(s, t, ts)
    ensures StepFacts(s, t, choice, y, ts, ThreadStep(GenerationFirst, s, t, choice))
  {
    match s.threads[t]
    case Pop(_) => PopFacts(s, t, choice, y, ts);
    case LoadSpanGeneration(_, _, _) => JudgeFacts(s, t, choice, y, ts);
    case LoadState(_, _, _) => JudgeFacts(s, t, choice, y, ts);
    case Claim(_, _, _) => ClaimFacts(s, t, choice, y, ts);
    case Sweep(_, _, _) => SweeperFacts(s, t, choice, y, ts);
    case Stamp(_, _, _) => SweeperFacts(s, t, choice, y, ts);
    case FreeSpan(_, _, _) => HanderFacts(s, t, choice, y, ts);
    case Push(_, _, _) => HanderFacts(s, t, choice, y, ts);
    case LoadGeneration => GenerationFacts(s, t, choice, y, ts);
    case LoadFirst(_, _) => FirstReadFacts(s, t, choice, y, ts);
    case DirectLoadGeneration(_) => GenerationFacts(s, t, choice, y, ts);
    case DirectCheck(_, _) => DirectCheckFacts(s, t, choice, y, ts);
    case Idle => IdleFacts(s, t, choice, y, ts);
    case Leave(_, _) => LeaveFacts(s, t, choice, y, ts);
    case _ => CallerFacts(s, t, choice, y, ts);
  }

  /** Away from the two reads the order makes no difference. */
  lemma OtherStepsCommute(s: State, t: nat, choice: Choice)
    requires Sized(s) && t < |s.threads|
    requires !s.threads[t].LoadFirst? && !s.threads[t].LoadState?
    ensures Reorder(ThreadStep(GenerationFirst, s, t, choice)) == ThreadStep(StateFirst, Reorder(s), t, choice)
  {
    StepHasFacts(s, t, choice, 0, Reorder(s).threads);
    StepHasFacts(Reorder(s), t, choice, 0, Reorder(s).threads);
  }

  lemma FrameWaits(s: State, s': State, t: nat, y: SpanId)
    requires Frame(s, s', t, y) && Waits(s, y)
    ensures Waits(s', y)
  {
  }

  /** What is known of thread `t` and span `y`. */
  ghost predicate Seen(s: State, t: nat, y: SpanId) {
    && Sized(s) && t < |s.threads| && y < |s.spans| && Waits(s, y) && ReadOk(s, s.threads[t])
    && Known(Reorder(s), t, y)
  }

  lemma OrderInvSeen(s: State, t: nat, y: SpanId)
    requires OrderInv(s) && t < |s.threads| && y < |s.spans|
    ensures Seen(s, t, y)
  {
    InvKnown(Reorder(s), t, y);
  }

  lemma PopperWaits(s: State, t: nat, choice: Choice, y: SpanId)
    requires Seen(s, t, y) && !Sweeps(s.threads[t])
    ensures Waits(ThreadStep(GenerationFirst, s, t, choice), y)
  {
    assert Reorder(s).threads[t] == Reordered(s.threads[t]);
    StepHasFacts(s, t, choice, y, s.threads);
    FrameWaits(s, ThreadStep(GenerationFirst, s, t, choice), t, y);
  }

  /** A direct sweeper goes on with its span, or keeps it; any other span stays as it is. */
  lemma DirectWaits(s: State, t: nat, choice: Choice, y: SpanId)
    requires Seen(s, t, y) && OwnsDirectly(s.threads[t]) && (s.threads[t].Stamp? ==> !choice.free)
    ensures Waits(ThreadStep(GenerationFirst, s, t, choice), y)
  {
    assert Reorder(s).threads[t] == s.threads[t];
    match s.threads[t]
    case Sweep(_, _, _) =>
    case Stamp(_, _, _) =>
    case Push(_, _, _) =>
  }

  /** A sweeper that popped its span: the span is on no stack and held by nobody. */
  lemma SweeperAlone(s: State, t: nat, y: SpanId)
    requires Seen(s, t, y) && Owning(s.threads[t]) && !s.threads[t].direct
    ensures s.threads[t].x < |s.spans|
    ensures y == s.threads[t].x ==> Unswept(s)[y] == 0 && s.aux[y].holder.None?
    ensures y != s.threads[t].x ==> s.aux[y].owner != Some(t)
  {
    assert Reorder(s).threads[t] == s.threads[t];
  }

  lemma SweeperWaits(s: State, t: nat, choice: Choice, y: SpanId)
    requires Seen(s, t, y) && Owning(s.threads[t]) && !s.threads[t].direct
    ensures Waits(ThreadStep(GenerationFirst, s, t, choice), y)
  {
    SweeperAlone(s, t, y);
    SweeperStepWaits(s, t, choice, y);
  }

  lemma SweeperStepWaits(s: State, t: nat, choice: Choice, y: SpanId)
    requires Sized(s) && t < |s.threads| && y < |s.spans| && Waits(s, y)
    requires Owning(s.threads[t]) && s.threads[t].x < |s.spans| && s.threads[t].g == s.g
    requires y == s.threads[t].x ==> Unswept(s)[y] == 0 && s.aux[y].holder.None?
    requires y != s.threads[t].x ==> s.aux[y].owner != Some(t)
    ensures Waits(ThreadStep(GenerationFirst, s, t, choice), y)
  {
    match s.threads[t]
    case Sweep(_, _, _) =>
    case Stamp(_, _, _) =>
    case FreeSpan(_, _, _) =>
    case Push(_, _, _) =>
  }

  /** What a claimant knows of span `y`. */
  lemma ClaimantKnows(s: State, t: nat, y: SpanId)
    requires Seen(s, t, y) && s.threads[t].Claim?
    ensures s.threads[t].g == s.g && s.threads[t].x < |s.spans|
    ensures s.aux[y].owner != Some(t)
    ensures y == s.threads[t].x && !s.threads[t].direct ==> Unswept(s)[y] == 0
  {
    assert Reorder(s).threads[t] == s.threads[t];
  }

  lemma ClaimantWaits(s: State, t: nat, choice: Choice, y: SpanId)
    requires Seen(s, t, y) && s.threads[t].Claim?
    ensures Waits(ThreadStep(GenerationFirst, s, t, choice), y)
  {
    ClaimantKnows(s, t, y);
    ClaimWaits(s, t, choice, y);
  }

  lemma ClaimWaits(s: State, t: nat, choice: Choice, y: SpanId)
    requires Sized(s) && t < |s.threads| && y < |s.spans| && Waits(s, y)
    requires s.threads[t].Claim? && s.threads[t].g == s.g && s.threads[t].x < |s.spans| && s.aux[y].owner != Some(t)
    requires y == s.threads[t].x && !s.threads[t].direct ==> Unswept(s)[y] == 0
    ensures Waits(ThreadStep(GenerationFirst, s, t, choice), y)
  {
  }

  lemma ThreadWaits(s: State, t: nat, choice: Choice, y: SpanId)
    requires Seen(s, t, y) && KeepsDirect(s, Thread(t, choice))
    ensures Waits(ThreadStep(GenerationFirst, s, t, choice), y)
  {
    var pc := s.threads[t];
    if pc.Claim? {
      ClaimantWaits(s, t, choice, y);
    } else if !Owning(pc) {
      PopperWaits(s, t, choice, y);
    } else if pc.direct {
      DirectWaits(s, t, choice, y);
    } else {
      SweeperWaits(s, t, choice, y);
    }
  }

  /** What a thread between the two reads knows. */
  lemma ReaderKnows(s: State, t: nat)
    requires OrderInv(s) && t < |s.threads| && (s.threads[t].LoadFirst? || s.threads[t].LoadState?)
    ensures Sized(s) && s.threads[t].g == s.g && s.threads[t].x < |s.spans|
    ensures s.spans[s.threads[t].x].state.InUse?
    ensures Inv(Reorder(s)) && Reorder(s).threads[t] == Reordered(s.threads[t]) && ReadOk(s, s.threads[t])
  {
    var x := s.threads[t].x;
    assert ThreadOk(Reorder(s), t);
    assert Waits(s, x);
  }

  lemma ReadFirstKeepsInv(s: State, t: nat, choice: Choice)
    requires OrderInv(s) && t < |s.threads| && s.threads[t].LoadFirst?
    ensures Inv(Reorder(ThreadStep(GenerationFirst, s, t, choice)))
  {
    ReaderKnows(s, t);
    var m, g, x := Reorder(s), s.threads[t].g, s.threads[t].x;
    ReorderGoto(s, t, LoadState(g, x, s.spans[x].generation));
    LoadFirstStep(m, t, choice);
    assert ThreadStep(StateFirst, m, t, choice) == Goto(m, t, LoadSpanGeneration(g, x, InUse));
  }

  /** A thread may go for any span it holds; the swap decides. */
  lemma GoForHeld(m: State, t: nat, g: nat, x: SpanId)
    requires Inv(m) && t < |m.threads| && m.threads[t] == LoadSpanGeneration(g, x, InUse)
    requires x < |m.spans| && m.spans[x].state.InUse?
    ensures Inv(Goto(m, t, Claim(g, x, false)))
  {
    assert ThreadOk(m, t);
    ThreadStepKeeps(m, Goto(m, t, Claim(g, x, false)), t);
  }

  lemma LetGo(m: State, t: nat, g: nat, x: SpanId)
    requires Inv(m) && t < |m.threads| && m.threads[t] == LoadSpanGeneration(g, x, InUse)
    requires x < |m.spans| && m.spans[x].generation + 2 != g
    ensures Inv(Goto(Release(m, x), t, Pop(g)))
  {
    assert ThreadOk(m, t);
    var m' := Goto(Release(m, x), t, Pop(g));
    InvKnown(m, t, x);
    DropSpan(m, t, x, m');
    SpanStepKeeps(m, m', t, x);
  }

  lemma ReadStateKeepsInv(s: State, t: nat, choice: Choice)
    requires OrderInv(s) && t < |s.threads| && s.threads[t].LoadState?
    ensures Inv(Reorder(ThreadStep(GenerationFirst, s, t, choice)))
  {
    ReaderKnows(s, t);
    var m, g, x := Reorder(s), s.threads[t].g, s.threads[t].x;
    if s.threads[t].generation + 2 == g {
      ReorderGoto(s, t, Claim(g, x, false));
      GoForHeld(m, t, g, x);
    } else {
      ReorderGoto(Release(s, x), t, Pop(g));
      LetGo(m, t, g, x);
    }
  }

  lemma ThreadKeepsInv(s: State, t: nat, choice: Choice)
    requires OrderInv(s) && t < |s.threads|
    ensures Inv(Reorder(ThreadStep(GenerationFirst, s, t, choice)))
  {
    if s.threads[t].LoadFirst? {
      ReadFirstKeepsInv(s, t, choice);
    } else if s.threads[t].LoadState? {
      ReadStateKeepsInv(s, t, choice);
    } else {
      OtherStepsCommute(s, t, choice);
      ThreadStepKeepsInv(Reorder(s), t, choice);
    }
  }

  lemma GenerationKnown(s: State, t: nat)
    requires OrderInv(s) && t < |s.threads|
    ensures UpToDate(s, s.threads[t]) && (s.threads[t].LoadState? ==> s.threads[t].g == s.g)
  {
    assert ThreadOk(Reorder(s), t);
    assert Reorder(s).threads[t] == Reordered(s.threads[t]);
  }

  lemma OtherReadOk(s: State, t: nat, choice: Choice, u: nat)
    requires OrderInv(s) && t < |s.threads| && u < |s.threads| && u != t
    ensures var e := ThreadStep(GenerationFirst, s, t, choice);
      u < |e.threads| && ReadOk(e, e.threads[u])
  {
    GenerationKnown(s, t);
    GenerationKnown(s, u);
    var pc := s.threads[u];
    assert ReadOk(s, pc);
    StepHasFacts(s, t, choice, if pc.LoadState? then pc.x else 0, s.threads);
  }

  lemma ThreadKeepsOrder(s: State, t: nat, choice: Choice)
    requires OrderInv(s) && t < |s.threads| && KeepsDirect(s, Thread(t, choice))
    ensures OrderInv(ThreadStep(GenerationFirst, s, t, choice))
  {
    var e := ThreadStep(GenerationFirst, s, t, choice);
    ThreadKeepsInv(s, t, choice);
    GenerationKnown(s, t);
    StepHasFacts(s, t, choice, 0, s.threads);
    forall x | 0 <= x < |e.spans|
      ensures Waits(e, x)
    {
      OrderInvSeen(s, t, x);
      ThreadWaits(s, t, choice, x);
    }
    forall u | 0 <= u < |e.threads|
      ensures ReadOk(e, e.threads[u])
    {
      if u != t { OtherReadOk(s, t, choice, u); }
    }
  }

  lemma AllocateWaits(s: State, x: SpanId, pages: nat, y: SpanId)
    requires Waits(s, y)
    ensures Waits(AllocateStep(s, x, pages), y)
  {
  }

  lemma AllocateReadOk(s: State, x: SpanId, pages: nat, pc: PC)
    requires Sized(s) && ReadOk(s, pc) && (pc.LoadState? ==> pc.g == s.g)
    ensures ReadOk(AllocateStep(s, x, pages), pc)
  {
  }

  lemma AllocateKeepsOrder(s: State, x: SpanId, pages: nat)
    requires OrderInv(s)
    ensures OrderInv(AllocateStep(s, x, pages))
  {
    var e := AllocateStep(s, x, pages);
    AllocateKeeps(Reorder(s), x, pages);
    AllocateCommutes(s, x, pages);
    forall y | 0 <= y < |e.spans|
      ensures Waits(e, y)
    {
      AllocateWaits(s, x, pages, y);
    }
    forall u | 0 <= u < |e.threads|
      ensures ReadOk(e, e.threads[u])
    {
      GenerationKnown(s, u);
      AllocateReadOk(s, x, pages, s.threads[u]);
    }
  }

  lemma AllocateCommutes(s: State, x: SpanId, pages: nat)
    requires Sized(s)
    ensures Reorder(AllocateStep(s, x, pages)) == AllocateStep(Reorder(s), x, pages)
    ensures AllocateStep(s, x, pages).threads == s.threads && |AllocateStep(s, x, pages).spans| == |s.spans|
  {
  }

  lemma CollectKeepsOrder(s: State)
    requires OrderInv(s) && s.done && s.sweepers == 0
    ensures OrderInv(CollectStep(s))
  {
    var e, m := CollectStep(s), Reorder(s);
    CollectKeeps(m);
    assert Reorder(e) == CollectStep(m);
    forall y | 0 <= y < |e.spans|
      ensures Waits(e, y)
    {
      QuiescentSpans(m, y);
      StacksTradeRoles(s);
    }
    forall u | 0 <= u < |e.threads|
      ensures ReadOk(e, e.threads[u])
    {
      NobodyCounted(m.threads, u);
      assert ReadOk(s, s.threads[u]) && m.threads[u] == Reordered(s.threads[u]);
    }
  }

  lemma StepKeepsOrder(s: State, a: Action)
    requires OrderInv(s) && KeepsDirect(s, a)
    ensures OrderInv(Step(GenerationFirst, s, a))
  {
    match a {
      case Thread(t, choice) => if t < |s.threads| { ThreadKeepsOrder(s, t, choice); }
      case Allocate(x, pages) => AllocateKeepsOrder(s, x, pages);
      case Collect => if s.done && s.sweepers == 0 { CollectKeepsOrder(s); }
    }
  }

  lemma {:induction false} RunKeepsOrder(s: State, schedule: seq<Action>)
    requires OrderInv(s) && DirectKeeps(s, schedule)
    ensures OrderInv(Run(GenerationFirst, s, schedule))
    decreases |schedule|
  {
    if schedule != [] {
      StepKeepsOrder(s, schedule[0]);
      RunKeepsOrder(Step(GenerationFirst, s, schedule[0]), schedule[1..]);
    }
  }

  lemma CycleStartOrder(s: State)
    requires CycleStart(s)
    ensures OrderInv(s)
  {
    assert Reorder(s) == s;
    CycleStartInv(s);
    forall x | 0 <= x < |s.spans|
      ensures Waits(s, x)
    {
      assert Unswept(s)[x] == if s.spans[x].state.InUse? then 1 else 0;
    }
  }

  /** With the generation read first, as long as no direct sweep gives a span back, all is as it should
      be: no panic is reached, and at quiescence everything is swept, each span once. */
  lemma GenerationFirstSafe(s: State, schedule: seq<Action>)
    requires CycleStart(s) && DirectKeeps(s, schedule)
    ensures var e := Run(GenerationFirst, s, schedule);
      NoPanic(e) && (e.done && e.sweepers == 0 ==> CycleSwept(e))
  {
    CycleStartOrder(s);
    RunKeepsOrder(s, schedule);
    OrderInvSafe(Run(GenerationFirst, s, schedule));
  }

  lemma OrderInvSafe(e: State)
    requires OrderInv(e)
    ensures NoPanic(e) && (e.done && e.sweepers == 0 ==> CycleSwept(e))
  {
    ReorderedNoPanic(e);
    if e.done && e.sweepers == 0 {
      InvCycleSwept(Reorder(e));
    }
  }

  lemma ReorderedNoPanic(e: State)
    requires Inv(Reorder(e))
    ensures NoPanic(e)
  {
    InvNoPanic(Reorder(e));
    forall t | 0 <= t < |e.threads|
      ensures !e.threads[t].Panicked?
    {
      assert Reorder(e).threads[t] == Reordered(e.threads[t]);
    }
  }

  // ----- A direct sweep that gives a span back makes it panic

  /** One span in use, waiting to be swept, and two threads. */
  const TWO_SWEEPERS: State := State(
    4, false, 0, 0, 1, [multiset{}, multiset{0}], [Span(InUse, 2, 1)], [Idle, Idle],
    [Aux(None, None, true, 1, 0)], 0, 0, 0)

  function By(t: nat): Action {
    Thread(t, Choice(if t == 1 then Some(0) else None, 0, true))
  }

  function RunOf(s: State, ts: seq<nat>): State
    decreases |ts|
  {
    if ts == [] then s else RunOf(Step(GenerationFirst, s, By(ts[0])), ts[1..])
  }

  function Schedule(ts: seq<nat>): seq<Action> {
    seq(|ts|, i requires 0 <= i < |ts| => By(ts[i]))
  }

  lemma {:induction false} RunOfIsRun(s: State, ts: seq<nat>)
    ensures RunOf(s, ts) == Run(GenerationFirst, s, Schedule(ts))
    decreases |ts|
  {
    if ts != [] {
      RunOfIsRun(Step(GenerationFirst, s, By(ts[0])), ts[1..]);
      assert Schedule(ts)[1..] == Schedule(ts[1..]);
    }
  }

  /** Thread 0 pops the span and reads its generation; thread 1 sweeps the span directly and frees it;
      thread 0 then reads the state and takes the span for a stray. */
  lemma GenerationFirstPanics() returns (schedule: seq<Action>)
    ensures !NoPanic(Run(GenerationFirst, TWO_SWEEPERS, schedule))
  {
    var s0 := TWO_SWEEPERS;
    var s4 := PopAndReadGeneration(s0);
    var s5 := SweepDirectly(s4);
    StrayFound(s5);
    var first, second := [0, 0, 0, 0, 0], [1, 1, 1, 1, 1, 1, 1];
    RunOfAppend(s0, first, second + [0]);
    RunOfAppend(s4, second, [0]);
    RunOfIsRun(s0, first + (second + [0]));
    schedule := Schedule(first + (second + [0]));
  }

  lemma StrayFound(s: State)
    requires s.g == 4 && |s.buffers| == 2 && |s.aux| == 1 && |s.threads| == 2
    requires s.threads[0] == LoadState(4, 0, 2) && s.spans == [Span(Free, 4, 1)]
    ensures !NoPanic(RunOf(s, [0]))
  {
    var e := Step(GenerationFirst, s, By(0));
    assert e.threads[0].Panicked?;
    assert RunOf(s, [0]) == RunOf(e, []);
  }

  lemma {:induction false} RunOfAppend(s: State, xs: seq<nat>, ys: seq<nat>)
    ensures RunOf(s, xs + ys) == RunOf(RunOf(s, xs), ys)
    decreases |xs|
  {
    if xs == [] {
      assert xs + ys == ys;
    } else {
      assert (xs + ys)[0] == xs[0] && (xs + ys)[1..] == xs[1..] + ys;
      RunOfAppend(Step(GenerationFirst, s, By(xs[0])), xs[1..], ys);
    }
  }

  lemma PopAndReadGeneration(s: State) returns (e: State)
    requires s == TWO_SWEEPERS
    ensures e == RunOf(s, [0, 0, 0, 0, 0])
    ensures e.g == 4 && e.buffers == [multiset{}, multiset{}] && e.spans == s.spans && |e.threads| == 2
    ensures e.threads[0] == LoadState(4, 0, 2) && e.threads[1] == Idle && |e.aux| == 1 && e.pagesInUse == 1
  {
    var a := By(0);
    var s1 := Step(GenerationFirst, s, a);
    var s2 := Step(GenerationFirst, s1, a);
    var s3 := Step(GenerationFirst, s2, a);
    assert s3.threads[0] == Pop(4);
    var s4 := Step(GenerationFirst, s3, a);
    assert s4.threads[0] == LoadFirst(4, 0);
    e := Step(GenerationFirst, s4, a);
    assert RunOf(s, [0, 0, 0, 0, 0]) == RunOf(s1, [0, 0, 0, 0]) == RunOf(s2, [0, 0, 0]);
    assert RunOf(s2, [0, 0, 0]) == RunOf(s3, [0, 0]) == RunOf(s4, [0]) == RunOf(e, []);
    assert s4.buffers[1] == multiset{};
  }

  lemma ClaimDirectly(s: State) returns (e: State)
    requires s.g == 4 && s.buffers == [multiset{}, multiset{}] && s.spans == [Span(InUse, 2, 1)] && |s.threads| == 2
    requires s.threads[0] == LoadState(4, 0, 2) && s.threads[1] == Idle && |s.aux| == 1 && s.pagesInUse == 1
    ensures e == RunOf(s, [1, 1, 1, 1])
    ensures e.g == 4 && |e.buffers| == 2 && |e.aux| == 1 && |e.threads| == 2 && e.pagesInUse == 1
    ensures e.threads[0] == LoadState(4, 0, 2) && e.threads[1] == Sweep(4, 0, true) && e.spans == [Span(InUse, 3, 1)]
  {
    var a := By(1);
    var s1 := Step(GenerationFirst, s, a);
    assert s1.threads[1] == DirectLoadGeneration(0);
    var s2 := Step(GenerationFirst, s1, a);
    var s3 := Step(GenerationFirst, s2, a);
    assert s3.threads[1] == Claim(4, 0, true);
    e := Step(GenerationFirst, s3, a);
    assert RunOf(s, [1, 1, 1, 1]) == RunOf(s1, [1, 1, 1]) == RunOf(s2, [1, 1]) == RunOf(s3, [1]) == RunOf(e, []);
  }

  lemma SweepDirectly(s: State) returns (e: State)
    requires s.g == 4 && s.buffers == [multiset{}, multiset{}] && s.spans == [Span(InUse, 2, 1)] && |s.threads| == 2
    requires s.threads[0] == LoadState(4, 0, 2) && s.threads[1] == Idle && |s.aux| == 1 && s.pagesInUse == 1
    ensures e == RunOf(s, [1, 1, 1, 1, 1, 1, 1])
    ensures e.g == 4 && |e.buffers| == 2 && |e.aux| == 1 && |e.threads| == 2
    ensures e.threads[0] == LoadState(4, 0, 2) && e.spans == [Span(Free, 4, 1)]
  {
    var a := By(1);
    var s4 := ClaimDirectly(s);
    var s5 := Step(GenerationFirst, s4, a);
    var s6 := Step(GenerationFirst, s5, a);
    assert s6.threads[1] == FreeSpan(4, 0, true);
    e := Step(GenerationFirst, s6, a);
    assert [1, 1, 1, 1, 1, 1, 1] == [1, 1, 1, 1] + [1, 1, 1];
    RunOfAppend(s, [1, 1, 1, 1], [1, 1, 1]);
    assert RunOf(s4, [1, 1, 1]) == RunOf(s5, [1, 1]) == RunOf(s6, [1]) == RunOf(e, []);
  }

  /** The source's order of reads is free of panics exactly where no direct sweep gives a span back to
      the heap: `frees` tells whether the surroundings may do that. */
  lemma GenerationFirstSafeExactly(frees: bool)
    ensures (forall s, schedule :: CycleStart(s) && (frees || DirectKeeps(s, schedule)) ==>
              NoPanic(Run(GenerationFirst, s, schedule)))
       <==> !frees
  {
    if frees {
      TwoSweepersStart();
      var schedule := GenerationFirstPanics();
    } else {
      forall s, schedule | CycleStart(s) && DirectKeeps(s, schedule)
        ensures NoPanic(Run(GenerationFirst, s, schedule))
      {
        GenerationFirstSafe(s, schedule);
      }
    }
  }

  /** In particular it is safe exactly without direct sweeps: `sweepsDirectly` tells whether there may be
      any. */
  lemma ReadOrderMatters(sweepsDirectly: bool)
    ensures (forall s, schedule :: CycleStart(s) && (sweepsDirectly || NoDirect(schedule)) ==>
              NoPanic(Run(GenerationFirst, s, schedule)))
       <==> !sweepsDirectly
  {
    if sweepsDirectly {
      TwoSweepersStart();
      var schedule := GenerationFirstPanics();
    } else {
      forall s, schedule | CycleStart(s) && NoDirect(schedule)
        ensures NoPanic(Run(GenerationFirst, s, schedule))
      {
        NoDirectKeeps(s, schedule);
        GenerationFirstSafe(s, schedule);
      }
    }
  }

  ghost predicate NobodyDirect(s: State) {
    forall t :: 0 <= t < |s.threads| ==> !SweepsDirectly(s.threads[t])
  }

  lemma {:induction false} NoDirectRun(s: State, schedule: seq<Action>)
    requires NobodyDirect(s) && NoDirect(schedule)
    ensures DirectKeeps(s, schedule)
    decreases |schedule|
  {
    if schedule != [] {
      var a := schedule[0];
      if Sized(s) && a.Thread? && a.t < |s.threads| {
        StepHasFacts(s, a.t, a.choice, 0, s.threads);
      }
      NoDirectRun(Step(GenerationFirst, s, a), schedule[1..]);
    }
  }

  lemma NoDirectKeeps(s: State, schedule: seq<Action>)
    requires CycleStart(s) && NoDirect(schedule)
    ensures DirectKeeps(s, schedule)
  {
    NoDirectRun(s, schedule);
  }

  lemma TwoSweepersStart()
    ensures CycleStart(TWO_SWEEPERS)
  {
    var s := TWO_SWEEPERS;
    assert Total(PagesOf, s.spans) == Total(PagesOf, s.spans[..0]) + PagesOf(s.spans[0]);
  }
}
