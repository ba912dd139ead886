/** What `sweep_one` answers, over whole runs: a number of pages for each span it has swept, the pages of that
    span if it went back to the heap, and that there is nothing to sweep (`None`, the source's `!0`) exactly
    for a call that found the unswept stack empty, or the sweep done. */
module SweepAnswers {
  import opened Options
  import opened Generations
  import opened Sums
  import opened SweepProtocol
  import opened SweepInvariant
  import opened SweepTheorems
  import opened SweepProgress

  /** What can be seen of the calls of `sweep_one`, one event to a step. */
  datatype Event =
    | Refused(t: nat)                           // the call found the sweep done
    | SawNone(t: nat)                           // the call found the unswept stack empty
    | SweptOne(t: nat, x: SpanId)
    | GaveBack(t: nat, x: SpanId, pages: nat)
    | KeptOne(t: nat, x: SpanId)
    | Answered(t: nat, result: Option<nat>)

  function EventsOf(s: State, a: Action): seq<Event> {
    if !a.Thread? || a.t >= |s.threads| || !Sized(s) then []
    else match s.threads[a.t]
      case Idle => if a.choice.direct.None? && s.done then [Refused(a.t)] else []
      case Pop(g) => if s.buffers[1 - SweptIndex(g)] == multiset{} then [SawNone(a.t)] else []
      case Sweep(_, x, false) => [SweptOne(a.t, x)]
      case FreeSpan(_, x, false) => if x < |s.spans| then [GaveBack(a.t, x, s.spans[x].pages)] else []
      case Push(_, x, false) => [KeptOne(a.t, x)]
      case Leave(result, false) => [Answered(a.t, result)]
      case _ => []
  }

  function Log(s: State, schedule: seq<Action>): seq<Event>
    decreases |schedule|
  {
    if schedule == [] then []
    else EventsOf(s, schedule[0]) + Log(Step(StateFirst, s, schedule[0]), schedule[1..])
  }

  // ----- How a call goes

  /** How far a thread's call has come, told from its events. */
  datatype Progress =
    | Nothing
    | FoundNone
    | HasSwept(x: SpanId)
    | Finished(pages: nat)
    | Wrong

  function Next(p: Progress, e: Event): Progress {
    match (p, e)
    case (Nothing, Refused(_)) => Nothing
    case (Nothing, SawNone(_)) => FoundNone
    case (FoundNone, Answered(_, None)) => Nothing
    case (Nothing, SweptOne(_, x)) => HasSwept(x)
    case (HasSwept(x), GaveBack(_, y, pages)) => if x == y then Finished(pages) else Wrong
    case (HasSwept(x), KeptOne(_, y)) => if x == y then Finished(0) else Wrong
    case (Finished(n), Answered(_, Some(m))) => if n == m then Nothing else Wrong
    case _ => Wrong
  }

  function NextOf(p: Progress, events: seq<Event>): Progress {
    if events == [] then p else Next(p, events[0])
  }

  function ProgressOf(log: seq<Event>, t: nat): Progress {
    if log == [] then Nothing
    else
      var before, e := ProgressOf(log[..|log| - 1], t), log[|log| - 1];
      if e.t == t then Next(before, e) else before
  }

  /** How far a thread has come, told from where it stands. */
  function ProgressAt(pc: PC): Progress {
    match pc
    case SetDone(_) => FoundNone
    case Stamp(_, x, false) => HasSwept(x)
    case FreeSpan(_, x, false) => HasSwept(x)
    case Push(_, x, false) => HasSwept(x)
    case Leave(None, false) => FoundNone
    case Leave(Some(n), false) => Finished(n)
    case _ => Nothing
  }

  lemma ProgressSnoc(log: seq<Event>, e: Event, t: nat)
    ensures ProgressOf(log + [e], t) == if e.t == t then Next(ProgressOf(log, t), e) else ProgressOf(log, t)
  {
    assert (log + [e])[..|log|] == log;
  }

  /** The events so far tell of every thread where it stands. */
  ghost predicate Told(s: State, log: seq<Event>) {
    forall t :: 0 <= t < |s.threads| ==> ProgressOf(log, t) == ProgressAt(s.threads[t])
  }

  /** What one step adds to the events of its thread, told from where the thread stood and stands. */
  ghost predicate StepTold(s: State, a: Action, s': State) {
    && |s'.threads| == |s.threads|
    && |EventsOf(s, a)| <= 1
    && (a.Thread? && a.t < |s.threads| ==>
         && s'.threads == s.threads[a.t := s'.threads[a.t]]
         && ProgressAt(s'.threads[a.t]) == NextOf(ProgressAt(s.threads[a.t]), EventsOf(s, a))
         && (EventsOf(s, a) != [] ==> EventsOf(s, a)[0].t == a.t))
    && (!(a.Thread? && a.t < |s.threads|) ==> s'.threads == s.threads && EventsOf(s, a) == [])
  }

  /** The step of thread `t` leads to the place that its event tells of. */
  ghost predicate PlaceTold(s: State, t: nat, choice: Choice) {
    && Sized(s) && t < |s.threads|
    && var e := ThreadStep(StateFirst, s, t, choice);
      && t < |e.threads|
      && (e.threads[t].Panicked? ||
          ProgressAt(e.threads[t]) == NextOf(ProgressAt(s.threads[t]), EventsOf(s, Thread(t, choice))))
  }

  /** The thread has the heap's generation and an actual span in hand. */
  predicate InHand(s: State, pc: PC) {
    && (pc.Pop? || pc.Push? ==> pc.g == s.g)
    && (pc.LoadFirst? || pc.LoadSpanGeneration? || pc.Claim? || Owning(pc) ==> pc.x < |s.spans|)
    && !pc.LoadState? && !pc.Panicked?
  }

  lemma ClaimTold(s: State, t: nat, choice: Choice)
    requires Sized(s) && t < |s.threads| && InHand(s, s.threads[t]) && s.threads[t].Claim?
    ensures PlaceTold(s, t, choice)
  {
  }

  lemma SweeperTold(s: State, t: nat, choice: Choice)
    requires Sized(s) && t < |s.threads| && InHand(s, s.threads[t])
    requires var pc := s.threads[t];
      pc.Sweep? || pc.Stamp?
    ensures PlaceTold(s, t, choice)
  {
    match s.threads[t]
    case Sweep(_, _, _) =>
    case Stamp(_, _, _) =>
  }

  lemma HanderTold(s: State, t: nat, choice: Choice)
    requires Sized(s) && t < |s.threads| && InHand(s, s.threads[t])
    requires var pc := s.threads[t];
      pc.FreeSpan? || pc.Push?
    ensures PlaceTold(s, t, choice)
  {
    match s.threads[t]
    case FreeSpan(_, _, _) =>
    case Push(_, _, _) =>
  }

  lemma PopTold(s: State, t: nat, choice: Choice)
    requires Sized(s) && t < |s.threads| && InHand(s, s.threads[t]) && s.threads[t].Pop?
    ensures PlaceTold(s, t, choice)
  {
  }

  lemma ReaderTold(s: State, t: nat, choice: Choice)
    requires Sized(s) && t < |s.threads| && InHand(s, s.threads[t])
    requires var pc := s.threads[t];
      pc.LoadFirst? || pc.LoadSpanGeneration?
    ensures PlaceTold(s, t, choice)
  {
    match s.threads[t]
    case LoadFirst(_, _) =>
    case LoadSpanGeneration(_, _, _) =>
  }

  lemma CallerTold(s: State, t: nat, choice: Choice)
    requires Sized(s) && t < |s.threads| && InHand(s, s.threads[t])
    requires var pc := s.threads[t];
      pc.Idle? || pc.Enter? || pc.LoadGeneration? || pc.SetDone? || pc.DirectLoadGeneration? || pc.DirectCheck? || pc.Leave?
    ensures PlaceTold(s, t, choice)
  {
    match s.threads[t]
    case Idle =>
    case Enter =>
    case LoadGeneration =>
    case SetDone(_) =>
    case DirectLoadGeneration(_) =>
    case DirectCheck(_, _) =>
    case Leave(_, _) =>
  }

  lemma StepPlaceTold(s: State, t: nat, choice: Choice)
    requires Sized(s) && t < |s.threads| && InHand(s, s.threads[t])
    ensures PlaceTold(s, t, choice)
  {
    match s.threads[t]
    case Claim(_, _, _) => ClaimTold(s, t, choice);
    case Sweep(_, _, _) => SweeperTold(s, t, choice);
    case Stamp(_, _, _) => SweeperTold(s, t, choice);
    case FreeSpan(_, _, _) => HanderTold(s, t, choice);
    case Push(_, _, _) => HanderTold(s, t, choice);
    case Pop(_) => PopTold(s, t, choice);
    case LoadFirst(_, _) => ReaderTold(s, t, choice);
    case LoadSpanGeneration(_, _, _) => ReaderTold(s, t, choice);
    case _ => CallerTold(s, t, choice);
  }

  lemma EventOfThread(s: State, t: nat, choice: Choice)
    requires Sized(s) && t < |s.threads|
    ensures var events := EventsOf(s, Thread(t, choice)); |events| <= 1 && (events != [] ==> events[0].t == t)
  {
  }

  lemma InvInHand(s: State, t: nat)
    requires Inv(s) && t < |s.threads|
    ensures InHand(s, s.threads[t])
  {
    assert ThreadOk(s, t);
  }

  lemma StepIsTold(s: State, a: Action)
    requires Inv(s)
    ensures StepTold(s, a, Step(StateFirst, s, a))
  {
    if a.Thread? && a.t < |s.threads| {
      InvInHand(s, a.t);
      StepMoves(s, a.t, a.choice);
      StepKeepsInv(s, a);
      InvNoPanic(Step(StateFirst, s, a));
      StepPlaceTold(s, a.t, a.choice);
      EventOfThread(s, a.t, a.choice);
    }
  }

  lemma StepKeepsTold(s: State, a: Action, log: seq<Event>)
    requires Inv(s) && Told(s, log)
    ensures Told(Step(StateFirst, s, a), log + EventsOf(s, a))
  {
    StepIsTold(s, a);
    var s' := Step(StateFirst, s, a);
    var events := EventsOf(s, a);
    if events == [] {
      assert log + events == log;
    } else {
      assert log + events == log + [events[0]];
      forall t | 0 <= t < |s'.threads|
        ensures ProgressOf(log + events, t) == ProgressAt(s'.threads[t])
      {
        ProgressSnoc(log, events[0], t);
      }
    }
  }

  lemma {:induction false} RunTold(s: State, schedule: seq<Action>, log: seq<Event>)
    requires Inv(s) && Told(s, log)
    ensures Told(Run(StateFirst, s, schedule), log + Log(s, schedule))
    decreases |schedule|
  {
    if schedule == [] {
      assert log + Log(s, schedule) == log;
    } else {
      var a, rest := schedule[0], schedule[1..];
      StepKeepsInv(s, a);
      StepKeepsTold(s, a, log);
      RunTold(Step(StateFirst, s, a), rest, log + EventsOf(s, a));
      ConcatAssociative(log, EventsOf(s, a), Log(Step(StateFirst, s, a), rest));
    }
  }

  // ----- Answers and sweeps

  function SweptBy(t: nat): Event -> nat {
    (e: Event) => if e.SweptOne? && e.t == t then 1 else 0
  }

  function NumberBy(t: nat): Event -> nat {
    (e: Event) => if e.Answered? && e.t == t && e.result.Some? then 1 else 0
  }

  function PagesBackBy(t: nat): Event -> nat {
    (e: Event) => if e.GaveBack? && e.t == t then e.pages else 0
  }

  function PagesAnsweredBy(t: nat): Event -> nat {
    (e: Event) => if e.Answered? && e.t == t && e.result.Some? then e.result.value else 0
  }

  /** If the events of a thread go as those of calls do, the numbers it has answered and is about to answer
      are as many as the spans it has swept, and add up to the pages it has given back. */
  lemma {:induction false} AnswersAreSweeps(log: seq<Event>, t: nat)
    requires ProgressOf(log, t) != Wrong
    ensures var p := ProgressOf(log, t);
      && Total(SweptBy(t), log) == Total(NumberBy(t), log) + (if p.HasSwept? || p.Finished? then 1 else 0)
      && Total(PagesBackBy(t), log) == Total(PagesAnsweredBy(t), log) + (if p.Finished? then p.pages else 0)
  {
    if log != [] {
      AnswersAreSweeps(log[..|log| - 1], t);
    }
  }

  /** The number of spans that `sweep_one` has swept, in all threads below `n`. */
  function SweptTotal(log: seq<Event>, n: nat): nat {
    if n == 0 then 0 else SweptTotal(log, n - 1) + Total(SweptBy(n - 1), log)
  }

  function NumbersTotal(log: seq<Event>, n: nat): nat {
    if n == 0 then 0 else NumbersTotal(log, n - 1) + Total(NumberBy(n - 1), log)
  }

  /** A call has swept a span and not yet answered. */
  function OwesNumber(pc: PC): nat {
    if ProgressAt(pc).HasSwept? || ProgressAt(pc).Finished? then 1 else 0
  }

  lemma {:induction false} TotalsMatch(s: State, log: seq<Event>, n: nat)
    requires Told(s, log) && n <= |s.threads|
    requires forall t :: 0 <= t < |s.threads| ==> ProgressOf(log, t) != Wrong
    ensures SweptTotal(log, n) == NumbersTotal(log, n) + Total(OwesNumber, s.threads[..n])
  {
    if n > 0 {
      TotalsMatch(s, log, n - 1);
      AnswersAreSweeps(log, n - 1);
      assert s.threads[..n][..n - 1] == s.threads[..n - 1];
    }
  }

  lemma NobodyTold(s: State)
    requires CycleStart(s)
    ensures Told(s, [])
  {
  }

  /** Over every run, each thread's calls go one way: a call finds the sweep done, and answers `None` at once;
      or it finds the unswept stack empty, and answers `None`; or it sweeps one span, gives it back or keeps
      it, and answers the pages given back.  No call does anything else, and where a thread stands tells how
      far its call has come. */
  lemma CallsGoRight(s: State, schedule: seq<Action>)
    requires CycleStart(s)
    ensures var e, log := Run(StateFirst, s, schedule), Log(s, schedule);
      Told(e, log) && forall t :: 0 <= t < |e.threads| ==> ProgressOf(log, t) != Wrong
  {
    CycleStartInv(s);
    NobodyTold(s);
    RunTold(s, schedule, []);
    assert [] + Log(s, schedule) == Log(s, schedule);
  }

  /** Over every run, the calls of `sweep_one` that have answered a number, or are about to, are as many as the
      spans it has swept, and for each thread what they answer adds up to the pages it has given back. */
  lemma NumbersTellSweeps(s: State, schedule: seq<Action>)
    requires CycleStart(s)
    ensures var e, log := Run(StateFirst, s, schedule), Log(s, schedule);
      && SweptTotal(log, |e.threads|) == NumbersTotal(log, |e.threads|) + Total(OwesNumber, e.threads)
      && forall t :: 0 <= t < |e.threads| && !ProgressAt(e.threads[t]).Finished? ==>
           Total(PagesBackBy(t), log) == Total(PagesAnsweredBy(t), log)
  {
    var e, log := Run(StateFirst, s, schedule), Log(s, schedule);
    CallsGoRight(s, schedule);
    TotalsMatch(e, log, |e.threads|);
    assert e.threads[..|e.threads|] == e.threads;
    forall t | 0 <= t < |e.threads| && !ProgressAt(e.threads[t]).Finished?
      ensures Total(PagesBackBy(t), log) == Total(PagesAnsweredBy(t), log)
    {
      AnswersAreSweeps(log, t);
    }
  }

  // ----- The events are what happens to the heap

  ghost predicate Happens(s: State, e: Event, s': State) {
    && Sized(s) && Sized(s') && |s'.spans| == |s.spans|
    && match e
       case Refused(_) => s.done && s' == s
       case SawNone(_) => Unswept(s) == multiset{}
       case SweptOne(_, x) =>
         && x < |s.spans| && s'.aux[x].sweeps == s.aux[x].sweeps + 1
         && s'.pagesSwept == s.pagesSwept + s.spans[x].pages
       case GaveBack(_, x, pages) =>
         && x < |s.spans| && s.spans[x].state.InUse? && s'.spans[x].state.Free? && pages == s.spans[x].pages
         && s'.pagesInUse + pages == s.pagesInUse && Swept(s') == Swept(s)
       case KeptOne(_, x) =>
         && x < |s.spans| && s'.spans == s.spans && Swept(s') == Swept(s) + multiset{x}
       case Answered(_, result) => s'.sweepers + 1 == s.sweepers && (result == None ==> s'.reported == s.reported)
  }

  lemma SweepHappens(s: State, t: nat, choice: Choice)
    requires t < |s.threads| && s.threads[t].Sweep? && Known(s, t, s.threads[t].x)
    ensures Happens(s, SweptOne(t, s.threads[t].x), ThreadStep(StateFirst, s, t, choice))
  {
  }

  lemma GiveBackHappens(s: State, t: nat, choice: Choice)
    requires t < |s.threads| && s.threads[t].FreeSpan? && Known(s, t, s.threads[t].x)
    requires s.pagesInUse >= s.spans[s.threads[t].x].pages
    ensures Happens(s, GaveBack(t, s.threads[t].x, s.spans[s.threads[t].x].pages), ThreadStep(StateFirst, s, t, choice))
  {
  }

  lemma KeepHappens(s: State, t: nat, choice: Choice)
    requires t < |s.threads| && s.threads[t].Push? && Known(s, t, s.threads[t].x)
    ensures Happens(s, KeptOne(t, s.threads[t].x), ThreadStep(StateFirst, s, t, choice))
  {
  }

  lemma CallHappens(s: State, t: nat, choice: Choice)
    requires Sized(s) && t < |s.threads| && (s.threads[t].Pop? ==> s.threads[t].g == s.g) && s.sweepers > 0
    requires s.threads[t].Pop? || s.threads[t].Leave?
    ensures var events := EventsOf(s, Thread(t, choice));
      events != [] ==> Happens(s, events[0], ThreadStep(StateFirst, s, t, choice))
  {
    match s.threads[t]
    case Pop(_) =>
    case Leave(_, _) =>
  }

  lemma RefusalHappens(s: State, t: nat, choice: Choice)
    requires Sized(s) && t < |s.threads| && s.threads[t].Idle? && choice.direct.None? && s.done
    ensures Happens(s, Refused(t), ThreadStep(StateFirst, s, t, choice))
  {
  }

  /** In every reachable state an event is what the step does: a call is refused only when the sweep is done, and
      then changes nothing; it sees no span only when the unswept stack is empty; and so on. */
  lemma EventHappens(s: State, a: Action)
    requires Inv(s) && EventsOf(s, a) != []
    ensures Happens(s, EventsOf(s, a)[0], Step(StateFirst, s, a))
  {
    var t, pc := a.t, s.threads[a.t];
    InvInHand(s, t);
    ThreadUpdate(s.threads, t, Idle);
    if pc.Pop? || pc.Leave? {
      CallHappens(s, t, a.choice);
    } else if pc.Idle? {
      RefusalHappens(s, t, a.choice);
    } else {
      InvKnown(s, t, pc.x);
      TotalUpdate(PagesOf, s.spans, pc.x, s.spans[pc.x]);
      match pc
      case Sweep(_, _, _) => SweepHappens(s, t, a.choice);
      case FreeSpan(_, _, _) => GiveBackHappens(s, t, a.choice);
      case Push(_, _, _) => KeepHappens(s, t, a.choice);
    }
  }
}
