/** Sweeping comes to an end: between collections no thread is kept in a call of `sweep_one` for more than
    a bounded number of its own steps, and the end of the sweep can be reached from every state. */
module SweepProgress {
  import opened Options
  import opened SweepProtocol
  import opened SweepInvariant
  import opened SweepTheorems

  // ----- Steps left in a call

  /** A bound on the steps a thread has left, apart from those that a span it may yet pop will cost. */
  function Rank(pc: PC): nat {
    match pc
    case Idle => 0
    case Panicked => 0
    case Leave(_, _) => 1
    case Push(_, _, _) => 2
    case FreeSpan(_, _, _) => 2
    case SetDone(_) => 2
    case Stamp(_, _, _) => 3
    case Pop(_) => 3
    case Sweep(_, _, _) => 4
    case LoadGeneration => 4
    case Enter => 5
    case Claim(_, _, _) => 5
    case LoadSpanGeneration(_, _, _) => 6
    case LoadState(_, _, _) => 6
    case DirectCheck(_, _) => 6
    case LoadFirst(_, _) => 7
    case DirectLoadGeneration(_) => 7
  }

  const STEPS_PER_SPAN: nat := 5

  function Left(s: State, t: nat): nat
    requires |s.buffers| == 2 && t < |s.threads|
  {
    STEPS_PER_SPAN * |Unswept(s)| + Rank(s.threads[t])
  }

  /** A step moves one thread, and puts nothing on the unswept stack. */
  ghost predicate Moved(s: State, s': State, t: nat) {
    && Sized(s) && Sized(s') && s'.g == s.g && t < |s.threads| == |s'.threads|
    && s'.threads == s.threads[t := s'.threads[t]]
    && Unswept(s') <= Unswept(s) && (s.done ==> s'.done)
  }

  lemma ClaimantMoves(s: State, t: nat, choice: Choice)
    requires Sized(s) && t < |s.threads| && (s.threads[t].Push? ==> s.threads[t].g == s.g)
    requires s.threads[t].Claim? || Owning(s.threads[t])
    ensures Moved(s, ThreadStep(StateFirst, s, t, choice), t)
  {
    match s.threads[t]
    case Claim(_, _, _) =>
    case Sweep(_, _, _) =>
    case Stamp(_, _, _) =>
    case FreeSpan(_, _, _) =>
    case Push(_, _, _) =>
  }

  lemma PopMoves(s: State, t: nat, choice: Choice)
    requires Sized(s) && t < |s.threads| && s.threads[t] == Pop(s.g)
    ensures Moved(s, ThreadStep(StateFirst, s, t, choice), t)
  {
    if choice.take in Unswept(s) {
      assert Unswept(s) - multiset{choice.take} <= Unswept(s);
    }
  }

  lemma JudgeMoves(s: State, t: nat, g: nat, x: SpanId, state: SpanState, generation: nat)
    requires Sized(s) && t < |s.threads|
    ensures Moved(s, Judge(s, t, g, x, state, generation), t)
  {
  }

  lemma ReaderMoves(s: State, t: nat, choice: Choice)
    requires Sized(s) && t < |s.threads|
    requires var pc := s.threads[t]; pc.LoadFirst? || pc.LoadSpanGeneration? || pc.LoadState?
    ensures Moved(s, ThreadStep(StateFirst, s, t, choice), t)
  {
    match s.threads[t]
    case LoadFirst(_, _) =>
    case LoadSpanGeneration(g, x, state) =>
      if x < |s.spans| { JudgeMoves(s, t, g, x, state, s.spans[x].generation); }
    case LoadState(g, x, generation) =>
      if x < |s.spans| { JudgeMoves(s, t, g, x, s.spans[x].state, generation); }
  }

  lemma StepMoves(s: State, t: nat, choice: Choice)
    requires Sized(s) && t < |s.threads|
    requires var pc := s.threads[t]; pc.Pop? || pc.Push? ==> pc.g == s.g
    ensures Moved(s, ThreadStep(StateFirst, s, t, choice), t)
  {
    match s.threads[t]
    case Idle =>
    case Enter =>
    case LoadGeneration =>
    case SetDone(_) =>
    case DirectLoadGeneration(_) =>
    case DirectCheck(_, _) =>
    case Leave(_, _) =>
    case Panicked =>
    case Pop(_) => PopMoves(s, t, choice);
    case LoadFirst(_, _) => ReaderMoves(s, t, choice);
    case LoadSpanGeneration(_, _, _) => ReaderMoves(s, t, choice);
    case LoadState(_, _, _) => ReaderMoves(s, t, choice);
    case _ => ClaimantMoves(s, t, choice);
  }

  /** A step of a thread in a call brings it nearer to the end of the call. */
  lemma OwnStepNearer(s: State, t: nat, choice: Choice)
    requires Inv(s) && t < |s.threads| && !s.threads[t].Idle?
    ensures var s' := ThreadStep(StateFirst, s, t, choice);
      Moved(s, s', t) && (s' == s || Left(s', t) < Left(s, t))
  {
    GenerationInHand(s, t);
    CallStepNearer(s, t, choice);
  }

  /** A thread that works on a stack has the heap's generation in hand. */
  lemma GenerationInHand(s: State, t: nat)
    requires Inv(s) && t < |s.threads|
    ensures var pc := s.threads[t]; pc.Pop? || pc.Push? ==> pc.g == s.g
  {
    assert ThreadOk(s, t);
  }

  lemma CallStepNearer(s: State, t: nat, choice: Choice)
    requires Sized(s) && t < |s.threads| && !s.threads[t].Idle?
    requires var pc := s.threads[t]; pc.Pop? || pc.Push? ==> pc.g == s.g
    ensures var s' := ThreadStep(StateFirst, s, t, choice);
      Moved(s, s', t) && (s' == s || Left(s', t) < Left(s, t))
  {
    StepMoves(s, t, choice);
    if s.threads[t].Pop? {
      PopNearer(s, t, choice);
    } else {
      StepRank(s, t, choice);
      SmallerBag(Unswept(ThreadStep(StateFirst, s, t, choice)), Unswept(s));
    }
  }

  ghost predicate RankFalls(s: State, s': State, t: nat) {
    s' == s || (t < |s.threads| == |s'.threads| && Rank(s'.threads[t]) < Rank(s.threads[t]))
  }

  lemma ClaimRank(s: State, t: nat, choice: Choice)
    requires Sized(s) && t < |s.threads| && s.threads[t].Claim?
    ensures RankFalls(s, ThreadStep(StateFirst, s, t, choice), t)
  {
  }

  lemma OwnerRank(s: State, t: nat, choice: Choice)
    requires Sized(s) && t < |s.threads| && Owning(s.threads[t])
    ensures RankFalls(s, ThreadStep(StateFirst, s, t, choice), t)
  {
    match s.threads[t]
    case Sweep(_, _, _) =>
    case Stamp(_, _, _) =>
    case FreeSpan(_, _, _) =>
    case Push(_, _, _) =>
  }

  lemma StepRank(s: State, t: nat, choice: Choice)
    requires Sized(s) && t < |s.threads| && !s.threads[t].Idle? && !s.threads[t].Pop?
    ensures RankFalls(s, ThreadStep(StateFirst, s, t, choice), t)
  {
    match s.threads[t]
    case Enter =>
    case LoadGeneration =>
    case SetDone(_) =>
    case LoadFirst(_, _) =>
    case LoadSpanGeneration(_, _, _) =>
    case LoadState(_, _, _) =>
    case DirectLoadGeneration(_) =>
    case DirectCheck(_, _) =>
    case Leave(_, _) =>
    case Panicked =>
    case Claim(_, _, _) => ClaimRank(s, t, choice);
    case _ => OwnerRank(s, t, choice);
  }

  /** Popping takes one span off the stack. */
  lemma PopNearer(s: State, t: nat, choice: Choice)
    requires Sized(s) && t < |s.threads| && s.threads[t] == Pop(s.g)
    ensures var s' := ThreadStep(StateFirst, s, t, choice);
      && |s'.buffers| == 2 && t < |s'.threads|
      && (s' == s
          || (Unswept(s) == multiset{} && s'.threads[t] == SetDone(s.g) && Unswept(s') == multiset{})
          || (s'.threads[t].LoadFirst? && |Unswept(s')| == |Unswept(s)| - 1))
  {
  }

  lemma SmallerBag(a: multiset<SpanId>, b: multiset<SpanId>)
    requires a <= b
    ensures |a| <= |b|
  {
    assert b == a + (b - a);
  }

  // ----- Every call is bounded

  ghost predicate NoCollect(schedule: seq<Action>) {
    forall k :: 0 <= k < |schedule| ==> !schedule[k].Collect?
  }

  /** Thread `t` starts no new call during the run. */
  ghost predicate StartsNothing(s: State, schedule: seq<Action>, t: nat)
    decreases |schedule|
  {
    schedule != [] ==>
      && !Starts(s, schedule[0], t)
      && StartsNothing(Step(StateFirst, s, schedule[0]), schedule[1..], t)
  }

  /** How many steps of thread `t` in the run have an effect. */
  ghost function Moves(s: State, schedule: seq<Action>, t: nat): nat
    decreases |schedule|
  {
    if schedule == [] then 0
    else Effect(s, schedule[0], t) + Moves(Step(StateFirst, s, schedule[0]), schedule[1..], t)
  }

  lemma OthersMove(s: State, a: Action, t: nat)
    requires Inv(s) && t < |s.threads| && !a.Collect? && !(a.Thread? && a.t == t)
    ensures var s' := Step(StateFirst, s, a);
      |s'.buffers| == 2 && t < |s'.threads| && Left(s', t) <= Left(s, t)
  {
    if a.Thread? && a.t < |s.threads| {
      GenerationInHand(s, a.t);
      StepMoves(s, a.t, a.choice);
      SmallerBag(Unswept(Step(StateFirst, s, a)), Unswept(s));
    }
  }

  ghost predicate Starts(s: State, a: Action, t: nat) {
    a.Thread? && a.t == t && t < |s.threads| && s.threads[t].Idle?
  }

  ghost function Effect(s: State, a: Action, t: nat): nat {
    if a.Thread? && a.t == t && Step(StateFirst, s, a) != s then 1 else 0
  }

  lemma StepNearer(s: State, a: Action, t: nat)
    requires Inv(s) && t < |s.threads| && !a.Collect? && !Starts(s, a, t)
    ensures var s' := Step(StateFirst, s, a);
      Inv(s') && t < |s'.threads| && Left(s', t) + Effect(s, a, t) <= Left(s, t)
  {
    StepKeepsInv(s, a);
    if a.Thread? && a.t == t {
      OwnStepNearer(s, t, a.choice);
    } else {
      OthersMove(s, a, t);
    }
  }

  /** Between collections, a thread in a call has at most five steps to go for each unswept span, and
      seven besides, however the others run. */
  lemma {:induction false} CallBounded(s: State, schedule: seq<Action>, t: nat)
    requires Inv(s) && t < |s.threads| && NoCollect(schedule) && StartsNothing(s, schedule, t)
    ensures Moves(s, schedule, t) <= Left(s, t) <= STEPS_PER_SPAN * |Unswept(s)| + 7
    decreases |schedule|
  {
    if schedule != [] {
      assert !schedule[0].Collect?;
      StepNearer(s, schedule[0], t);
      CallBounded(Step(StateFirst, s, schedule[0]), schedule[1..], t);
    }
  }

  // ----- The end can be reached

  /** A thread in a call is never stuck. */
  lemma CanMove(s: State, t: nat) returns (choice: Choice)
    requires Inv(s) && t < |s.threads| && !s.threads[t].Idle?
    ensures ThreadStep(StateFirst, s, t, choice) != s
  {
    assert ThreadOk(s, t);
    if s.threads[t].Pop? {
      choice := CanPop(s, t);
    } else {
      choice := Choice(None, 0, false);
      GoesOn(s, t, choice);
    }
  }

  lemma CanPop(s: State, t: nat) returns (choice: Choice)
    requires Sized(s) && StacksOk(s) && t < |s.threads| && s.threads[t] == Pop(s.g)
    ensures ThreadStep(StateFirst, s, t, choice) != s
  {
    choice := Choice(None, 0, false);
    if Unswept(s) != multiset{} {
      var x :| x in Unswept(s);
      choice := Choice(None, x, false);
    }
    var s' := ThreadStep(StateFirst, s, t, choice);
    assert t < |s'.threads| && s'.threads[t] != s.threads[t];
  }

  lemma GoesOn(s: State, t: nat, choice: Choice)
    requires Sized(s) && t < |s.threads| && ThreadOk(s, t) && !s.threads[t].Idle? && !s.threads[t].Pop?
    ensures ThreadStep(StateFirst, s, t, choice) != s
  {
    var s' := ThreadStep(StateFirst, s, t, choice);
    assert t < |s'.threads| && s'.threads[t] != s.threads[t];
  }

  /** The thread has yet to pop a span or to find that there is none. */
  predicate YetToPop(pc: PC) {
    pc.Enter? || pc.LoadGeneration? || pc.Pop? || pc.SetDone?
  }

  ghost predicate Nearer(s: State, e: State) {
    |s.buffers| == 2 && |e.buffers| == 2 && (e.done || |Unswept(e)| < |Unswept(s)|)
  }

  lemma PopsOrGoesOn(s: State, t: nat, choice: Choice)
    requires Sized(s) && t < |s.threads| && YetToPop(s.threads[t]) && ThreadOk(s, t)
    requires ThreadStep(StateFirst, s, t, choice) != s
    ensures var s' := ThreadStep(StateFirst, s, t, choice);
      t < |s'.threads| && (YetToPop(s'.threads[t]) || Nearer(s, s'))
  {
    if s.threads[t].Pop? {
      PopNearer(s, t, choice);
    }
  }

  /** Nothing is allocated and no collection begins. */
  ghost predicate OnlyThreads(schedule: seq<Action>) {
    forall k :: 0 <= k < |schedule| ==> schedule[k].Thread?
  }

  /** Running thread `t` alone brings its call to its end, from any point; from before a pop, either a
      span is popped or the sweep found to be done. */
  lemma Finish(s: State, t: nat) returns (schedule: seq<Action>, e: State)
    requires Inv(s) && t < |s.threads|
    ensures OnlyThreads(schedule) && e == Run(StateFirst, s, schedule)
    ensures
      && Inv(e) && e.threads == s.threads[t := Idle]
      && |Unswept(e)| <= |Unswept(s)| && (s.done ==> e.done)
      && (YetToPop(s.threads[t]) ==> Nearer(s, e))
    decreases Left(s, t)
  {
    if s.threads[t].Idle? {
      schedule, e := [], s;
      assert s.threads[t := Idle] == s.threads;
    } else {
      var a, s' := MoveOn(s, t);
      var rest;
      rest, e := Finish(s', t);
      schedule := [a] + rest;
      RunCons(s, a, rest);
      assert s'.threads[t := Idle] == s.threads[t := Idle];
      NearerChain(s, s', e, t);
    }
  }

  lemma NearerChain(s: State, s': State, e: State, t: nat)
    requires |s.buffers| == |s'.buffers| == |e.buffers| == 2 && t < |s.threads| && t < |s'.threads|
    requires |Unswept(s')| <= |Unswept(s)| && |Unswept(e)| <= |Unswept(s')| && (s'.done ==> e.done)
    requires YetToPop(s.threads[t]) ==> YetToPop(s'.threads[t]) || Nearer(s, s')
    requires YetToPop(s'.threads[t]) ==> Nearer(s', e)
    ensures YetToPop(s.threads[t]) ==> Nearer(s, e)
  {
  }

  lemma MoveOn(s: State, t: nat) returns (a: Action, s': State)
    requires Inv(s) && t < |s.threads| && !s.threads[t].Idle?
    ensures a.Thread? && s' == Step(StateFirst, s, a) && Inv(s') && |s'.threads| == |s.threads|
    ensures s'.threads == s.threads[t := s'.threads[t]] && Left(s', t) < Left(s, t)
    ensures |Unswept(s')| <= |Unswept(s)| && (s.done ==> s'.done)
    ensures YetToPop(s.threads[t]) ==> YetToPop(s'.threads[t]) || Nearer(s, s')
  {
    var choice := CanMove(s, t);
    a := Thread(t, choice);
    s' := Step(StateFirst, s, a);
    StepKeepsInv(s, a);
    OwnStepNearer(s, t, choice);
    SmallerBag(Unswept(s'), Unswept(s));
    if YetToPop(s.threads[t]) {
      assert ThreadOk(s, t);
      PopsOrGoesOn(s, t, choice);
    }
  }

  lemma {:induction false} RunAppend(s: State, xs: seq<Action>, ys: seq<Action>)
    ensures Run(StateFirst, s, xs + ys) == Run(StateFirst, Run(StateFirst, s, xs), ys)
    decreases |xs|
  {
    if xs == [] {
      assert xs + ys == ys;
    } else {
      assert (xs + ys)[0] == xs[0] && (xs + ys)[1..] == xs[1..] + ys;
      RunAppend(Step(StateFirst, s, xs[0]), xs[1..], ys);
    }
  }

  ghost predicate IdleBelow(s: State, k: nat) {
    forall t :: 0 <= t < k && t < |s.threads| ==> s.threads[t].Idle?
  }

  /** Every call under way is brought to its end. */
  lemma {:induction false} FinishAll(s: State, k: nat) returns (schedule: seq<Action>)
    requires Inv(s) && k <= |s.threads|
    ensures OnlyThreads(schedule)
    ensures var e := Run(StateFirst, s, schedule);
      Inv(e) && |e.threads| == |s.threads| && IdleBelow(e, k)
    decreases k
  {
    if k == 0 {
      schedule := [];
    } else {
      var first := FinishAll(s, k - 1);
      var last, e := Finish(Run(StateFirst, s, first), k - 1);
      RunAppend(s, first, last);
      schedule := first + last;
    }
  }

  lemma EnterIdle(s: State, t: nat) returns (a: Action, s': State)
    requires Inv(s) && t < |s.threads| && s.threads[t].Idle? && !s.done
    ensures a.Thread? && s' == Step(StateFirst, s, a) && Inv(s')
    ensures s'.threads == s.threads[t := Enter] && Unswept(s') == Unswept(s)
  {
    a := Thread(t, Choice(None, 0, false));
    s' := Step(StateFirst, s, a);
    StepKeepsInv(s, a);
  }

  /** One call of `sweep_one` from the start, run alone. */
  lemma RunCall(s: State, t: nat) returns (schedule: seq<Action>)
    requires Inv(s) && t < |s.threads| && s.threads[t].Idle? && !s.done
    ensures OnlyThreads(schedule)
    ensures var e := Run(StateFirst, s, schedule);
      Inv(e) && e.threads == s.threads && Nearer(s, e)
  {
    var a, s' := EnterIdle(s, t);
    var rest, e := Finish(s', t);
    RunCons(s, a, rest);
    schedule := [a] + rest;
    assert s'.threads[t := Idle] == s.threads;
    NearerFrom(s, s', e);
  }

  lemma RunCons(s: State, a: Action, rest: seq<Action>)
    ensures Run(StateFirst, s, [a] + rest) == Run(StateFirst, Step(StateFirst, s, a), rest)
  {
    assert ([a] + rest)[1..] == rest;
  }

  lemma NearerFrom(s: State, s': State, e: State)
    requires |s.buffers| == 2 && Nearer(s', e) && Unswept(s') == Unswept(s)
    ensures Nearer(s, e)
  {
  }

  lemma AllIdleUncounted(s: State)
    requires Inv(s) && IdleBelow(s, |s.threads|)
    ensures s.sweepers == 0
  {
    NoThreads(s.threads);
  }

  /** With every thread idle, calls of `sweep_one` by one thread come to the end of the sweep. */
  lemma {:induction false} DrainAlone(s: State) returns (schedule: seq<Action>)
    requires Inv(s) && |s.threads| > 0 && IdleBelow(s, |s.threads|)
    ensures OnlyThreads(schedule)
    ensures Run(StateFirst, s, schedule).done && Run(StateFirst, s, schedule).sweepers == 0
    decreases if s.done then 0 else 1 + |Unswept(s)|
  {
    if s.done {
      schedule := [];
      AllIdleUncounted(s);
    } else {
      var call := RunCall(s, 0);
      var rest := DrainAlone(Run(StateFirst, s, call));
      RunAppend(s, call, rest);
      schedule := call + rest;
    }
  }

  /** From every reachable state, by steps of the threads alone, a state can be reached in which the sweep
      is done and no sweeper is left. */
  lemma QuiescenceReachable(s: State, schedule: seq<Action>) returns (more: seq<Action>)
    requires CycleStart(s) && |s.threads| > 0
    ensures OnlyThreads(more)
    ensures var e := Run(StateFirst, s, schedule + more);
      e.done && e.sweepers == 0 && CycleSwept(e)
  {
    CycleStartInv(s);
    RunKeepsInv(s, schedule);
    RunKeepsThreads(s, schedule);
    var s1 := Run(StateFirst, s, schedule);
    var ends := FinishAll(s1, |s1.threads|);
    var drain := DrainAlone(Run(StateFirst, s1, ends));
    more := ends + drain;
    RunAppend(s1, ends, drain);
    RunAppend(s, schedule, more);
    QuiescenceMeansSwept(s, schedule + more);
  }

  lemma {:induction false} RunKeepsThreads(s: State, schedule: seq<Action>)
    requires Inv(s)
    ensures |Run(StateFirst, s, schedule).threads| == |s.threads|
    decreases |schedule|
  {
    if schedule != [] {
      StepKeepsInv(s, schedule[0]);
      StepKeepsThreads(s, schedule[0]);
      RunKeepsThreads(Step(StateFirst, s, schedule[0]), schedule[1..]);
    }
  }

  lemma StepKeepsThreads(s: State, a: Action)
    requires Inv(s)
    ensures |Step(StateFirst, s, a).threads| == |s.threads|
  {
    if a.Thread? && a.t < |s.threads| {
      GenerationInHand(s, a.t);
      StepMoves(s, a.t, a.choice);
    }
  }

  // ----- What the surroundings may do

  /** A call begun after the sweep is done is over at once: until the next collection a thread at rest takes
      no part in sweeping, unless it sweeps directly. */
  lemma {:induction false} DoneKeepsOut(s: State, schedule: seq<Action>, t: nat)
    requires Inv(s) && s.done && t < |s.threads| && s.threads[t].Idle? && NoCollect(schedule)
    requires forall k :: 0 <= k < |schedule| && schedule[k].Thread? && schedule[k].t == t ==> schedule[k].choice.direct.None?
    ensures var e := Run(StateFirst, s, schedule); e.done && t < |e.threads| && e.threads[t].Idle?
    decreases |schedule|
  {
    if schedule != [] {
      var a := schedule[0];
      StepKeepsInv(s, a);
      StepKeepsOut(s, a, t);
      DoneKeepsOut(Step(StateFirst, s, a), schedule[1..], t);
    }
  }

  lemma StepKeepsOut(s: State, a: Action, t: nat)
    requires Inv(s) && s.done && t < |s.threads| && s.threads[t].Idle? && !a.Collect?
    requires a.Thread? && a.t == t ==> a.choice.direct.None?
    ensures var s' := Step(StateFirst, s, a); s'.done && t < |s'.threads| && s'.threads[t].Idle?
  {
    if a.Thread? && a.t < |s.threads| {
      GenerationInHand(s, a.t);
      StepMoves(s, a.t, a.choice);
    }
  }

  /** Allocation takes a free span into use: it has the heap's generation and goes on the swept stack. */
  lemma AllocationHappens(s: State, x: SpanId, pages: nat)
    requires Inv(s) && x < |s.spans| && s.spans[x].state.Free?
    ensures var s' := Step(StateFirst, s, Allocate(x, pages));
      && Inv(s') && s'.spans == s.spans[x := Span(InUse, s.g, pages)]
      && Swept(s') == Swept(s) + multiset{x} && Unswept(s') == Unswept(s)
      && s'.pagesInUse == s.pagesInUse + pages && s'.threads == s.threads
  {
    AllocateKeeps(s, x, pages);
    AllocateTakes(s, x, pages);
  }

  lemma AllocateTakes(s: State, x: SpanId, pages: nat)
    requires Sized(s) && x < |s.spans| && s.spans[x].state.Free?
    ensures var s' := AllocateStep(s, x, pages);
      && Step(StateFirst, s, Allocate(x, pages)) == s' && Sized(s') && s'.spans == s.spans[x := Span(InUse, s.g, pages)]
      && Swept(s') == Swept(s) + multiset{x} && Unswept(s') == Unswept(s)
      && s'.pagesInUse == s.pagesInUse + pages && s'.threads == s.threads
  {
  }

  /** A collection can begin whenever the sweep is done and no sweeper is left: then every span in use waits,
      once, on the unswept stack with the generation before, and is due; nothing else is on either stack. */
  lemma CollectionHappens(s: State)
    requires Inv(s) && s.done && s.sweepers == 0
    ensures var s' := Step(StateFirst, s, Collect);
      && Inv(s') && s'.g == s.g + 2 && !s'.done && s'.sweepers == 0 && s'.spans == s.spans && s'.threads == s.threads
      && Swept(s') == multiset{} && s'.sweptBefore == s'.pagesSwept == s.pagesSwept
      && (forall x :: 0 <= x < |s.spans| ==>
           && Unswept(s')[x] == (if s.spans[x].state.InUse? then 1 else 0)
           && (s.spans[x].state.InUse? ==> s.spans[x].generation + 2 == s'.g)
           && (s'.aux[x].due <==> s.spans[x].state.InUse?) && s'.aux[x].sweeps == 0)
  {
    CollectKeeps(s);
    StacksTradeRoles(s);
    forall x | 0 <= x < |s.spans|
      ensures Unswept(CollectStep(s))[x] == if s.spans[x].state.InUse? then 1 else 0
      ensures s.spans[x].state.InUse? ==> s.spans[x].generation == s.g
    {
      QuiescentSpans(s, x);
    }
  }

  /** A sweeper stamps its span and then gives it back or keeps it, as the marks have it. */
  lemma StampGoesEitherWay(s: State, t: nat, choice: Choice)
    requires Inv(s) && t < |s.threads| && s.threads[t].Stamp?
    ensures var pc, s' := s.threads[t], ThreadStep(StateFirst, s, t, choice);
      && pc.x < |s.spans| && s'.spans == s.spans[pc.x := s.spans[pc.x].(generation := s.g)]
      && s'.threads == s.threads[t :=
           if choice.free then PC.FreeSpan(s.g, pc.x, pc.direct) else PC.Push(s.g, pc.x, pc.direct)]
  {
    assert ThreadOk(s, t);
  }
}
