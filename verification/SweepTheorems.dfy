/** Safety of the sweep protocol over whole runs. */
module SweepTheorems {
  import opened Options
  import opened Sums
  import opened SweepProtocol
  import opened SweepInvariant

  lemma {:induction false} RunKeepsInv(s: State, schedule: seq<Action>)
    requires Inv(s)
    ensures Inv(Run(StateFirst, s, schedule))
    decreases |schedule|
  {
    if schedule != [] {
      StepKeepsInv(s, schedule[0]);
      RunKeepsInv(Step(StateFirst, s, schedule[0]), schedule[1..]);
    }
  }

  /** A cycle about to begin: no thread is at work, every span in use waits on the unswept stack with
      generation g - 2, and the counters are exact. */
  ghost predicate CycleStart(s: State) {
    && Sized(s)
    && !s.done && s.sweepers == 0
    && (forall t :: 0 <= t < |s.threads| ==> s.threads[t].Idle?)
    && Swept(s) == multiset{}
    && (forall x :: x in Unswept(s) ==> x < |s.spans|)
    && (forall x :: 0 <= x < |s.spans| ==>
         && Unswept(s)[x] == (if s.spans[x].state.InUse? then 1 else 0)
         && (s.spans[x].state.InUse? ==> s.spans[x].generation == s.g - 2)
         && s.aux[x] == Aux(None, None, s.spans[x].state.InUse?, PagesOf(s.spans[x]), 0))
    && s.pagesInUse == InUsePages(s.spans)
    && s.pagesSwept == s.sweptBefore
    && s.freedByOne == s.reported
  }

  lemma NoThreads(threads: seq<PC>)
    requires forall t :: 0 <= t < |threads| ==> threads[t].Idle?
    ensures CountedThreads(threads) == 0 && OwedPages(threads) == 0
  {
    TotalZero(CountOf, threads);
    TotalZero(Owed, threads);
  }

  lemma CycleStartInv(s: State)
    requires CycleStart(s)
    ensures Inv(s)
  {
    NoThreads(s.threads);
    TotalZero(SweptOf, s.aux);
    forall x | 0 <= x < |s.spans|
      ensures SpanOk(s.g, s.threads, x, s.spans[x], s.aux[x], Unswept(s)[x], Swept(s)[x])
    {
      assert Unswept(s)[x] == if s.spans[x].state.InUse? then 1 else 0;
    }
  }

  /** The sweep of the cycle is over: the unswept stack is empty and every span in use has the heap's
      generation and sits, once, on the swept stack with nothing else. */
  ghost predicate AllSwept(s: State)
    requires Sized(s)
  {
    && Unswept(s) == multiset{}
    && (forall x :: x in Swept(s) ==> x < |s.spans|)
    && (forall x :: 0 <= x < |s.spans| ==>
         if s.spans[x].state.InUse? then s.spans[x].generation == s.g && Swept(s)[x] == 1 else Swept(s)[x] == 0)
  }

  function DueOf(aux: Aux): nat {
    if aux.due then aux.duePages else 0
  }

  function DuePages(aux: seq<Aux>): nat {
    Total(DueOf, aux)
  }

  /** Everything is swept, each span due in the cycle exactly once, and `pages_swept` has grown by exactly
      their pages. */
  ghost predicate CycleSwept(s: State) {
    && Sized(s) && AllSwept(s)
    && (forall x :: 0 <= x < |s.aux| ==> s.aux[x].sweeps == if s.aux[x].due then 1 else 0)
    && s.pagesSwept == s.sweptBefore + DuePages(s.aux)
  }

  /** Whenever `sweep_done` is set and no sweeper is left, everything is swept: each span that was in
      use when the cycle began has been swept exactly once in it and no other span at all, and
      `pages_swept` has grown by exactly the pages of those spans.  This holds in every interleaving,
      over any number of cycles, also with threads that have seen `sweep_done` unset and not yet
      joined the sweepers. */
  lemma QuiescenceMeansSwept(s: State, schedule: seq<Action>)
    requires CycleStart(s)
    requires Run(StateFirst, s, schedule).done && Run(StateFirst, s, schedule).sweepers == 0
    ensures CycleSwept(Run(StateFirst, s, schedule))
  {
    CycleStartInv(s);
    RunKeepsInv(s, schedule);
    InvCycleSwept(Run(StateFirst, s, schedule));
  }

  lemma InvCycleSwept(e: State)
    requires Inv(e) && e.done && e.sweepers == 0
    ensures CycleSwept(e)
  {
    forall x | 0 <= x < |e.spans|
      ensures if e.spans[x].state.InUse? then e.spans[x].generation == e.g && Swept(e)[x] == 1 else Swept(e)[x] == 0
      ensures e.aux[x].sweeps == if e.aux[x].due then 1 else 0
    {
      QuiescentSpans(e, x);
    }
    TotalSame(SweptOf, DueOf, e.aux);
  }

  /** Where a span is in every reachable state. */
  ghost predicate Placed(s: State, x: SpanId)
    requires Sized(s) && x < |s.spans|
  {
    var held := exists t :: 0 <= t < |s.threads| && Holds(s.threads[t], x);
    var sweeping := exists t :: 0 <= t < |s.threads| && (s.threads[t].Sweep? || s.threads[t].Stamp?) && s.threads[t].x == x;
    var handing := exists t :: 0 <= t < |s.threads| && (s.threads[t].FreeSpan? || s.threads[t].Push?) && s.threads[t].x == x;
    && Unswept(s)[x] + (if held then 1 else 0) <= 1
    && match s.spans[x].state
       case InUse =>
         if s.spans[x].generation == s.g - 2 then
           Unswept(s)[x] + (if held then 1 else 0) == 1 && Swept(s)[x] == 0 && !sweeping && !handing
         else if s.spans[x].generation == s.g - 1 then
           sweeping && Swept(s)[x] == 0 && !handing
         else
           s.spans[x].generation == s.g && !sweeping && Swept(s)[x] == if handing then 0 else 1
       case Free => Swept(s)[x] == 0 && !sweeping && !handing
  }

  /** No two threads hold, or own, one span. */
  ghost predicate Exclusive(s: State) {
    forall t, u, x: nat :: 0 <= t < |s.threads| && 0 <= u < |s.threads| && t != u ==>
      !(Holds(s.threads[t], x) && Holds(s.threads[u], x)) && !(Owns(s.threads[t], x) && Owns(s.threads[u], x))
  }

  /** Every reachable state partitions the spans in use: generation g - 2, waiting on the unswept stack
      or with the one thread that popped it; g - 1, with exactly one sweeper; or g, on the swept stack
      or with the one sweeper about to hand it on. */
  lemma EverySpanPlaced(s: State, schedule: seq<Action>)
    requires CycleStart(s)
    ensures var e := Run(StateFirst, s, schedule);
      Sized(e) && Exclusive(e) && forall x :: 0 <= x < |e.spans| ==> Placed(e, x)
  {
    CycleStartInv(s);
    RunKeepsInv(s, schedule);
    var e := Run(StateFirst, s, schedule);
    InvExclusive(e);
    forall x | 0 <= x < |e.spans|
      ensures Placed(e, x)
    {
      InvPlaced(e, x);
    }
  }

  lemma HolderIs(s: State, t: nat, x: SpanId)
    requires Inv(s) && t < |s.threads|
    ensures Holds(s.threads[t], x) ==> x < |s.spans| && s.aux[x].holder == Some(t)
    ensures Owns(s.threads[t], x) ==> x < |s.spans| && s.aux[x].owner == Some(t)
  {
    assert ThreadOk(s, t);
  }

  lemma InvExclusive(s: State)
    requires Inv(s)
    ensures Exclusive(s)
  {
    forall t, u, x: nat | 0 <= t < |s.threads| && 0 <= u < |s.threads| && t != u
      ensures !(Holds(s.threads[t], x) && Holds(s.threads[u], x)) && !(Owns(s.threads[t], x) && Owns(s.threads[u], x))
    {
      HolderIs(s, t, x);
      HolderIs(s, u, x);
    }
  }

  lemma InvPlaced(s: State, x: SpanId)
    requires Inv(s) && x < |s.spans|
    ensures Placed(s, x)
  {
    assert SpanOk(s.g, s.threads, x, s.spans[x], s.aux[x], Unswept(s)[x], Swept(s)[x]);
    forall t | 0 <= t < |s.threads|
      ensures Holds(s.threads[t], x) ==> s.aux[x].holder == Some(t)
      ensures Owns(s.threads[t], x) ==> s.aux[x].owner == Some(t) && ThreadOk(s, t)
    {
      HolderIs(s, t, x);
      assert ThreadOk(s, t);
    }
    if s.aux[x].owner.Some? {
      assert ThreadOk(s, s.aux[x].owner.value);
    }
  }

  ghost predicate NoPanic(s: State) {
    forall t :: 0 <= t < |s.threads| ==> !s.threads[t].Panicked?
  }

  lemma NothingOwed(threads: seq<PC>)
    requires CountedThreads(threads) == 0
    ensures OwedPages(threads) == 0
  {
    forall t | 0 <= t < |threads|
      ensures Owed(threads[t]) == 0
    {
      NobodyCounted(threads, t);
    }
    TotalZero(Owed, threads);
  }

  /** In every interleaving: no panic is reached, `pages_in_use` is the sum of the pages of the spans in
      use, and the pages `sweep_one` has returned to the heap are what its results add up to, once the
      results still on their way are counted; when no sweeper is left, none is. */
  lemma NoPanicAndExactPages(s: State, schedule: seq<Action>)
    requires CycleStart(s)
    ensures var e := Run(StateFirst, s, schedule);
      && NoPanic(e)
      && e.pagesInUse == InUsePages(e.spans)
      && e.freedByOne == e.reported + OwedPages(e.threads)
      && (e.sweepers == 0 ==> e.freedByOne == e.reported)
  {
    CycleStartInv(s);
    RunKeepsInv(s, schedule);
    var e := Run(StateFirst, s, schedule);
    InvNoPanic(e);
    if e.sweepers == 0 {
      NothingOwed(e.threads);
    }
  }

  lemma InvNoPanic(e: State)
    requires Inv(e)
    ensures NoPanic(e)
  {
    forall t | 0 <= t < |e.threads|
      ensures !e.threads[t].Panicked?
    {
      assert ThreadOk(e, t);
    }
  }

  // ----- Sweepers counted as the source counts them
  //
  // In the source only `sweep_one` raises `sweepers`; in the machine a direct sweeper does so too.

  predicate SweepsDirectly(pc: PC) {
    pc.DirectLoadGeneration? || pc.DirectCheck?
    || ((pc.Claim? || pc.Sweep? || pc.Stamp? || pc.FreeSpan? || pc.Push? || pc.Leave?) && pc.direct)
  }

  /** The threads that have joined the sweepers in `sweep_one` and not left them. */
  function SweepOnes(threads: seq<PC>): nat {
    Total(SweepOneOf, threads)
  }

  function SweepOneOf(pc: PC): nat {
    if Counted(pc) && !SweepsDirectly(pc) then 1 else 0
  }

  lemma NoSweepOne(threads: seq<PC>, t: nat)
    requires SweepOnes(threads) == 0 && t < |threads|
    ensures Counted(threads[t]) ==> SweepsDirectly(threads[t])
  {
    TotalUpdate(SweepOneOf, threads, t, Idle);
  }

  /** The span is swept, or with the one direct sweeper that has claimed it. */
  ghost predicate SweptOrDirect(s: State, x: SpanId)
    requires Sized(s) && x < |s.spans|
  {
    match s.aux[x].owner
    case None => s.spans[x].generation == s.g && Swept(s)[x] == 1
    case Some(t) =>
      && t < |s.threads| && SweepsDirectly(s.threads[t]) && Owns(s.threads[t], x)
      && s.g - 1 <= s.spans[x].generation <= s.g && Swept(s)[x] == 0
  }

  /** Whenever `sweep_done` is set and no thread is left in `sweep_one`, nothing is unswept and each span in
      use has generation g and sits once on the swept stack, unless a direct sweeper is at work on it. */
  lemma DoneWithoutDirectSweepers(s: State, schedule: seq<Action>)
    requires CycleStart(s)
    requires Run(StateFirst, s, schedule).done && SweepOnes(Run(StateFirst, s, schedule).threads) == 0
    ensures var e := Run(StateFirst, s, schedule);
      && Sized(e) && Unswept(e) == multiset{}
      && forall x :: 0 <= x < |e.spans| && e.spans[x].state.InUse? ==> SweptOrDirect(e, x)
  {
    CycleStartInv(s);
    RunKeepsInv(s, schedule);
    var e := Run(StateFirst, s, schedule);
    forall x | 0 <= x < |e.spans| && e.spans[x].state.InUse?
      ensures SweptOrDirect(e, x)
    {
      DoneSpan(e, x);
    }
  }

  lemma DoneSpan(e: State, x: SpanId)
    requires Inv(e) && e.done && SweepOnes(e.threads) == 0 && x < |e.spans| && e.spans[x].state.InUse?
    ensures SweptOrDirect(e, x)
  {
    assert SpanOk(e.g, e.threads, x, e.spans[x], e.aux[x], Unswept(e)[x], Swept(e)[x]);
    if e.aux[x].holder.Some? {
      NoSweepOne(e.threads, e.aux[x].holder.value);
    }
    if e.aux[x].owner.Some? {
      NoSweepOne(e.threads, e.aux[x].owner.value);
    }
  }
}
