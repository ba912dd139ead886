/** Pushes come to an end: with at most 512 of them in flight, a push is never stuck but while another holds
    the lock, takes a bounded number of its own steps, and all can be brought to their end. */
module PushProgress {
  import opened Options
  import opened BlockSizes
  import opened Sums
  import opened BufferMemory
  import opened ConcurrentPush

  // ----- Steps left in a push

  function Rank(pc: PC): nat {
    match pc
    case Idle => 0
    case Faulted(_, _) => 0
    case Write(_, _, _) => 1
    case Release(_, _, _) => 2
    case GetBlock(_, _, _) => 2
    case PublishLength(_, _, _) => 3
    case GetSpine(_, _) => 3
    case StoreBlock(_, _, _) => 4
    case Retry(_, _) => 4
    case MakeBlock(_, _) => 5
    case SetCap(_, _, _) => 6
    case PublishSpine(_, _, _) => 7
    case CopySpine(_, _) => 8
    case CheckCap(_, _, _) => 9
    case Reread(_, _) => 10
    case Acquire(_, _) => 11
    case ReadLength(_, _) => 12
  }

  /** A step moves one thread, if it moves any. */
  ghost predicate Moved(s: State, s': State, t: nat) {
    t < |s.threads| == |s'.threads| && s'.threads == s.threads[t := s'.threads[t]]
  }

  lemma StepMoves(s: State, a: Action)
    requires a.thread < |s.threads|
    ensures Moved(s, Step(s, a), a.thread)
  {
  }

  /** An effective step of a push brings it nearer to its end. */
  lemma StepNearer(s: State, a: Action)
    requires a.thread < |s.threads| && InFlight(s.threads[a.thread]) && Step(s, a) != s
    ensures Moved(s, Step(s, a), a.thread)
    ensures Rank(Step(s, a).threads[a.thread]) < Rank(s.threads[a.thread])
  {
    StepMoves(s, a);
  }

  // ----- Every push is bounded

  /** Thread `t` begins no new push during the run. */
  ghost predicate BeginsNothing(s: State, schedule: seq<Action>, t: nat)
    decreases |schedule|
  {
    schedule != [] ==>
      && !(schedule[0].thread == t && t < |s.threads| && s.threads[t].Idle?)
      && BeginsNothing(Step(s, schedule[0]), schedule[1..], t)
  }

  ghost function Effect(s: State, a: Action, t: nat): nat {
    if a.thread == t && Step(s, a) != s then 1 else 0
  }

  /** How many steps of thread `t` in the run have an effect. */
  ghost function Moves(s: State, schedule: seq<Action>, t: nat): nat
    decreases |schedule|
  {
    if schedule == [] then 0 else Effect(s, schedule[0], t) + Moves(Step(s, schedule[0]), schedule[1..], t)
  }

  lemma OtherStep(s: State, a: Action, t: nat)
    requires t < |s.threads| && (a.thread != t || Step(s, a) == s)
    ensures t < |Step(s, a).threads| && Step(s, a).threads[t] == s.threads[t]
  {
    if a.thread < |s.threads| {
      StepMoves(s, a);
    }
  }

  /** A push takes at most twelve effective steps of its own, however the others run. */
  lemma {:induction false} PushBounded(s: State, schedule: seq<Action>, t: nat)
    requires t < |s.threads| && BeginsNothing(s, schedule, t)
    ensures Moves(s, schedule, t) <= Rank(s.threads[t]) <= 12
    decreases |schedule|
  {
    if schedule != [] {
      var a := schedule[0];
      if a.thread == t && Step(s, a) != s {
        StepNearer(s, a);
      } else {
        OtherStep(s, a, t);
      }
      PushBounded(Step(s, a), schedule[1..], t);
    }
  }

  // ----- No push is stuck

  /** A push under way can go on, unless it waits for the lock that another thread holds. */
  lemma CanMove(s: State, log: seq<Span>, t: nat)
    requires Inv(s, log) && t < |s.threads| && InFlight(s.threads[t])
    requires s.threads[t].Acquire? ==> s.lock == None
    ensures Step(s, Act(t)) != s
  {
    assert ThreadOk(s.mem, log, s.threads[t]);
    ChangesPlace(s, t);
  }

  lemma ChangesPlace(s: State, t: nat)
    requires t < |s.threads| && InFlight(s.threads[t]) && !s.threads[t].Faulted?
    requires s.threads[t].Acquire? ==> s.lock == None
    ensures Step(s, Act(t)) != s
  {
    var s' := Step(s, Act(t));
    assert t < |s'.threads| && s'.threads[t] != s.threads[t];
  }

  /** A thread that waits for the lock waits for another push that can go on. */
  lemma WaitsForAnother(s: State, log: seq<Span>, t: nat) returns (u: nat)
    requires Inv(s, log) && t < |s.threads| && InFlight(s.threads[t])
    ensures u < |s.threads| && InFlight(s.threads[u]) && Step(s, Act(u)) != s
    ensures s.lock != None && s.threads[t].Acquire? ==> s.lock == Some(u) && u != t
  {
    if s.threads[t].Acquire? && s.lock.Some? {
      u := s.lock.value;
      assert HoldsLock(s.threads[u]);
    } else {
      u := t;
    }
    CanMove(s, log, u);
  }

  // ----- A push whose block is there takes no lock

  /** Where a push is that does without the lock. */
  predicate NeedsNoLock(m: Memory, pc: PC) {
    pc.Idle? || (pc.ReadLength? && Top(pc.cursor) < m.spineLength) || pc.GetSpine? || pc.GetBlock? || pc.Write?
  }

  function FewSteps(pc: PC): nat {
    match pc
    case ReadLength(_, _) => 4
    case GetSpine(_, _) => 3
    case GetBlock(_, _, _) => 2
    case Write(_, _, _) => 1
    case _ => 0
  }

  lemma StaysLockFree(s: State, log: seq<Span>, a: Action, t: nat)
    requires Inv(s, log) && PushesInFlight(s.threads) <= BLOCK_ENTRIES
    requires t < |s.threads| && NeedsNoLock(s.mem, s.threads[t]) && (a.thread == t ==> InFlight(s.threads[t]))
    ensures var s' := Step(s, a);
      && t < |s'.threads| && NeedsNoLock(s'.mem, s'.threads[t])
      && FewSteps(s'.threads[t]) + Effect(s, a, t) <= FewSteps(s.threads[t])
  {
    if a.thread == t {
      StepKeepsInv(s, log, a);
      assert ThreadOk(Step(s, a).mem, log + Logged(s, a), Step(s, a).threads[t]);
    } else {
      OtherStep(s, a, t);
      LengthGrows(s, a);
    }
  }

  lemma LengthGrows(s: State, a: Action)
    ensures s.mem.spineLength <= Step(s, a).mem.spineLength
  {
  }

  /** A push that finds its block announced neither takes nor waits for the lock, whatever the other threads do
      meanwhile, and takes at most four effective steps from then on. */
  lemma {:induction false} LockFreePush(s: State, log: seq<Span>, schedule: seq<Action>, t: nat)
    requires Inv(s, log) && AtMostInFlight(BLOCK_ENTRIES, s, schedule)
    requires t < |s.threads| && NeedsNoLock(s.mem, s.threads[t]) && BeginsNothing(s, schedule, t)
    ensures var e := Run(s, schedule); t < |e.threads| && NeedsNoLock(e.mem, e.threads[t])
    ensures Moves(s, schedule, t) <= FewSteps(s.threads[t]) <= 4
    decreases |schedule|
  {
    if schedule != [] {
      var a := schedule[0];
      StepKeepsInv(s, log, a);
      StaysLockFree(s, log, a, t);
      LockFreePush(Step(s, a), log + Logged(s, a), schedule[1..], t);
    }
  }

  // ----- The end can be reached

  function Left(s: State): nat {
    Total(Rank, s.threads)
  }

  /** No step of the run begins a push. */
  ghost predicate OnlyGoesOn(s: State, schedule: seq<Action>)
    decreases |schedule|
  {
    schedule != [] ==> Logged(s, schedule[0]) == [] && OnlyGoesOn(Step(s, schedule[0]), schedule[1..])
  }

  lemma {:induction false} BegunNothing(s: State, schedule: seq<Action>)
    requires OnlyGoesOn(s, schedule)
    ensures Begun(s, schedule) == []
    decreases |schedule|
  {
    if schedule != [] {
      BegunNothing(Step(s, schedule[0]), schedule[1..]);
    }
  }

  lemma GoOn(s: State, log: seq<Span>, u: nat)
    requires Inv(s, log) && PushesInFlight(s.threads) <= BLOCK_ENTRIES
    requires u < |s.threads| && InFlight(s.threads[u]) && Step(s, Act(u)) != s
    ensures var s' := Step(s, Act(u));
      && Inv(s', log) && |s'.threads| == |s.threads| && Left(s') < Left(s)
      && PushesInFlight(s'.threads) <= PushesInFlight(s.threads)
    ensures Logged(s, Act(u)) == []
  {
    StepNearer(s, Act(u));
    StepKeepsInv(s, log, Act(u));
    assert log + [] == log;
    var s' := Step(s, Act(u));
    TotalUpdate(Rank, s.threads, u, s'.threads[u]);
    TotalUpdate(InFlightOf, s.threads, u, s'.threads[u]);
  }

  /** From every state that keeps the invariant, with at most 512 pushes in flight, steps of the pushes alone
      bring them all to their end. */
  lemma FinishAll(s: State, log: seq<Span>) returns (schedule: seq<Action>)
    requires Inv(s, log) && PushesInFlight(s.threads) <= BLOCK_ENTRIES
    ensures OnlyGoesOn(s, schedule) && AtMostInFlight(BLOCK_ENTRIES, s, schedule)
    ensures AllIdle(Run(s, schedule)) && Inv(Run(s, schedule), log)
    decreases Left(s)
  {
    if AllIdle(s) {
      schedule := [];
    } else {
      var t: nat :| t < |s.threads| && !s.threads[t].Idle?;
      var u := WaitsForAnother(s, log, t);
      GoOn(s, log, u);
      var rest := FinishAll(Step(s, Act(u)), log);
      schedule := [Act(u)] + rest;
      assert schedule[1..] == rest;
    }
  }

  lemma {:induction false} AtMostAtEnd(k: nat, s: State, schedule: seq<Action>)
    requires AtMostInFlight(k, s, schedule)
    ensures PushesInFlight(Run(s, schedule).threads) <= k
    decreases |schedule|
  {
    if schedule != [] {
      AtMostAtEnd(k, Step(s, schedule[0]), schedule[1..]);
    }
  }

  /** From every state reached from a quiescent buffer with at most 512 pushes in flight, all pushes under way
      can be brought to their end; then the buffer holds every span whose push had begun. */
  lemma PushesCanEnd(m: Memory, contents: seq<Span>, n: nat, schedule: seq<Action>) returns (more: seq<Action>)
    requires Quiescent(m, contents) && AtMostInFlight(BLOCK_ENTRIES, Start(m, n), schedule)
    ensures OnlyGoesOn(Run(Start(m, n), schedule), more)
    ensures var e := Run(Start(m, n), schedule + more);
      AllIdle(e) && Quiescent(e.mem, contents + Begun(Start(m, n), schedule))
  {
    StartInv(m, contents, n);
    RunKeepsInv(Start(m, n), contents, schedule);
    AtMostAtEnd(BLOCK_ENTRIES, Start(m, n), schedule);
    var s, log := Run(Start(m, n), schedule), contents + Begun(Start(m, n), schedule);
    more := FinishAll(s, log);
    RunAppend(Start(m, n), schedule, more);
    EndHolds(Run(s, more), log);
  }

  lemma EndHolds(e: State, log: seq<Span>)
    requires Inv(e, log) && AllIdle(e)
    ensures Quiescent(e.mem, log)
  {
    forall c | 0 <= c < |log|
      ensures Holds(e.mem, c, log[c])
    {
      assert !Pending(e, c);
    }
  }
}
