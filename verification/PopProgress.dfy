/** Pops come to an end: a pop is never stuck, takes at most five steps, and pops alone can empty the
    buffer.  A pop that runs alone does what `SweepBuffer.Pop` does. */
module PopProgress {
  import opened Options
  import opened Sums
  import opened BufferMemory
  import opened ConcurrentPop

  /** Steps left in a pop. */
  function Rank(pc: PC): nat {
    match pc
    case Idle => 0
    case Faulted(_) => 0
    case Undo => 1
    case ClearSlot(_, _, _) => 1
    case LoadSlot(_, _) => 2
    case LoadBlock(_, _) => 3
    case LoadSpine(_) => 4
  }

  // ----- No pop is stuck, and every pop is short

  /** A step of a pop under way is one of those it has left, and the last of them returns its result. */
  lemma StepNearer(s: State, contents: seq<Span>, free: nat, outs: seq<Output>, t: nat)
    requires Inv(s, contents, free, outs) && t < |s.threads| && !s.threads[t].Idle?
    ensures var s' := Step(Signed, s, t);
      && |s'.threads| == |s.threads| && s'.threads == s.threads[t := s'.threads[t]]
      && Rank(s'.threads[t]) == Rank(s.threads[t]) - 1
      && |Returned(s, t)| == (if Rank(s.threads[t]) == 1 then 1 else 0)
      && (Rank(s.threads[t]) == 1 ==> s'.threads[t].Idle?)
  {
    StepKeepsInv(s, contents, free, outs, t);
    var s' := Step(Signed, s, t);
    assert ThreadOk(s.mem, contents, free, s.threads[t]);
    assert ThreadOk(s'.mem, contents, free, s'.threads[t]);
  }

  /** An idle thread can begin a pop in every state. */
  lemma CanBegin(s: State, t: nat)
    requires t < |s.threads| && s.threads[t].Idle?
    ensures var s' := Step(Signed, s, t); t < |s'.threads| && !s'.threads[t].Idle? && Rank(s'.threads[t]) <= 4
  {
  }

  // ----- The end can be reached

  function Left(s: State): nat {
    Total(Rank, s.threads)
  }

  /** No step of the run begins a pop. */
  ghost predicate OnlyGoesOn(s: State, schedule: seq<nat>)
    decreases |schedule|
  {
    schedule != [] ==>
      && schedule[0] < |s.threads| && !s.threads[schedule[0]].Idle?
      && OnlyGoesOn(Step(Signed, s, schedule[0]), schedule[1..])
  }

  lemma {:induction false} RunAppend(s: State, xs: seq<nat>, ys: seq<nat>)
    ensures Run(Signed, s, xs + ys) == Run(Signed, Run(Signed, s, xs), ys)
    ensures Outputs(Signed, s, xs + ys) == Outputs(Signed, s, xs) + Outputs(Signed, Run(Signed, s, xs), ys)
    decreases |xs|
  {
    if xs == [] {
      assert xs + ys == ys;
    } else {
      assert (xs + ys)[0] == xs[0] && (xs + ys)[1..] == xs[1..] + ys;
      var s' := Step(Signed, s, xs[0]);
      RunAppend(s', xs[1..], ys);
      ConcatAssociative(Returned(s, xs[0]), Outputs(Signed, s', xs[1..]), Outputs(Signed, Run(Signed, s, xs), ys));
    }
  }

  lemma GoOn(s: State, contents: seq<Span>, free: nat, outs: seq<Output>, t: nat)
    requires Inv(s, contents, free, outs) && t < |s.threads| && !s.threads[t].Idle?
    ensures var s' := Step(Signed, s, t);
      && Inv(s', contents, free, outs + Returned(s, t))
      && Left(s') == Left(s) - 1
      && PopsInFlight(s'.threads) == PopsInFlight(s.threads) - |Returned(s, t)|
  {
    StepNearer(s, contents, free, outs, t);
    StepKeepsInv(s, contents, free, outs, t);
    var s' := Step(Signed, s, t);
    TotalUpdate(Rank, s.threads, t, s'.threads[t]);
    TotalUpdate(InFlightOf, s.threads, t, s'.threads[t]);
  }

  /** From every state that keeps the invariant, the pops under way alone come to their end, in as many steps
      as they have left, each with one result; no slot that was unclaimed is claimed. */
  lemma FinishAll(s: State, contents: seq<Span>, free: nat, outs: seq<Output>) returns (schedule: seq<nat>)
    requires Inv(s, contents, free, outs)
    ensures OnlyGoesOn(s, schedule) && |schedule| == Left(s)
    ensures |Outputs(Signed, s, schedule)| == PopsInFlight(s.threads)
    ensures AllIdle(Run(Signed, s, schedule))
    ensures Inv(Run(Signed, s, schedule), contents, free, outs + Outputs(Signed, s, schedule))
    decreases Left(s)
  {
    if AllIdle(s) {
      schedule := [];
      TotalZero(Rank, s.threads);
      TotalZero(InFlightOf, s.threads);
      assert outs + Outputs(Signed, s, schedule) == outs;
    } else {
      var t: nat :| t < |s.threads| && !s.threads[t].Idle?;
      GoOn(s, contents, free, outs, t);
      var s' := Step(Signed, s, t);
      var rest := FinishAll(s', contents, free, outs + Returned(s, t));
      schedule := [t] + rest;
      assert schedule[1..] == rest;
      ConcatAssociative(outs, Returned(s, t), Outputs(Signed, s', rest));
    }
  }

  /** From every state reached from a quiescent buffer, the pops under way can be brought to their end, and then
      the buffer is quiescent and holds the oldest spans. */
  lemma PopsCanEnd(m: Memory, contents: seq<Span>, n: nat, schedule: seq<nat>) returns (more: seq<nat>)
    requires Quiescent(m, contents)
    ensures OnlyGoesOn(Run(Signed, Start(m, n), schedule), more)
    ensures |more| == Left(Run(Signed, Start(m, n), schedule))
    ensures var e := Run(Signed, Start(m, n), schedule + more);
      AllIdle(e) && 0 <= e.mem.index <= |contents| && Quiescent(e.mem, contents[..e.mem.index])
  {
    StartInv(m, contents, n);
    RunKeepsInv(Start(m, n), contents, |contents|, [], schedule);
    more := FinishAll(Run(Signed, Start(m, n), schedule), contents, Unclaimed(Start(m, n), schedule, |contents|),
                      [] + Outputs(Signed, Start(m, n), schedule));
    RunAppend(Start(m, n), schedule, more);
    PopsLeaveTheRest(m, contents, n, schedule + more);
  }

  // ----- One thread can empty the buffer

  /** What a pop that runs alone returns: the span on top, if there is one. */
  function TopOf(contents: seq<Span>): Output {
    if contents == [] then Empty else Took(|contents| - 1, Some(contents[|contents| - 1]))
  }

  function WithoutTop(contents: seq<Span>): seq<Span> {
    if contents == [] then [] else contents[..|contents| - 1]
  }

  /** A pop that runs alone returns the span on top and leaves the others. */
  lemma PopAlone(m: Memory, contents: seq<Span>, n: nat) returns (schedule: seq<nat>)
    requires Quiescent(m, contents) && n > 0
    ensures var e := Run(Signed, Start(m, n), schedule);
      e == Start(e.mem, n) && Quiescent(e.mem, WithoutTop(contents))
    ensures Outputs(Signed, Start(m, n), schedule) == [TopOf(contents)]
  {
    var s0 := Start(m, n);
    BeginAlone(m, contents, n);
    var s1 := Step(Signed, s0, 0);
    var rest := FinishAll(s1, contents, |WithoutTop(contents)|, []);
    schedule := [0] + rest;
    assert schedule[1..] == rest;
    var outs := Outputs(Signed, s1, rest);
    assert [] + outs == outs;
    AloneLeaves(m, contents, n, schedule, outs);
  }

  lemma BeginAlone(m: Memory, contents: seq<Span>, n: nat)
    requires Quiescent(m, contents) && n > 0
    ensures var s1 := Step(Signed, Start(m, n), 0);
      && Inv(s1, contents, |WithoutTop(contents)|, []) && PopsInFlight(s1.threads) == 1
      && Returned(Start(m, n), 0) == []
  {
    StartInv(m, contents, n);
    StepKeepsInv(Start(m, n), contents, |contents|, [], 0);
    OneInFlight(Start(m, n), Step(Signed, Start(m, n), 0));
  }

  lemma OneInFlight(s0: State, s1: State)
    requires AllIdle(s0) && |s0.threads| > 0 && s1 == Step(Signed, s0, 0)
    ensures PopsInFlight(s1.threads) == 1 && Returned(s0, 0) == []
  {
    CanBegin(s0, 0);
    TotalZero(InFlightOf, s0.threads);
    TotalUpdate(InFlightOf, s0.threads, 0, s1.threads[0]);
  }

  lemma AloneLeaves(m: Memory, contents: seq<Span>, n: nat, schedule: seq<nat>, outs: seq<Output>)
    requires Quiescent(m, contents) && n > 0 && AllIdle(Run(Signed, Start(m, n), schedule))
    requires |outs| == 1 && outs == Outputs(Signed, Start(m, n), schedule)
    requires Inv(Run(Signed, Start(m, n), schedule), contents, |WithoutTop(contents)|, outs)
    ensures var e := Run(Signed, Start(m, n), schedule);
      e == Start(e.mem, n) && Quiescent(e.mem, WithoutTop(contents))
    ensures outs == [TopOf(contents)]
  {
    var e := Run(Signed, Start(m, n), schedule);
    TotalZero(UndoOf, e.threads);
    PopsLeaveTheRest(m, contents, n, schedule);
    RunThreads(Start(m, n), schedule);
    assert e.threads == Start(m, n).threads;
    assert contents[..e.mem.index] == WithoutTop(contents);
    if contents == [] {
      assert !outs[0].Took?;
    } else {
      assert Taken(outs, |contents| - 1);
    }
  }

  lemma {:induction false} RunThreads(s: State, schedule: seq<nat>)
    ensures |Run(Signed, s, schedule).threads| == |s.threads|
    decreases |schedule|
  {
    if schedule != [] {
      RunThreads(Step(Signed, s, schedule[0]), schedule[1..]);
    }
  }

  /** From every quiescent buffer, pops alone can empty it, and they return exactly what it held. */
  lemma PopsCanEmpty(m: Memory, contents: seq<Span>, n: nat) returns (schedule: seq<nat>)
    requires Quiescent(m, contents) && n > 0
    ensures AllIdle(Run(Signed, Start(m, n), schedule))
    ensures Quiescent(Run(Signed, Start(m, n), schedule).mem, [])
    ensures TakenSpans(Outputs(Signed, Start(m, n), schedule)) == multiset(contents)
  {
    schedule := Emptying(m, contents, n);
    PopsConserve(m, contents, n, schedule);
    assert contents[..0] == [];
  }

  lemma {:induction false} Emptying(m: Memory, contents: seq<Span>, n: nat) returns (schedule: seq<nat>)
    requires Quiescent(m, contents) && n > 0
    ensures var e := Run(Signed, Start(m, n), schedule); e == Start(e.mem, n) && Quiescent(e.mem, [])
    decreases |contents|
  {
    if contents == [] {
      schedule := [];
    } else {
      var first := PopAlone(m, contents, n);
      var s := Run(Signed, Start(m, n), first);
      var rest := Emptying(s.mem, WithoutTop(contents), n);
      RunAppend(Start(m, n), first, rest);
      schedule := first + rest;
    }
  }
}
