/** The spine never has more slots than it needs: while pushes and pops run, its capacity is the least of 0, 256,
    512, 1024 and so on for the blocks there are, or for one more while one is being added. */
module SpineCapacity {
  import opened Options
  import opened BlockSizes
  import opened BufferMemory
  import opened ConcurrentPush
  import Pop = ConcurrentPop
  import Life = BufferLifetime

  /** The blocks the spine has room for: one more than are published once that has been seen to. */
  function RoomFor(s: State): nat {
    var h := Holder(s);
    s.mem.spineLength + if h.MakeBlock? || h.StoreBlock? || h.PublishLength? then 1 else 0
  }

  /** A copy of the spine that is not in use yet has room for one block more. */
  ghost predicate Fits(s: State) {
    var h := Holder(s);
    && s.mem.cap == LeastCap(RoomFor(s))
    && (h.PublishSpine? ==> |h.copy| == LeastCap(s.mem.spineLength + 1))
    && (h.SetCap? ==> h.newCap == LeastCap(s.mem.spineLength + 1))
  }

  /** What a step of the lock holder is given. */
  ghost predicate HolderGiven(s: State, log: seq<Span>, a: Action) {
    && a.thread < |s.threads| && s.lock == Some(a.thread) && HoldsLock(s.threads[a.thread])
    && ThreadOk(s.mem, log, s.threads[a.thread]) && Fits(s)
    && (s.threads[a.thread].StoreBlock? ==> s.mem.cap == |Current(s.mem)|)
  }

  lemma LockFits(s: State, log: seq<Span>, a: Action)
    requires HolderGiven(s, log, a)
    requires var pc := s.threads[a.thread]; pc.Reread? || pc.Retry? || pc.CheckCap? || pc.Release?
    ensures Fits(Step(s, a))
  {
    CapGrows(s.mem.spineLength);
  }

  lemma SpineFits(s: State, log: seq<Span>, a: Action)
    requires HolderGiven(s, log, a)
    requires var pc := s.threads[a.thread]; pc.CopySpine? || pc.PublishSpine? || pc.SetCap?
    ensures Fits(Step(s, a))
  {
    CapGrows(s.mem.spineLength);
  }

  lemma BlockFits(s: State, log: seq<Span>, a: Action)
    requires HolderGiven(s, log, a)
    requires var pc := s.threads[a.thread]; pc.MakeBlock? || pc.StoreBlock? || pc.PublishLength?
    ensures Fits(Step(s, a))
  {
  }

  lemma HolderFits(s: State, log: seq<Span>, a: Action)
    requires HolderGiven(s, log, a)
    ensures Fits(Step(s, a))
  {
    var pc := s.threads[a.thread];
    if pc.MakeBlock? || pc.StoreBlock? || pc.PublishLength? {
      BlockFits(s, log, a);
    } else if pc.CopySpine? || pc.PublishSpine? || pc.SetCap? {
      SpineFits(s, log, a);
    } else {
      LockFits(s, log, a);
    }
  }

  lemma OtherFits(s: State, a: Action)
    requires a.thread < |s.threads| && s.lock != Some(a.thread) && !HoldsLock(s.threads[a.thread]) && Fits(s)
    ensures Fits(Step(s, a))
  {
  }

  lemma StepFits(s: State, log: seq<Span>, a: Action)
    requires Inv(s, log) && Fits(s)
    ensures Fits(Step(s, a))
  {
    if a.thread < |s.threads| {
      assert ThreadOk(s.mem, log, s.threads[a.thread]);
      if HoldsLock(s.threads[a.thread]) {
        HolderFits(s, log, a);
      } else {
        OtherFits(s, a);
      }
    }
  }

  lemma {:induction false} RunFits(s: State, log: seq<Span>, schedule: seq<Action>)
    requires Inv(s, log) && AtMostInFlight(BLOCK_ENTRIES, s, schedule) && Fits(s)
    ensures Fits(Run(s, schedule))
    decreases |schedule|
  {
    if schedule != [] {
      StepFits(s, log, schedule[0]);
      StepKeepsInv(s, log, schedule[0]);
      RunFits(Step(s, schedule[0]), log + Logged(s, schedule[0]), schedule[1..]);
    }
  }

  /** In every interleaving of pushes with at most 512 in flight, the capacity is the least one for the
      blocks the spine must have room for. */
  lemma PushesFit(m: Memory, contents: seq<Span>, n: nat, schedule: seq<Action>)
    requires Quiescent(m, contents) && AtMostInFlight(BLOCK_ENTRIES, Start(m, n), schedule)
    requires m.cap == LeastCap(m.spineLength)
    ensures Fits(Run(Start(m, n), schedule))
  {
    StartInv(m, contents, n);
    RunFits(Start(m, n), contents, schedule);
  }

  // ----- Over the whole life of a buffer

  lemma {:induction false} PopsKeepSpine(s: Pop.State, schedule: seq<nat>)
    ensures var m := Pop.Run(Pop.Signed, s, schedule).mem;
      m.cap == s.mem.cap && m.spineLength == s.mem.spineLength && m.spines == s.mem.spines
    decreases |schedule|
  {
    if schedule != [] {
      PopsKeepSpine(Pop.Step(Pop.Signed, s, schedule[0]), schedule[1..]);
    }
  }

  /** Between rounds of pushes and rounds of pops, from the empty buffer on, the capacity is the least one for the
      blocks there are. */
  lemma {:induction false} LifetimeFits(m: Memory, contents: seq<Span>, rounds: seq<Life.Round>)
    requires Quiescent(m, contents) && Life.AllFinish(m, rounds) && m.cap == LeastCap(m.spineLength)
    ensures var e := Life.AfterAll(m, rounds); e.cap == LeastCap(e.spineLength) == |Current(e)|
    decreases |rounds|
  {
    if rounds != [] {
      var left := Life.RoundConserves(m, contents, rounds[0]);
      match rounds[0] {
        case Pushes(n, schedule) =>
          PushesFit(m, contents, n, schedule);
          IdleFits(Run(Start(m, n), schedule));
        case Pops(n, schedule) => PopsKeepSpine(Pop.Start(m, n), schedule);
      }
      LifetimeFits(Life.After(m, rounds[0]), left, rounds[1..]);
    }
  }

  lemma IdleFits(e: State)
    requires Fits(e) && AllIdle(e)
    ensures e.mem.cap == LeastCap(e.mem.spineLength)
  {
  }
}
