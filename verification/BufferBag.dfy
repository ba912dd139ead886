/** A sweep buffer under concurrent use refines a bag: a push puts its span in at its last step, a pop takes
    one out at its first, and a pop that returns nothing drew its cursor when the bag was empty.  Pushes do
    so as long as at most 512 of them are in flight.  The sweep protocol uses such bags. */
module BufferBag {
  import opened BlockSizes
  import opened BufferMemory
  import Push = ConcurrentPush
  import Pop = ConcurrentPop

  /** What a thread is doing to the bag. */
  datatype Op =
    | Resting
    | Pushing(span: Span)   // not yet in the bag
    | Taken(span: Span)     // no longer in the bag
    | FoundNone

  datatype Bag = Bag(held: multiset<Span>, ops: seq<Op>)

  ghost predicate OpStep(held: multiset<Span>, op: Op, held': multiset<Span>, op': Op) {
    match (op, op')
    case (Resting, Pushing(_)) => held' == held
    case (Pushing(x), Resting) => held' == held + multiset{x}
    case (Resting, Taken(x)) => x in held && held' == held - multiset{x}
    case (Resting, FoundNone) => held == multiset{} && held' == held
    case (Taken(_), Resting) => held' == held
    case (FoundNone, Resting) => held' == held
    case _ => false
  }

  /** Thread `t` takes one step on the bag, or none. */
  ghost predicate BagStep(b: Bag, b': Bag, t: nat) {
    || b' == b
    || (&& t < |b.ops| == |b'.ops| && b'.ops == b.ops[t := b'.ops[t]]
        && OpStep(b.held, b.ops[t], b'.held, b'.ops[t]))
  }

  function Rest(n: nat): seq<Op> {
    seq(n, _ => Resting)
  }

  // ----- Pushes

  function PushOp(pc: Push.PC): Op {
    if Push.InFlight(pc) then Pushing(pc.span) else Resting
  }

  /** The spans of the first `n` cursors that are not in `open`. */
  ghost function Closed(open: set<nat>, log: seq<Span>, n: nat): multiset<Span>
    requires n <= |log|
  {
    if n == 0 then multiset{}
    else Closed(open, log, n - 1) + if n - 1 in open then multiset{} else multiset{log[n - 1]}
  }

  /** The bag holds the spans whose push has ended. */
  ghost function PushBag(s: Push.State, log: seq<Span>): Bag {
    Bag(Closed(Push.CursorSet(s.threads), log, |log|),
        seq(|s.threads|, i requires 0 <= i < |s.threads| => PushOp(s.threads[i])))
  }

  lemma {:induction false} ClosedSame(open: set<nat>, log: seq<Span>, open': set<nat>, log': seq<Span>, n: nat)
    requires n <= |log| && n <= |log'|
    requires forall c: nat :: c < n ==> (c in open <==> c in open') && log[c] == log'[c]
    ensures Closed(open, log, n) == Closed(open', log', n)
  {
    if n > 0 {
      ClosedSame(open, log, open', log', n - 1);
    }
  }

  lemma {:induction false} CloseOne(open: set<nat>, log: seq<Span>, c: nat, n: nat)
    requires c < n <= |log| && c in open
    ensures Closed(open - {c}, log, n) == Closed(open, log, n) + multiset{log[c]}
    decreases n
  {
    if c == n - 1 {
      ClosedSame(open - {c}, log, open, log, n - 1);
    } else {
      CloseOne(open, log, c, n - 1);
    }
  }

  lemma {:induction false} AllClosed(log: seq<Span>, n: nat)
    requires n <= |log|
    ensures Closed({}, log, n) == multiset(log[..n])
  {
    if n > 0 {
      AllClosed(log, n - 1);
      assert log[..n] == log[..n - 1] + [log[n - 1]];
    }
  }

  lemma CursorDrawn(threads: seq<Push.PC>, t: nat, pc: Push.PC)
    requires t < |threads| && threads[t].Idle? && Push.InFlight(pc)
    ensures Push.CursorSet(threads[t := pc]) == Push.CursorSet(threads) + {pc.cursor}
  {
    forall c: nat
      ensures c in Push.CursorSet(threads[t := pc]) <==> c in Push.CursorSet(threads) || c == pc.cursor
    {
      if c in Push.CursorSet(threads) {
        var u: nat :| u < |threads| && Push.InFlight(threads[u]) && threads[u].cursor == c;
        assert Push.InFlight(threads[t := pc][u]) && threads[t := pc][u].cursor == c;
      }
      if c == pc.cursor {
        assert Push.InFlight(threads[t := pc][t]) && threads[t := pc][t].cursor == c;
      }
    }
  }

  lemma PushBegins(s: Push.State, log: seq<Span>, t: nat, span: Span, s': Push.State)
    requires t < |s.threads| && s.threads[t].Idle?
    requires s'.threads == s.threads[t := Push.ReadLength(span, |log|)]
    ensures BagStep(PushBag(s, log), PushBag(s', log + [span]), t)
  {
    var open, open', log' := Push.CursorSet(s.threads), Push.CursorSet(s'.threads), log + [span];
    CursorDrawn(s.threads, t, Push.ReadLength(span, |log|));
    ClosedSame(open, log, open', log', |log|);
    assert Closed(open', log', |log'|) == Closed(open', log', |log|);
  }

  /** A step inside a push: the thread keeps its cursor and its span. */
  lemma InsideStep(s: Push.State, a: Push.Action)
    requires a.thread < |s.threads| && !s.threads[a.thread].Idle? && !s.threads[a.thread].Write?
    ensures var pc, s' := s.threads[a.thread], Push.Step(s, a);
      && |s'.threads| == |s.threads| && s'.threads == s.threads[a.thread := s'.threads[a.thread]]
      && Push.InFlight(s'.threads[a.thread])
      && s'.threads[a.thread].cursor == pc.cursor && s'.threads[a.thread].span == pc.span
  {
  }

  lemma PushGoesOn(s: Push.State, log: seq<Span>, t: nat, pc: Push.PC, s': Push.State)
    requires t < |s.threads| && Push.InFlight(s.threads[t]) && Push.InFlight(pc)
    requires pc.cursor == s.threads[t].cursor && pc.span == s.threads[t].span && s'.threads == s.threads[t := pc]
    ensures PushBag(s', log) == PushBag(s, log)
  {
    var open, open' := Push.CursorSet(s.threads), Push.CursorSet(s'.threads);
    forall c: nat
      ensures c in open <==> c in open'
    {
      if c in open {
        var u: nat :| u < |s.threads| && Push.InFlight(s.threads[u]) && s.threads[u].cursor == c;
        assert Push.InFlight(s'.threads[u]) && s'.threads[u].cursor == c;
      }
      if c in open' {
        var u: nat :| u < |s'.threads| && Push.InFlight(s'.threads[u]) && s'.threads[u].cursor == c;
        assert Push.InFlight(s.threads[u]) && s.threads[u].cursor == c;
      }
    }
    assert open == open';
    assert PushBag(s', log).ops == PushBag(s, log).ops;
  }

  lemma PushEnds(s: Push.State, log: seq<Span>, t: nat, s': Push.State)
    requires Push.CursorsDistinct(s) && t < |s.threads| && Push.ThreadOk(s.mem, log, s.threads[t])
    requires s.threads[t].Write? && s'.threads == s.threads[t := Push.Idle]
    ensures BagStep(PushBag(s, log), PushBag(s', log), t)
  {
    var c := s.threads[t].cursor;
    CursorReleased(s, t, s');
    CloseOne(Push.CursorSet(s.threads), log, c, |log|);
  }

  lemma CursorReleased(s: Push.State, t: nat, s': Push.State)
    requires Push.CursorsDistinct(s) && t < |s.threads| && Push.InFlight(s.threads[t])
    requires s'.threads == s.threads[t := Push.Idle]
    ensures s.threads[t].cursor in Push.CursorSet(s.threads)
    ensures Push.CursorSet(s'.threads) == Push.CursorSet(s.threads) - {s.threads[t].cursor}
  {
    forall c: nat
      ensures c in Push.CursorSet(s'.threads) <==> c in Push.CursorSet(s.threads) && c != s.threads[t].cursor
    {
      if c in Push.CursorSet(s.threads) && c != s.threads[t].cursor {
        var u: nat :| u < |s.threads| && Push.InFlight(s.threads[u]) && s.threads[u].cursor == c;
        assert Push.InFlight(s'.threads[u]) && s'.threads[u].cursor == c;
      }
      if c in Push.CursorSet(s'.threads) {
        var u: nat :| u < |s'.threads| && Push.InFlight(s'.threads[u]) && s'.threads[u].cursor == c;
        assert u != t && Push.InFlight(s.threads[u]) && s.threads[u].cursor == c;
      }
    }
  }

  /** Every step of a push is a step on the bag, or none. */
  lemma PushStepOnBag(s: Push.State, log: seq<Span>, a: Push.Action)
    requires Push.Inv(s, log)
    ensures BagStep(PushBag(s, log), PushBag(Push.Step(s, a), log + Push.Logged(s, a)), a.thread)
  {
    var t, s' := a.thread, Push.Step(s, a);
    if t >= |s.threads| {
      assert log + Push.Logged(s, a) == log;
    } else if s.threads[t].Idle? {
      PushBegins(s, log, t, a.choice.span, s');
    } else {
      assert log + Push.Logged(s, a) == log;
      if s.threads[t].Write? {
        assert Push.ThreadOk(s.mem, log, s.threads[t]);
        PushEnds(s, log, t, s');
      } else {
        InsideStep(s, a);
        PushGoesOn(s, log, t, s'.threads[t], s');
      }
    }
  }

  ghost predicate PushesRefine(s: Push.State, log: seq<Span>, schedule: seq<Push.Action>)
    decreases |schedule|
  {
    schedule != [] ==>
      var a, s', log' := schedule[0], Push.Step(s, schedule[0]), log + Push.Logged(s, schedule[0]);
      BagStep(PushBag(s, log), PushBag(s', log'), a.thread) && PushesRefine(s', log', schedule[1..])
  }

  lemma {:induction false} PushRunRefines(s: Push.State, log: seq<Span>, schedule: seq<Push.Action>)
    requires Push.Inv(s, log) && Push.AtMostInFlight(BLOCK_ENTRIES, s, schedule)
    ensures PushesRefine(s, log, schedule)
    decreases |schedule|
  {
    if schedule != [] {
      PushStepOnBag(s, log, schedule[0]);
      Push.StepKeepsInv(s, log, schedule[0]);
      PushRunRefines(Push.Step(s, schedule[0]), log + Push.Logged(s, schedule[0]), schedule[1..]);
    }
  }

  lemma RestingBag(s: Push.State, log: seq<Span>)
    requires Push.AllIdle(s)
    ensures PushBag(s, log) == Bag(multiset(log), Rest(|s.threads|))
  {
    assert Push.CursorSet(s.threads) == {};
    AllClosed(log, |log|);
    assert log[..|log|] == log;
    assert PushBag(s, log).ops == Rest(|s.threads|);
  }

  /** From a quiescent buffer, with at most 512 pushes in flight, every step of any run is a step on the bag
      of its contents, or none; when all pushes have ended the bag is that of the contents again. */
  lemma PushesRefineBag(m: Memory, contents: seq<Span>, n: nat, schedule: seq<Push.Action>)
    requires Quiescent(m, contents) && Push.AtMostInFlight(BLOCK_ENTRIES, Push.Start(m, n), schedule)
    ensures PushBag(Push.Start(m, n), contents) == Bag(multiset(contents), Rest(n))
    ensures PushesRefine(Push.Start(m, n), contents, schedule)
    ensures var e, log := Push.Run(Push.Start(m, n), schedule), contents + Push.Begun(Push.Start(m, n), schedule);
      Push.AllIdle(e) ==> Quiescent(e.mem, log) && PushBag(e, log) == Bag(multiset(log), Rest(|e.threads|))
  {
    Push.StartInv(m, contents, n);
    RestingBag(Push.Start(m, n), contents);
    PushRunRefines(Push.Start(m, n), contents, schedule);
    var e, log := Push.Run(Push.Start(m, n), schedule), contents + Push.Begun(Push.Start(m, n), schedule);
    if Push.AllIdle(e) {
      Push.PushesLoseNothing(m, contents, n, schedule);
      RestingBag(e, log);
    }
  }

  // ----- Pops

  function PopOp(pc: Pop.PC, contents: seq<Span>): Op {
    if pc.Idle? then Resting
    else if pc.Undo? then FoundNone
    else if pc.slot < |contents| then Taken(contents[pc.slot]) else Resting
  }

  /** The bag holds the spans of the unclaimed slots. */
  ghost function PopBag(s: Pop.State, contents: seq<Span>, free: nat): Bag
    requires free <= |contents|
  {
    Bag(multiset(contents[..free]),
        seq(|s.threads|, i requires 0 <= i < |s.threads| => PopOp(s.threads[i], contents)))
  }

  /** What a pop returns is what it took from the bag. */
  ghost predicate Returns(op: Op, outs: seq<Pop.Output>) {
    forall o :: o in outs ==>
      match o
      case Empty => op == FoundNone
      case Took(_, value) => value.Some? && op == Taken(value.value)
  }

  lemma TakeOne(contents: seq<Span>, free: nat)
    requires 0 < free <= |contents|
    ensures contents[free - 1] in multiset(contents[..free])
    ensures multiset(contents[..free - 1]) == multiset(contents[..free]) - multiset{contents[free - 1]}
  {
    assert contents[..free] == contents[..free - 1] + [contents[free - 1]];
  }

  /** What a step of a pop does to the thread's part in the bag. */
  lemma PopOpStep(s: Pop.State, contents: seq<Span>, free: nat, outs: seq<Pop.Output>, t: nat)
    requires Pop.Inv(s, contents, free, outs) && t < |s.threads|
    ensures var pc, s' := s.threads[t], Pop.Step(Pop.Signed, s, t);
      && |s'.threads| == |s.threads| && s'.threads == s.threads[t := s'.threads[t]]
      && Pop.FreeAfter(s, t, free) <= free <= |contents|
      && var op, op' := PopOp(pc, contents), PopOp(s'.threads[t], contents);
        && (pc.Idle? && free > 0 ==> op' == Taken(contents[free - 1]))
        && (pc.Idle? && free == 0 ==> op' == FoundNone)
        && (!pc.Idle? ==> op' == op || (op != Resting && op' == Resting))
  {
    assert Pop.ThreadOk(s.mem, contents, free, s.threads[t]);
  }

  lemma PopReturns(s: Pop.State, contents: seq<Span>, free: nat, outs: seq<Pop.Output>, t: nat)
    requires Pop.Inv(s, contents, free, outs) && t < |s.threads|
    ensures Returns(PopOp(s.threads[t], contents), Pop.Returned(s, t))
  {
    assert Pop.ThreadOk(s.mem, contents, free, s.threads[t]);
  }

  lemma PopStepOnBag(s: Pop.State, contents: seq<Span>, free: nat, outs: seq<Pop.Output>, t: nat)
    requires Pop.Inv(s, contents, free, outs) && t < |s.threads|
    ensures Pop.FreeAfter(s, t, free) <= |contents|
    ensures BagStep(PopBag(s, contents, free), PopBag(Pop.Step(Pop.Signed, s, t), contents, Pop.FreeAfter(s, t, free)), t)
    ensures Returns(PopBag(s, contents, free).ops[t], Pop.Returned(s, t))
  {
    PopOpStep(s, contents, free, outs, t);
    PopReturns(s, contents, free, outs, t);
    if free > 0 {
      TakeOne(contents, free);
    }
    PopBagStep(s, contents, free, t, Pop.Step(Pop.Signed, s, t), Pop.FreeAfter(s, t, free));
  }

  lemma PopBagStep(s: Pop.State, contents: seq<Span>, free: nat, t: nat, s': Pop.State, free': nat)
    requires t < |s.threads| == |s'.threads| && s'.threads == s.threads[t := s'.threads[t]]
    requires free' <= free <= |contents| && free' == if s.threads[t].Idle? && free > 0 then free - 1 else free
    requires var op, op' := PopOp(s.threads[t], contents), PopOp(s'.threads[t], contents);
      || (op' == op && free' == free)
      || OpStep(multiset(contents[..free]), op, multiset(contents[..free']), op')
    ensures BagStep(PopBag(s, contents, free), PopBag(s', contents, free'), t)
  {
    assert PopBag(s', contents, free').ops ==
      PopBag(s, contents, free).ops[t := PopOp(s'.threads[t], contents)];
  }

  ghost predicate PopsRefine(s: Pop.State, contents: seq<Span>, free: nat, schedule: seq<nat>)
    requires free <= |contents|
    decreases |schedule|
  {
    schedule != [] ==>
      var t, s', free' := schedule[0], Pop.Step(Pop.Signed, s, schedule[0]), Pop.FreeAfter(s, schedule[0], free);
      && BagStep(PopBag(s, contents, free), PopBag(s', contents, free'), t)
      && (t < |s.threads| ==> Returns(PopBag(s, contents, free).ops[t], Pop.Returned(s, t)))
      && PopsRefine(s', contents, free', schedule[1..])
  }

  lemma {:induction false} PopRunRefines(s: Pop.State, contents: seq<Span>, free: nat, outs: seq<Pop.Output>,
                                         schedule: seq<nat>)
    requires Pop.Inv(s, contents, free, outs)
    ensures PopsRefine(s, contents, free, schedule)
    decreases |schedule|
  {
    if schedule != [] {
      var t := schedule[0];
      Pop.StepKeepsInv(s, contents, free, outs, t);
      if t < |s.threads| {
        PopStepOnBag(s, contents, free, outs, t);
      }
      PopRunRefines(Pop.Step(Pop.Signed, s, t), contents, Pop.FreeAfter(s, t, free), outs + Pop.Returned(s, t),
                    schedule[1..]);
    }
  }

  lemma IdleBag(s: Pop.State, contents: seq<Span>, left: nat)
    requires Pop.AllIdle(s) && left <= |contents|
    ensures PopBag(s, contents, left) == Bag(multiset(contents[..left]), Rest(|s.threads|))
  {
    assert PopBag(s, contents, left).ops == Rest(|s.threads|);
  }

  /** From a quiescent buffer, every step of any run of pops is a step on the bag of its contents, or none, and
      each pop returns what it took out of the bag, or nothing when it found the bag empty. */
  lemma PopsRefineBag(m: Memory, contents: seq<Span>, n: nat, schedule: seq<nat>)
    requires Quiescent(m, contents)
    ensures PopBag(Pop.Start(m, n), contents, |contents|) == Bag(multiset(contents), Rest(n))
    ensures PopsRefine(Pop.Start(m, n), contents, |contents|, schedule)
    ensures var e := Pop.Run(Pop.Signed, Pop.Start(m, n), schedule);
      Pop.AllIdle(e) ==>
        && 0 <= e.mem.index <= |contents| && Quiescent(e.mem, contents[..e.mem.index])
        && PopBag(e, contents, e.mem.index) == Bag(multiset(contents[..e.mem.index]), Rest(|e.threads|))
  {
    Pop.StartInv(m, contents, n);
    PopRunRefines(Pop.Start(m, n), contents, |contents|, [], schedule);
    assert contents[..|contents|] == contents;
    IdleBag(Pop.Start(m, n), contents, |contents|);
    var e := Pop.Run(Pop.Signed, Pop.Start(m, n), schedule);
    if Pop.AllIdle(e) {
      Pop.PopsLeaveTheRest(m, contents, n, schedule);
      IdleBag(e, contents, e.mem.index);
    }
  }
}
