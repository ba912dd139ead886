/** What every step of the sweep protocol keeps, when a popped span's state is read before its
    generation. */
module SweepInvariant {
  import opened Options
  import opened Sums
  import opened Generations
  import opened SweepProtocol

  /** The thread is between joining and leaving the sweepers. */
  predicate Counted(pc: PC) {
    !pc.Idle? && !pc.Enter? && !pc.Panicked?
  }

  /** The thread has popped `x` and not yet claimed or dropped it. */
  predicate Holds(pc: PC, x: SpanId) {
    Holding(pc) && pc.x == x
  }

  predicate Holding(pc: PC) {
    pc.LoadFirst? || pc.LoadSpanGeneration? || (pc.Claim? && !pc.direct)
  }

  /** The thread has claimed `x` and not yet handed it on. */
  predicate Owns(pc: PC, x: SpanId) {
    Owning(pc) && pc.x == x
  }

  predicate Owning(pc: PC) {
    pc.Sweep? || pc.Stamp? || pc.FreeSpan? || pc.Push?
  }

  ghost predicate ThreadOk(s: State, t: nat)
    requires Sized(s) && t < |s.threads|
  {
    var pc := s.threads[t];
    match pc
    case Pop(g) => g == s.g
    case SetDone(g) => g == s.g && Unswept(s) == multiset{}
    case LoadFirst(g, x) => g == s.g && x < |s.spans| && s.aux[x].holder == Some(t)
    case LoadSpanGeneration(g, x, state) =>
      && g == s.g && x < |s.spans| && s.aux[x].holder == Some(t)
      && (state.Free? ==> s.spans[x].generation == g)
    case LoadState(_, _, _) => false
    case DirectCheck(g, x) => g == s.g
    case Claim(g, x, direct) =>
      && g == s.g && x < |s.spans| && (!direct ==> s.aux[x].holder == Some(t))
      && (s.spans[x].generation + 2 == g ==> s.spans[x].state.InUse?)
    case Sweep(g, x, _) =>
      && g == s.g && x < |s.spans| && s.aux[x].owner == Some(t)
      && s.spans[x].state.InUse? && s.spans[x].generation == g - 1
      && s.aux[x].sweeps == 0 && s.aux[x].duePages == s.spans[x].pages
    case Stamp(g, x, _) =>
      && g == s.g && x < |s.spans| && s.aux[x].owner == Some(t)
      && s.spans[x].state.InUse? && s.spans[x].generation == g - 1 && s.aux[x].sweeps == 1
    case FreeSpan(g, x, _) =>
      g == s.g && x < |s.spans| && s.aux[x].owner == Some(t) && s.spans[x].state.InUse? && s.spans[x].generation == g
    case Push(g, x, _) =>
      g == s.g && x < |s.spans| && s.aux[x].owner == Some(t) && s.spans[x].state.InUse? && s.spans[x].generation == g
    case Panicked => false
    case _ => true
  }

  ghost predicate ThreadsOk(s: State)
    requires Sized(s)
  {
    forall t :: 0 <= t < |s.threads| ==> ThreadOk(s, t)
  }

  /** What is known of one span, its entries in the two stacks being `un` and `sw`. */
  ghost predicate SpanOk(g: nat, threads: seq<PC>, x: SpanId, span: Span, aux: Aux, un: nat, sw: nat) {
    var held := if aux.holder.Some? then 1 else 0;
    && (aux.holder.Some? ==> aux.holder.value < |threads| && Holds(threads[aux.holder.value], x))
    && (aux.owner.Some? ==> aux.owner.value < |threads| && Owns(threads[aux.owner.value], x))
    && un + held <= 1
    && match span.state
       case InUse =>
         if span.generation + 2 == g then
           un + held == 1 && sw == 0 && aux.owner.None? && aux.due && aux.sweeps == 0 && aux.duePages == span.pages
         else if span.generation + 1 == g then
           sw == 0 && aux.owner.Some? && aux.due && aux.sweeps <= 1
         else
           && span.generation == g
           && sw == (if aux.owner.None? then 1 else 0)
           && aux.sweeps == (if aux.due then 1 else 0)
       case Free =>
         && sw == 0 && aux.owner.None?
         && aux.sweeps == (if aux.due then 1 else 0)
         && (un + held > 0 ==> span.generation == g)
  }

  ghost predicate SpansOk(s: State)
    requires Sized(s)
  {
    forall x :: 0 <= x < |s.spans| ==>
      SpanOk(s.g, s.threads, x, s.spans[x], s.aux[x], Unswept(s)[x], Swept(s)[x])
  }

  ghost predicate StacksOk(s: State)
    requires Sized(s)
  {
    && (forall x :: x in Unswept(s) || x in Swept(s) ==> x < |s.spans|)
    && (s.done ==> Unswept(s) == multiset{})
  }

  // Sums over spans and threads

  function CountOf(pc: PC): nat {
    if Counted(pc) then 1 else 0
  }

  function CountedThreads(threads: seq<PC>): nat {
    Total(CountOf, threads)
  }

  function Owed(pc: PC): nat {
    if pc.Leave? && !pc.direct && pc.result.Some? then pc.result.value else 0
  }

  /** Results of sweep_one that are settled but not yet returned. */
  function OwedPages(threads: seq<PC>): nat {
    Total(Owed, threads)
  }

  function PagesOf(span: Span): nat {
    if span.state.InUse? then span.pages else 0
  }

  function InUsePages(spans: seq<Span>): nat {
    Total(PagesOf, spans)
  }

  function SweptOf(aux: Aux): nat {
    if aux.sweeps > 0 then aux.duePages else 0
  }

  /** The pages of the spans swept in this cycle. */
  function SweptPages(aux: seq<Aux>): nat {
    Total(SweptOf, aux)
  }

  ghost predicate CountsOk(s: State) {
    && s.sweepers == CountedThreads(s.threads)
    && s.pagesInUse == InUsePages(s.spans)
    && s.pagesSwept == s.sweptBefore + SweptPages(s.aux)
    && s.freedByOne == s.reported + OwedPages(s.threads)
  }

  ghost predicate Inv(s: State) {
    Sized(s) && ThreadsOk(s) && SpansOk(s) && StacksOk(s) && CountsOk(s)
  }

  lemma ThreadUpdate(threads: seq<PC>, t: nat, pc: PC)
    requires t < |threads|
    ensures CountedThreads(threads[t := pc]) + CountOf(threads[t]) == CountedThreads(threads) + CountOf(pc)
    ensures OwedPages(threads[t := pc]) + Owed(threads[t]) == OwedPages(threads) + Owed(pc)
    ensures CountedThreads(threads) >= CountOf(threads[t])
  {
    TotalUpdate(CountOf, threads, t, pc);
    TotalUpdate(Owed, threads, t, pc);
  }

  // ----- Frames

  /** A thread moves on and spans, stacks and generation stay as they are. */
  ghost predicate OnlyThread(s: State, s': State, t: nat) {
    && t < |s.threads| == |s'.threads|
    && s'.threads == s.threads[t := s'.threads[t]]
    && s'.g == s.g && s'.buffers == s.buffers && s'.spans == s.spans && s'.aux == s.aux
  }

  lemma OnlyThreadKeeps(s: State, s': State, t: nat)
    requires Inv(s) && OnlyThread(s, s', t) && ThreadOk(s', t)
    requires Holding(s.threads[t]) ==> Holds(s'.threads[t], s.threads[t].x)
    requires !Owning(s.threads[t])
    ensures ThreadsOk(s') && SpansOk(s')
  {
    forall u | 0 <= u < |s'.threads|
      ensures ThreadOk(s', u)
    {
      if u != t { assert ThreadOk(s, u); }
    }
    forall x | 0 <= x < |s'.spans|
      ensures SpanOk(s'.g, s'.threads, x, s'.spans[x], s'.aux[x], Unswept(s')[x], Swept(s')[x])
    {
      assert SpanOk(s.g, s.threads, x, s.spans[x], s.aux[x], Unswept(s)[x], Swept(s)[x]);
    }
  }

  /** Thread `t` changes span `x` alone. */
  ghost predicate OnlySpan(s: State, s': State, t: nat, x: SpanId) {
    && Sized(s) && Sized(s')
    && t < |s.threads| == |s'.threads| && x < |s.spans| == |s'.spans|
    && s'.threads == s.threads[t := s'.threads[t]]
    && s'.g == s.g
    && s'.spans == s.spans[x := s'.spans[x]]
    && s'.aux == s.aux[x := s'.aux[x]]
    && (forall y :: y != x ==> Unswept(s')[y] == Unswept(s)[y] && Swept(s')[y] == Swept(s)[y])
    && Unswept(s')[x] <= Unswept(s)[x]
    && (Holding(s.threads[t]) || Owning(s.threads[t]) ==> s.threads[t].x == x)
  }

  /** The change to `x` takes nothing from a thread other than `t`. */
  ghost predicate OthersKeep(s: State, s': State, t: nat, x: SpanId)
    requires OnlySpan(s, s', t, x)
  {
    var a, a' := s.aux[x], s'.aux[x];
    && (a.holder.Some? && a.holder != Some(t) ==> a'.holder == a.holder)
    && (a.owner.Some? && a.owner != Some(t) ==> a' == a.(holder := a'.holder) && s'.spans[x] == s.spans[x])
    && (s.spans[x].generation == s.g ==> s'.spans[x].generation == s.g)
    && (s'.spans[x].generation + 2 == s.g ==> s'.spans[x] == s.spans[x])
  }

  lemma OtherThreadKeeps(s: State, s': State, t: nat, x: SpanId, u: nat)
    requires OnlySpan(s, s', t, x) && OthersKeep(s, s', t, x)
    requires u < |s.threads| && u != t && ThreadOk(s, u)
    ensures ThreadOk(s', u)
  {
    if s.threads[u].SetDone? { assert Unswept(s') == multiset{}; }
  }

  lemma OtherSpanKeeps(s: State, s': State, t: nat, x: SpanId, y: SpanId)
    requires OnlySpan(s, s', t, x) && y < |s.spans| && y != x
    requires SpanOk(s.g, s.threads, y, s.spans[y], s.aux[y], Unswept(s)[y], Swept(s)[y])
    ensures SpanOk(s'.g, s'.threads, y, s'.spans[y], s'.aux[y], Unswept(s')[y], Swept(s')[y])
  {
  }

  lemma OnlySpanKeeps(s: State, s': State, t: nat, x: SpanId)
    requires Sized(s) && ThreadsOk(s) && SpansOk(s)
    requires OnlySpan(s, s', t, x) && OthersKeep(s, s', t, x) && ThreadOk(s', t)
    requires SpanOk(s'.g, s'.threads, x, s'.spans[x], s'.aux[x], Unswept(s')[x], Swept(s')[x])
    ensures ThreadsOk(s') && SpansOk(s')
  {
    forall u | 0 <= u < |s'.threads|
      ensures ThreadOk(s', u)
    {
      if u != t { OtherThreadKeeps(s, s', t, x, u); }
    }
    forall y | 0 <= y < |s'.spans|
      ensures SpanOk(s'.g, s'.threads, y, s'.spans[y], s'.aux[y], Unswept(s')[y], Swept(s')[y])
    {
      if y != x { OtherSpanKeeps(s, s', t, x, y); }
    }
  }

  /** The counters follow a change to one thread and one span. */
  lemma CountsAfter(s: State, s': State, t: nat, x: SpanId)
    requires CountsOk(s) && t < |s.threads| == |s'.threads| && x < |s.spans| == |s'.spans|
    requires |s.aux| == |s.spans| && |s'.aux| == |s'.spans|
    requires s'.threads == s.threads[t := s'.threads[t]]
    requires s'.spans == s.spans[x := s'.spans[x]] && s'.aux == s.aux[x := s'.aux[x]]
    requires s'.sweepers + (if Counted(s.threads[t]) then 1 else 0) == s.sweepers + (if Counted(s'.threads[t]) then 1 else 0)
    requires s'.pagesInUse + PagesOf(s.spans[x]) == s.pagesInUse + PagesOf(s'.spans[x])
    requires s'.sweptBefore == s.sweptBefore
    requires s'.pagesSwept + SweptOf(s.aux[x]) == s.pagesSwept + SweptOf(s'.aux[x])
    requires s'.freedByOne + s.reported + Owed(s.threads[t]) == s.freedByOne + s'.reported + Owed(s'.threads[t])
    ensures CountsOk(s')
  {
    ThreadUpdate(s.threads, t, s'.threads[t]);
    TotalUpdate(PagesOf, s.spans, x, s'.spans[x]);
    TotalUpdate(SweptOf, s.aux, x, s'.aux[x]);
  }

  lemma CountsAfterThread(s: State, s': State, t: nat)
    requires CountsOk(s) && t < |s.threads| == |s'.threads|
    requires s'.threads == s.threads[t := s'.threads[t]]
    requires s'.spans == s.spans && s'.aux == s.aux && s'.pagesInUse == s.pagesInUse
    requires s'.sweepers + (if Counted(s.threads[t]) then 1 else 0) == s.sweepers + (if Counted(s'.threads[t]) then 1 else 0)
    requires s'.sweptBefore == s.sweptBefore && s'.pagesSwept == s.pagesSwept
    requires s'.freedByOne + s.reported + Owed(s.threads[t]) == s.freedByOne + s'.reported + Owed(s'.threads[t])
    ensures CountsOk(s')
  {
    ThreadUpdate(s.threads, t, s'.threads[t]);
  }

  /** What is known of thread `t` and span `x`. */
  ghost predicate Known(s: State, t: nat, x: SpanId) {
    && Sized(s) && t < |s.threads| && x < |s.spans| && ThreadOk(s, t)
    && SpanOk(s.g, s.threads, x, s.spans[x], s.aux[x], Unswept(s)[x], Swept(s)[x])
  }

  lemma InvKnown(s: State, t: nat, x: SpanId)
    requires Inv(s) && t < |s.threads| && x < |s.spans|
    ensures Known(s, t, x)
  {
  }

  /** A step of thread `t` on span `x` that is right for `t` and `x` and leaves the rest alone. */
  ghost predicate GoodSpanStep(s: State, s': State, t: nat, x: SpanId) {
    && OnlySpan(s, s', t, x) && OthersKeep(s, s', t, x) && ThreadOk(s', t)
    && SpanOk(s'.g, s'.threads, x, s'.spans[x], s'.aux[x], Unswept(s')[x], Swept(s')[x])
    && s'.done == s.done
    && s'.sweepers == s.sweepers && Counted(s.threads[t]) && Counted(s'.threads[t])
    && s'.pagesInUse + PagesOf(s.spans[x]) == s.pagesInUse + PagesOf(s'.spans[x])
    && s'.sweptBefore == s.sweptBefore
    && s'.pagesSwept + SweptOf(s.aux[x]) == s.pagesSwept + SweptOf(s'.aux[x])
    && s'.freedByOne + s.reported + Owed(s.threads[t]) == s.freedByOne + s'.reported + Owed(s'.threads[t])
  }

  lemma SpanStepKeeps(s: State, s': State, t: nat, x: SpanId)
    requires Inv(s) && GoodSpanStep(s, s', t, x)
    ensures Inv(s')
  {
    OnlySpanKeeps(s, s', t, x);
    CountsAfter(s, s', t, x);
    StacksAfter(s, s', t, x);
  }

  lemma StacksAfter(s: State, s': State, t: nat, x: SpanId)
    requires Sized(s) && StacksOk(s) && OnlySpan(s, s', t, x) && s'.done == s.done
    ensures StacksOk(s')
  {
    forall y | y in Unswept(s') || y in Swept(s')
      ensures y < |s'.spans|
    {
      if y != x { assert y in Unswept(s) || y in Swept(s); }
    }
    if s.done {
      assert Unswept(s') == multiset{};
    }
  }

  /** A step of thread `t` that touches no span keeps the invariant if it does so for `t`. */
  lemma ThreadStepKeeps(s: State, s': State, t: nat)
    requires Inv(s) && OnlyThread(s, s', t) && ThreadOk(s', t)
    requires Holding(s.threads[t]) ==> Holds(s'.threads[t], s.threads[t].x)
    requires !Owning(s.threads[t])
    requires s'.done ==> s.done || Unswept(s) == multiset{}
    requires s'.sweepers + (if Counted(s.threads[t]) then 1 else 0) == s.sweepers + (if Counted(s'.threads[t]) then 1 else 0)
    requires s'.pagesInUse == s.pagesInUse && s'.sweptBefore == s.sweptBefore && s'.pagesSwept == s.pagesSwept
    requires s'.freedByOne + s.reported + Owed(s.threads[t]) == s.freedByOne + s'.reported + Owed(s'.threads[t])
    ensures Inv(s')
  {
    OnlyThreadKeeps(s, s', t);
    CountsAfterThread(s, s', t);
    StacksAfterThread(s, s', t);
  }

  lemma StacksAfterThread(s: State, s': State, t: nat)
    requires Sized(s) && StacksOk(s) && OnlyThread(s, s', t)
    requires s'.done ==> s.done || Unswept(s) == multiset{}
    ensures StacksOk(s')
  {
    assert Unswept(s') == Unswept(s) && Swept(s') == Swept(s);
  }

  // ----- Every step keeps the invariant

  lemma QuietStep(s: State, t: nat, choice: Choice)
    requires Inv(s) && t < |s.threads|
    requires var pc := s.threads[t]; pc.Idle? || pc.LoadGeneration? || pc.DirectLoadGeneration?
    ensures Inv(ThreadStep(StateFirst, s, t, choice))
  {
    var s' := ThreadStep(StateFirst, s, t, choice);
    if s' != s {
      ThreadStepKeeps(s, s', t);
    }
  }

  lemma EnterStep(s: State, t: nat, choice: Choice)
    requires Inv(s) && t < |s.threads| && s.threads[t].Enter?
    ensures Inv(ThreadStep(StateFirst, s, t, choice))
  {
    ThreadStepKeeps(s, ThreadStep(StateFirst, s, t, choice), t);
  }

  lemma DirectCheckStep(s: State, t: nat, choice: Choice)
    requires Inv(s) && t < |s.threads| && s.threads[t].DirectCheck?
    ensures Inv(ThreadStep(StateFirst, s, t, choice))
  {
    assert ThreadOk(s, t);
    ThreadStepKeeps(s, ThreadStep(StateFirst, s, t, choice), t);
  }

  lemma SetDoneStep(s: State, t: nat, choice: Choice)
    requires Inv(s) && t < |s.threads| && s.threads[t].SetDone?
    ensures Inv(ThreadStep(StateFirst, s, t, choice))
  {
    assert ThreadOk(s, t);
    ThreadStepKeeps(s, ThreadStep(StateFirst, s, t, choice), t);
  }

  lemma LeaveStep(s: State, t: nat, choice: Choice)
    requires Inv(s) && t < |s.threads| && s.threads[t].Leave?
    ensures Inv(ThreadStep(StateFirst, s, t, choice))
  {
    ThreadUpdate(s.threads, t, Idle);
    ThreadStepKeeps(s, ThreadStep(StateFirst, s, t, choice), t);
  }

  lemma PopStep(s: State, t: nat, choice: Choice)
    requires Inv(s) && t < |s.threads| && s.threads[t].Pop?
    ensures Inv(ThreadStep(StateFirst, s, t, choice))
  {
    assert ThreadOk(s, t);
    if Unswept(s) == multiset{} {
      PopFindsNone(s, t, choice);
    } else if choice.take in Unswept(s) && choice.take < |s.spans| {
      PopTakes(s, t, choice);
    } else {
      PopWaits(s, t, choice);
    }
  }

  lemma PopFindsNone(s: State, t: nat, choice: Choice)
    requires Inv(s) && t < |s.threads| && s.threads[t] == Pop(s.g) && Unswept(s) == multiset{}
    ensures Inv(ThreadStep(StateFirst, s, t, choice))
  {
    PopEmptyStep(s, t, choice);
    ThreadStepKeeps(s, Goto(s, t, SetDone(s.g)), t);
  }

  lemma PopEmptyStep(s: State, t: nat, choice: Choice)
    requires Sized(s) && t < |s.threads| && s.threads[t] == Pop(s.g) && Unswept(s) == multiset{}
    ensures ThreadStep(StateFirst, s, t, choice) == Goto(s, t, SetDone(s.g))
  {
  }

  lemma PopWaits(s: State, t: nat, choice: Choice)
    requires Sized(s) && t < |s.threads| && s.threads[t] == Pop(s.g) && Unswept(s) != multiset{}
    requires choice.take !in Unswept(s) || choice.take >= |s.spans|
    ensures ThreadStep(StateFirst, s, t, choice) == s
  {
  }

  lemma PopTakes(s: State, t: nat, choice: Choice)
    requires Inv(s) && t < |s.threads| && s.threads[t] == Pop(s.g)
    requires choice.take in Unswept(s) && choice.take < |s.spans|
    ensures Inv(ThreadStep(StateFirst, s, t, choice))
  {
    var s' := ThreadStep(StateFirst, s, t, choice);
    InvKnown(s, t, choice.take);
    TakeSpan(s, t, choice.take, s');
    SpanStepKeeps(s, s', t, choice.take);
  }

  lemma TakesOnly(s: State, t: nat, x: SpanId, s': State)
    requires Sized(s) && t < |s.threads| && x < |s.spans| && s.threads[t] == Pop(s.g) && x in Unswept(s) && x < |s.spans|
    requires var i := 1 - SweptIndex(s.g);
      s' == s.(buffers := s.buffers[i := Unswept(s) - multiset{x}], aux := s.aux[x := s.aux[x].(holder := Some(t))],
               threads := s.threads[t := LoadFirst(s.g, x)])
    ensures OnlySpan(s, s', t, x) && Unswept(s')[x] == Unswept(s)[x] - 1
  {
  }

  lemma TakeSpan(s: State, t: nat, x: SpanId, s': State)
    requires Known(s, t, x) && s.threads[t] == Pop(s.g) && x in Unswept(s) && x < |s.spans|
    requires var i := 1 - SweptIndex(s.g);
      s' == s.(buffers := s.buffers[i := Unswept(s) - multiset{x}], aux := s.aux[x := s.aux[x].(holder := Some(t))],
               threads := s.threads[t := LoadFirst(s.g, x)])
    ensures GoodSpanStep(s, s', t, x)
  {
    TakesOnly(s, t, x, s');
  }

  lemma LoadFirstStep(s: State, t: nat, choice: Choice)
    requires Inv(s) && t < |s.threads| && s.threads[t].LoadFirst?
    ensures Inv(ThreadStep(StateFirst, s, t, choice))
  {
    assert ThreadOk(s, t);
    var x := s.threads[t].x;
    assert SpanOk(s.g, s.threads, x, s.spans[x], s.aux[x], Unswept(s)[x], Swept(s)[x]);
    ThreadStepKeeps(s, ThreadStep(StateFirst, s, t, choice), t);
  }

  /** A popper drops a span that is not there to be claimed. */
  lemma DropSpan(s: State, t: nat, x: SpanId, s': State)
    requires Known(s, t, x) && Holds(s.threads[t], x)
    requires x < |s.spans| && (s.spans[x].state.Free? || s.spans[x].generation + 2 != s.g)
    requires s' == s.(aux := s.aux[x := s.aux[x].(holder := None)], threads := s.threads[t := Pop(s.g)])
    ensures GoodSpanStep(s, s', t, x)
  {
  }

  lemma JudgeStep(s: State, t: nat, choice: Choice)
    requires Inv(s) && t < |s.threads| && s.threads[t].LoadSpanGeneration?
    ensures Inv(ThreadStep(StateFirst, s, t, choice))
  {
    var s' := ThreadStep(StateFirst, s, t, choice);
    var pc := s.threads[t];
    assert ThreadOk(s, t);
    if pc.state.InUse? && s.spans[pc.x].generation + 2 == s.g {
      assert SpanOk(s.g, s.threads, pc.x, s.spans[pc.x], s.aux[pc.x], Unswept(s)[pc.x], Swept(s)[pc.x]);
      ThreadStepKeeps(s, s', t);
    } else {
      InvKnown(s, t, pc.x);
      DropSpan(s, t, pc.x, s');
      SpanStepKeeps(s, s', t, pc.x);
    }
  }

  lemma ClaimStep(s: State, t: nat, choice: Choice)
    requires Inv(s) && t < |s.threads| && s.threads[t].Claim?
    ensures Inv(ThreadStep(StateFirst, s, t, choice))
  {
    assert ThreadOk(s, t);
    InvKnown(s, t, s.threads[t].x);
    if s.spans[s.threads[t].x].generation + 2 == s.g {
      ClaimWins(s, t, choice);
    } else {
      ClaimLoses(s, t, choice);
    }
  }

  lemma ClaimWins(s: State, t: nat, choice: Choice)
    requires Inv(s) && t < |s.threads| && s.threads[t].Claim? && Known(s, t, s.threads[t].x)
    requires s.spans[s.threads[t].x].generation + 2 == s.g
    ensures Inv(ThreadStep(StateFirst, s, t, choice))
  {
    var s' := ThreadStep(StateFirst, s, t, choice);
    var pc := s.threads[t];
    TakeOwnership(s, t, pc.x, pc.direct, s');
    SpanStepKeeps(s, s', t, pc.x);
  }

  lemma ClaimLoses(s: State, t: nat, choice: Choice)
    requires Inv(s) && t < |s.threads| && s.threads[t].Claim? && Known(s, t, s.threads[t].x)
    requires s.spans[s.threads[t].x].generation + 2 != s.g
    ensures Inv(ThreadStep(StateFirst, s, t, choice))
  {
    var s' := ThreadStep(StateFirst, s, t, choice);
    var pc := s.threads[t];
    if pc.direct {
      ThreadStepKeeps(s, s', t);
    } else {
      DropSpan(s, t, pc.x, s');
      SpanStepKeeps(s, s', t, pc.x);
    }
  }

  lemma TakeOwnership(s: State, t: nat, x: SpanId, direct: bool, s': State)
    requires Known(s, t, x) && s.threads[t] == Claim(s.g, x, direct)
    requires x < |s.spans| && s.spans[x].generation + 2 == s.g
    requires s' == s.(spans := s.spans[x := s.spans[x].(generation := s.g - 1)],
                      aux := s.aux[x := s.aux[x].(owner := Some(t), holder := if direct then s.aux[x].holder else None)],
                      threads := s.threads[t := Sweep(s.g, x, direct)])
    ensures GoodSpanStep(s, s', t, x)
  {
  }

  lemma SweepStep(s: State, t: nat, choice: Choice)
    requires Inv(s) && t < |s.threads| && s.threads[t].Sweep?
    ensures Inv(ThreadStep(StateFirst, s, t, choice))
  {
    var x := s.threads[t].x;
    assert ThreadOk(s, t);
    assert SpanOk(s.g, s.threads, x, s.spans[x], s.aux[x], Unswept(s)[x], Swept(s)[x]);
    var s' := ThreadStep(StateFirst, s, t, choice);
    InvKnown(s, t, x);
    CountSweep(s, t, x, s.threads[t].direct, s');
    SpanStepKeeps(s, s', t, x);
  }

  lemma CountSweep(s: State, t: nat, x: SpanId, direct: bool, s': State)
    requires Known(s, t, x) && s.threads[t] == Sweep(s.g, x, direct)
    requires s' == s.(aux := s.aux[x := s.aux[x].(sweeps := s.aux[x].sweeps + 1)],
                      pagesSwept := s.pagesSwept + s.spans[x].pages,
                      threads := s.threads[t := Stamp(s.g, x, direct)])
    ensures GoodSpanStep(s, s', t, x)
  {
  }

  lemma StampStep(s: State, t: nat, choice: Choice)
    requires Inv(s) && t < |s.threads| && s.threads[t].Stamp?
    ensures Inv(ThreadStep(StateFirst, s, t, choice))
  {
    assert ThreadOk(s, t);
    var x, s' := s.threads[t].x, ThreadStep(StateFirst, s, t, choice);
    InvKnown(s, t, x);
    StampSpan(s, t, x, s');
    SpanStepKeeps(s, s', t, x);
  }

  lemma StampSpan(s: State, t: nat, x: SpanId, s': State)
    requires Known(s, t, x) && s.threads[t].Stamp? && s.threads[t].x == x < |s.spans|
    requires s' == s.(spans := s.spans[x := s.spans[x].(generation := s.g)], threads := s'.threads)
    requires s'.threads == s.threads[t := FreeSpan(s.g, x, s.threads[t].direct)]
      || s'.threads == s.threads[t := Push(s.g, x, s.threads[t].direct)]
    ensures GoodSpanStep(s, s', t, x)
  {
  }

  lemma FreeSpanStep(s: State, t: nat, choice: Choice)
    requires Inv(s) && t < |s.threads| && s.threads[t].FreeSpan?
    ensures Inv(ThreadStep(StateFirst, s, t, choice))
  {
    assert ThreadOk(s, t);
    var x := s.threads[t].x;
    TotalUpdate(PagesOf, s.spans, x, s.spans[x]);
    var s' := ThreadStep(StateFirst, s, t, choice);
    InvKnown(s, t, x);
    ReturnSpan(s, t, x, s.threads[t].direct, s');
    SpanStepKeeps(s, s', t, x);
  }

  lemma ReturnSpan(s: State, t: nat, x: SpanId, direct: bool, s': State)
    requires Known(s, t, x) && s.threads[t] == FreeSpan(s.g, x, direct) && x < |s.spans|
    requires s.pagesInUse >= s.spans[x].pages
    requires s' == s.(spans := s.spans[x := s.spans[x].(state := Free)], aux := s.aux[x := s.aux[x].(owner := None)],
                      threads := s.threads[t := Leave(Some(s.spans[x].pages), direct)],
                      pagesInUse := s.pagesInUse - s.spans[x].pages,
                      freedByOne := s.freedByOne + if direct then 0 else s.spans[x].pages)
    ensures GoodSpanStep(s, s', t, x)
  {
  }

  lemma PushStep(s: State, t: nat, choice: Choice)
    requires Inv(s) && t < |s.threads| && s.threads[t].Push?
    ensures Inv(ThreadStep(StateFirst, s, t, choice))
  {
    assert ThreadOk(s, t);
    var x, s' := s.threads[t].x, ThreadStep(StateFirst, s, t, choice);
    InvKnown(s, t, x);
    KeepSpan(s, t, x, s.threads[t].direct, s');
    SpanStepKeeps(s, s', t, x);
  }

  lemma KeepSpan(s: State, t: nat, x: SpanId, direct: bool, s': State)
    requires Known(s, t, x) && s.threads[t] == Push(s.g, x, direct) && x < |s.spans|
    requires s' == s.(aux := s.aux[x := s.aux[x].(owner := None)],
                      buffers := s.buffers[SweptIndex(s.g) := Swept(s) + multiset{x}],
                      threads := s.threads[t := Leave(Some(0), direct)])
    ensures GoodSpanStep(s, s', t, x)
  {
  }

  // ----- Allocation and collection

  lemma AllocateKeepsThreads(s: State, x: SpanId, pages: nat)
    requires Inv(s) && x < |s.spans| && s.spans[x].state.Free?
    ensures ThreadsOk(AllocateStep(s, x, pages))
  {
    var s' := AllocateStep(s, x, pages);
    assert SpanOk(s.g, s.threads, x, s.spans[x], s.aux[x], Unswept(s)[x], Swept(s)[x]);
    forall u | 0 <= u < |s'.threads|
      ensures ThreadOk(s', u)
    {
      assert ThreadOk(s, u);
    }
  }

  lemma AllocateKeepsSpans(s: State, x: SpanId, pages: nat)
    requires Inv(s) && x < |s.spans| && s.spans[x].state.Free?
    ensures SpansOk(AllocateStep(s, x, pages))
  {
    var s' := AllocateStep(s, x, pages);
    forall y | 0 <= y < |s'.spans|
      ensures SpanOk(s'.g, s'.threads, y, s'.spans[y], s'.aux[y], Unswept(s')[y], Swept(s')[y])
    {
      assert SpanOk(s.g, s.threads, y, s.spans[y], s.aux[y], Unswept(s)[y], Swept(s)[y]);
    }
  }

  lemma AllocateKeeps(s: State, x: SpanId, pages: nat)
    requires Inv(s)
    ensures Inv(AllocateStep(s, x, pages))
  {
    if x < |s.spans| && s.spans[x].state.Free? {
      AllocateKeepsThreads(s, x, pages);
      AllocateKeepsSpans(s, x, pages);
      AllocateKeepsCounts(s, x, pages);
    }
  }

  lemma AllocateKeepsCounts(s: State, x: SpanId, pages: nat)
    requires Inv(s) && x < |s.spans| && s.spans[x].state.Free?
    ensures StacksOk(AllocateStep(s, x, pages)) && CountsOk(AllocateStep(s, x, pages))
  {
    TotalUpdate(PagesOf, s.spans, x, Span(InUse, s.g, pages));
    AllocateKeepsStacks(s, x, pages);
  }

  lemma AllocateKeepsStacks(s: State, x: SpanId, pages: nat)
    requires Sized(s) && StacksOk(s) && x < |s.spans| && s.spans[x].state.Free?
    ensures StacksOk(AllocateStep(s, x, pages))
  {
    var s' := AllocateStep(s, x, pages);
    forall y | y in Unswept(s') || y in Swept(s')
      ensures y < |s'.spans|
    {
      if y != x { assert y in Unswept(s) || y in Swept(s); }
    }
  }

  lemma NobodyCounted(threads: seq<PC>, t: nat)
    requires CountedThreads(threads) == 0 && t < |threads|
    ensures !Counted(threads[t])
  {
    ThreadUpdate(threads, t, Idle);
  }

  /** When the sweep is done and no sweeper is left, every span in use has been swept and sits on the
      swept stack, and nothing else sits on either stack. */
  lemma QuiescentSpans(s: State, x: SpanId)
    requires Inv(s) && s.done && s.sweepers == 0 && x < |s.spans|
    ensures s.aux[x].holder.None? && s.aux[x].owner.None?
    ensures s.spans[x].state.InUse? ==> s.spans[x].generation == s.g && Swept(s)[x] == 1
    ensures s.spans[x].state.Free? ==> Swept(s)[x] == 0
    ensures s.aux[x].sweeps == if s.aux[x].due then 1 else 0
  {
    assert SpanOk(s.g, s.threads, x, s.spans[x], s.aux[x], Unswept(s)[x], Swept(s)[x]);
    if s.aux[x].holder.Some? { NobodyCounted(s.threads, s.aux[x].holder.value); }
    if s.aux[x].owner.Some? { NobodyCounted(s.threads, s.aux[x].owner.value); }
  }

  lemma StacksTradeRoles(s: State)
    requires Sized(s)
    ensures Unswept(CollectStep(s)) == Swept(s) && Swept(CollectStep(s)) == Unswept(s)
  {
    RolesTrade(s.g);
  }

  lemma CollectKeepsThreads(s: State)
    requires Inv(s) && s.done && s.sweepers == 0
    ensures ThreadsOk(CollectStep(s))
  {
    forall u | 0 <= u < |s.threads|
      ensures ThreadOk(CollectStep(s), u)
    {
      assert ThreadOk(s, u);
      NobodyCounted(s.threads, u);
    }
  }

  lemma CollectKeepsSpans(s: State)
    requires Inv(s) && s.done && s.sweepers == 0
    ensures SpansOk(CollectStep(s))
  {
    var s' := CollectStep(s);
    StacksTradeRoles(s);
    forall y | 0 <= y < |s'.spans|
      ensures SpanOk(s'.g, s'.threads, y, s'.spans[y], s'.aux[y], Unswept(s')[y], Swept(s')[y])
    {
      QuiescentSpans(s, y);
    }
  }

  lemma CollectKeeps(s: State)
    requires Inv(s) && s.done && s.sweepers == 0
    ensures Inv(CollectStep(s))
  {
    StacksTradeRoles(s);
    CollectKeepsThreads(s);
    CollectKeepsSpans(s);
    TotalZero(SweptOf, CollectStep(s).aux);
  }

  lemma StepKeepsInv(s: State, a: Action)
    requires Inv(s)
    ensures Inv(Step(StateFirst, s, a))
  {
    match a {
      case Thread(t, choice) => if t < |s.threads| { ThreadStepKeepsInv(s, t, choice); }
      case Allocate(x, pages) => AllocateKeeps(s, x, pages);
      case Collect => if s.done && s.sweepers == 0 { CollectKeeps(s); }
    }
  }

  lemma ThreadStepKeepsInv(s: State, t: nat, choice: Choice)
    requires Inv(s) && t < |s.threads|
    ensures Inv(ThreadStep(StateFirst, s, t, choice))
  {
    assert ThreadOk(s, t);
    match s.threads[t] {
      case Idle => QuietStep(s, t, choice);
      case Enter => EnterStep(s, t, choice);
      case LoadGeneration => QuietStep(s, t, choice);
      case Pop(_) => PopStep(s, t, choice);
      case SetDone(_) => SetDoneStep(s, t, choice);
      case LoadFirst(_, _) => LoadFirstStep(s, t, choice);
      case LoadSpanGeneration(_, _, _) => JudgeStep(s, t, choice);
      case DirectLoadGeneration(_) => QuietStep(s, t, choice);
      case DirectCheck(_, _) => DirectCheckStep(s, t, choice);
      case Claim(_, _, _) => ClaimStep(s, t, choice);
      case Sweep(_, _, _) => SweepStep(s, t, choice);
      case Stamp(_, _, _) => StampStep(s, t, choice);
      case FreeSpan(_, _, _) => FreeSpanStep(s, t, choice);
      case Push(_, _, _) => PushStep(s, t, choice);
      case Leave(_, _) => LeaveStep(s, t, choice);
    }
  }
}
