/** Any number of threads pushing onto one sweep buffer (sweep_buffer.rs, `push`), one shared access
    at a time.  Every thread runs one push after another; a schedule names the thread that takes the
    next step.  What is proved holds while at most 512 pushes are in flight, however many threads there
    are; `PushLimit` shows that the limit is exact. */
module ConcurrentPush {
  import opened Options
  import opened BlockSizes
  import opened BufferMemory
  import opened FiniteSets
  import opened Sums

  /** Where a thread is in `push`: the name says what the next step does. */
  datatype PC =
    | Idle
    | ReadLength(span: Span, cursor: nat)
    | GetSpine(span: Span, cursor: nat)
    | GetBlock(span: Span, cursor: nat, spine: nat)
    | Acquire(span: Span, cursor: nat)
    | Reread(span: Span, cursor: nat)
    | Retry(span: Span, cursor: nat)
    | CheckCap(span: Span, cursor: nat, length: nat)
    | CopySpine(span: Span, cursor: nat)
    | PublishSpine(span: Span, cursor: nat, copy: Spine)
    | SetCap(span: Span, cursor: nat, newCap: nat)
    | MakeBlock(span: Span, cursor: nat)
    | StoreBlock(span: Span, cursor: nat, block: nat)
    | PublishLength(span: Span, cursor: nat, block: nat)
    | Release(span: Span, cursor: nat, block: nat)
    | Write(span: Span, cursor: nat, block: nat)
    | Faulted(span: Span, cursor: nat)  // a null or out-of-bounds spine slot

  datatype State = State(mem: Memory, lock: Option<nat>, threads: seq<PC>)

  /** What a step may choose: the span to push next, and what a new block holds at first. */
  datatype Choice = Choice(span: Span, garbage: seq<Option<Span>>)

  datatype Action = Action(thread: nat, choice: Choice)

  function Goto(s: State, t: nat, pc: PC): State
    requires t < |s.threads|
  {
    s.(threads := s.threads[t := pc])
  }

  /** A longer spine with the same slots. */
  function Enlarged(spine: Spine, cap: nat): Spine
    requires |spine| <= cap
  {
    spine + seq(cap - |spine|, _ => None)
  }

  /** One step of thread `t`; a step that is not enabled changes nothing. */
  function Step(s: State, a: Action): State {
    var t := a.thread;
    if t >= |s.threads| then s else
    var m := s.mem;
    match s.threads[t]
    case Idle =>
      if m.index < 0 then s
      else Goto(s.(mem := m.(index := m.index + 1)), t, ReadLength(a.choice.span, m.index))
    case ReadLength(span, cursor) =>
      Goto(s, t, if Top(cursor) < m.spineLength then GetSpine(span, cursor) else Acquire(span, cursor))
    case GetSpine(span, cursor) =>
      Goto(s, t, if m.spines == [] then Faulted(span, cursor) else GetBlock(span, cursor, |m.spines| - 1))
    case GetBlock(span, cursor, spine) =>
      Goto(s, t,
           if spine < |m.spines| && Top(cursor) < |m.spines[spine]| && m.spines[spine][Top(cursor)].Some?
           then Write(span, cursor, m.spines[spine][Top(cursor)].value)
           else Faulted(span, cursor))
    case Acquire(span, cursor) =>
      if s.lock.Some? then s else Goto(s.(lock := Some(t)), t, Reread(span, cursor))
    case Reread(span, cursor) =>
      Goto(s, t, if Top(cursor) < m.spineLength then Retry(span, cursor) else CheckCap(span, cursor, m.spineLength))
    case Retry(span, cursor) =>
      Goto(s.(lock := None), t, GetSpine(span, cursor))
    case CheckCap(span, cursor, length) =>
      Goto(s, t, if length == m.cap then CopySpine(span, cursor) else MakeBlock(span, cursor))
    case CopySpine(span, cursor) =>
      var newCap := NewCap(m.cap);
      Goto(s, t,
           if |Current(m)| <= newCap then PublishSpine(span, cursor, Enlarged(Current(m), newCap))
           else Faulted(span, cursor))
    case PublishSpine(span, cursor, copy) =>
      Goto(s.(mem := m.(spines := m.spines + [copy])), t, SetCap(span, cursor, |copy|))
    case SetCap(span, cursor, newCap) =>
      Goto(s.(mem := m.(cap := newCap)), t, MakeBlock(span, cursor))
    case MakeBlock(span, cursor) =>
      if |a.choice.garbage| != BLOCK_ENTRIES then s
      else Goto(s.(mem := m.(blocks := m.blocks + [a.choice.garbage])), t, StoreBlock(span, cursor, |m.blocks|))
    case StoreBlock(span, cursor, block) =>
      if Top(cursor) < |Current(m)| then
        var current := |m.spines| - 1;
        Goto(s.(mem := m.(spines := m.spines[current := m.spines[current][Top(cursor) := Some(block)]])), t,
             PublishLength(span, cursor, block))
      else
        Goto(s, t, Faulted(span, cursor))
    case PublishLength(span, cursor, block) =>
      Goto(s.(mem := m.(spineLength := m.spineLength + 1)), t, Release(span, cursor, block))
    case Release(span, cursor, block) =>
      Goto(s.(lock := None), t, Write(span, cursor, block))
    case Write(span, cursor, block) =>
      if block < |m.blocks| && |m.blocks[block]| == BLOCK_ENTRIES then
        var slots := m.blocks[block][cursor % BLOCK_ENTRIES := Some(span)];
        Goto(s.(mem := m.(blocks := m.blocks[block := slots])), t, Idle)
      else
        Goto(s, t, Faulted(span, cursor))
    case Faulted(_, _) => s
  }

  function Run(s: State, schedule: seq<Action>): State
    decreases |schedule|
  {
    if schedule == [] then s else Run(Step(s, schedule[0]), schedule[1..])
  }

  function Start(m: Memory, n: nat): State {
    State(m, None, seq(n, _ => Idle))
  }

  /** The span whose push begins with this step, if one does. */
  function Logged(s: State, a: Action): seq<Span> {
    if a.thread < |s.threads| && s.threads[a.thread].Idle? && s.mem.index >= 0 then [a.choice.span] else []
  }

  /** The spans whose push begins during a run, in the order of their cursors. */
  function Begun(s: State, schedule: seq<Action>): seq<Span>
    decreases |schedule|
  {
    if schedule == [] then [] else Logged(s, schedule[0]) + Begun(Step(s, schedule[0]), schedule[1..])
  }

  /** A step of thread `t` whose choices do not matter. */
  function Act(t: nat): Action {
    Action(t, Choice(0, seq(BLOCK_ENTRIES, _ => None)))
  }

  lemma {:induction false} RunAppend(s: State, xs: seq<Action>, ys: seq<Action>)
    ensures Run(s, xs + ys) == Run(Run(s, xs), ys)
    decreases |xs|
  {
    if xs == [] {
      assert xs + ys == ys;
    } else {
      assert (xs + ys)[0] == xs[0] && (xs + ys)[1..] == xs[1..] + ys;
      RunAppend(Step(s, xs[0]), xs[1..], ys);
    }
  }

  // ----- What every reachable state keeps
  //
  // `log` is the history of the cursor: entry `c` is the span whose push drew cursor `c`, and below
  // the starting cursor it is what the buffer already held.

  predicate InFlight(pc: PC) {
    !pc.Idle?
  }

  /** The states between acquiring and releasing the lock. */
  predicate HoldsLock(pc: PC) {
    pc.Reread? || pc.Retry? || pc.CheckCap? || pc.CopySpine? || pc.PublishSpine? || pc.SetCap?
    || pc.MakeBlock? || pc.StoreBlock? || pc.PublishLength? || pc.Release?
  }

  ghost predicate LockExact(s: State) {
    && (s.lock.Some? ==> s.lock.value < |s.threads|)
    && forall t :: 0 <= t < |s.threads| ==> (HoldsLock(s.threads[t]) <==> s.lock == Some(t))
  }

  /** What one thread knows about memory. */
  ghost predicate ThreadOk(m: Memory, log: seq<Span>, pc: PC) {
    InFlight(pc) ==>
      && pc.cursor < |log| && log[pc.cursor] == pc.span
      && var top := Top(pc.cursor);
      match pc
      case GetSpine(_, _) => top < m.spineLength
      case GetBlock(_, _, spine) => top < m.spineLength && spine < |m.spines| && top < |m.spines[spine]|
      case Retry(_, _) => top < m.spineLength
      case CheckCap(_, _, length) => top == m.spineLength == length
      case CopySpine(_, _) => top == m.spineLength == m.cap
      case PublishSpine(_, _, copy) =>
        && top == m.spineLength == m.cap < |copy|
        && (forall j :: 0 <= j < m.spineLength ==> copy[j] == Some(j))
        && (forall j :: m.spineLength <= j < |copy| ==> copy[j] == None)
      case SetCap(_, _, newCap) => top == m.spineLength < newCap == |Current(m)|
      case MakeBlock(_, _) => top == m.spineLength < m.cap
      case StoreBlock(_, _, block) => top == m.spineLength == block < m.cap
      case PublishLength(_, _, block) =>
        top == m.spineLength == block < m.cap && block < |Current(m)| && Current(m)[block] == Some(block)
      case Release(_, _, block) => top == block < m.spineLength
      case Write(_, _, block) => top == block < m.spineLength
      case Faulted(_, _) => false
      case _ => true
  }

  ghost predicate ThreadsOk(s: State, log: seq<Span>) {
    forall t :: 0 <= t < |s.threads| ==> ThreadOk(s.mem, log, s.threads[t])
  }

  /** The thread holding the lock, or `Idle`. */
  function Holder(s: State): PC {
    if s.lock.Some? && s.lock.value < |s.threads| then s.threads[s.lock.value] else Idle
  }

  /** The published length, the capacity and the current spine cover exactly the blocks that exist,
      but for the block or the spine the lock holder is about to announce. */
  ghost predicate MemoryOk(s: State) {
    var m := s.mem;
    var h := Holder(s);
    && SpinesAgree(m)
    && OldSpinesFull(m)
    && BlocksSized(m)
    && SpareSlotsEmpty(m, m.spineLength + if h.PublishLength? then 1 else 0)
    && |m.blocks| == m.spineLength + (if h.StoreBlock? || h.PublishLength? then 1 else 0)
    && m.spineLength <= m.cap
    && (if h.SetCap? then m.cap < |Current(m)| else m.cap == |Current(m)|)
  }

  ghost predicate CursorsDistinct(s: State) {
    forall t, u :: 0 <= t < u < |s.threads| && InFlight(s.threads[t]) && InFlight(s.threads[u]) ==>
      s.threads[t].cursor != s.threads[u].cursor
  }

  ghost predicate Pending(s: State, c: nat) {
    exists t :: 0 <= t < |s.threads| && InFlight(s.threads[t]) && s.threads[t].cursor == c
  }

  /** Every cursor ever drawn is either still in the hands of its push or written. */
  ghost predicate Accounted(s: State, log: seq<Span>) {
    forall c :: 0 <= c < |log| ==> Pending(s, c) || Holds(s.mem, c, log[c])
  }

  ghost predicate Inv(s: State, log: seq<Span>) {
    && s.mem.index == |log|
    && LockExact(s)
    && MemoryOk(s)
    && ThreadsOk(s, log)
    && CursorsDistinct(s)
    && Accounted(s, log)
  }

  // ----- The pigeonhole: block `spineLength` is always the next one missing

  ghost function CursorSet(threads: seq<PC>): set<nat> {
    set t: nat | t < |threads| && InFlight(threads[t]) :: threads[t].cursor
  }

  function InFlightOf(pc: PC): nat {
    if InFlight(pc) then 1 else 0
  }

  function PushesInFlight(threads: seq<PC>): nat {
    Total(InFlightOf, threads)
  }

  lemma {:induction false} CursorSetSize(threads: seq<PC>)
    ensures |CursorSet(threads)| <= PushesInFlight(threads) <= |threads|
  {
    if threads != [] {
      var last := |threads| - 1;
      var rest := threads[..last];
      CursorSetSize(rest);
      assert CursorSet(threads) ==
        if InFlight(threads[last]) then CursorSet(rest) + {threads[last].cursor} else CursorSet(rest);
    }
  }

  lemma LaterBlock(mine: nat, k: nat)
    requires Top(mine) > k
    ensures BLOCK_ENTRIES * k + BLOCK_ENTRIES <= mine
    ensures forall c: nat :: BLOCK_ENTRIES * k <= c ==> Top(c) >= k
  {
  }

  lemma UnwrittenInFlight(s: State, log: seq<Span>, c: nat)
    requires Accounted(s, log) && c < |log| && Top(c) >= s.mem.spineLength
    ensures c in CursorSet(s.threads)
  {
    assert !Holds(s.mem, c, log[c]);
    assert Pending(s, c);
  }

  /** With at most 512 pushes in flight, a push that finds its block missing finds it to be the next one: were
      an earlier block missing too, its 512 cursors would all be in flight besides this push. */
  lemma MissingBlockIsNext(s: State, log: seq<Span>, t: nat)
    requires Inv(s, log) && PushesInFlight(s.threads) <= BLOCK_ENTRIES
    requires t < |s.threads| && InFlight(s.threads[t]) && Top(s.threads[t].cursor) >= s.mem.spineLength
    ensures Top(s.threads[t].cursor) == s.mem.spineLength
  {
    assert ThreadOk(s.mem, log, s.threads[t]);
    if Top(s.threads[t].cursor) != s.mem.spineLength {
      TooManyInFlight(s, log, t);
    }
  }

  lemma TooManyInFlight(s: State, log: seq<Span>, t: nat)
    requires Accounted(s, log) && t < |s.threads| && InFlight(s.threads[t])
    requires s.threads[t].cursor < |log| && Top(s.threads[t].cursor) > s.mem.spineLength
    ensures PushesInFlight(s.threads) > BLOCK_ENTRIES
  {
    var first, mine := BLOCK_ENTRIES * s.mem.spineLength, s.threads[t].cursor;
    var missing := Range(first, first + BLOCK_ENTRIES);
    LaterBlock(mine, s.mem.spineLength);
    forall c | c in missing
      ensures c in CursorSet(s.threads)
    {
      UnwrittenInFlight(s, log, c);
    }
    assert mine in CursorSet(s.threads) && mine !in missing;
    SubsetSize(missing + {mine}, CursorSet(s.threads));
    CursorSetSize(s.threads);
  }

  // ----- Every step keeps the invariant

  /** Memory as it may change while a push is under way: nothing published is taken back. */
  ghost predicate Grows(m: Memory, m': Memory) {
    && m.index <= m'.index
    && m.spineLength <= m'.spineLength
    && m.cap <= m'.cap
    && |m.spines| <= |m'.spines|
    && (forall k :: 0 <= k < |m.spines| ==> |m.spines[k]| == |m'.spines[k]|)
    && m.blocks <= m'.blocks
  }

  /** A step of a push under way, neither its first nor its last. */
  ghost predicate Internal(s: State, s': State, t: nat) {
    && t < |s.threads| == |s'.threads|
    && InFlight(s.threads[t]) && InFlight(s'.threads[t])
    && s'.threads == s.threads[t := s'.threads[t]]
    && s'.threads[t].cursor == s.threads[t].cursor
    && s'.threads[t].span == s.threads[t].span
    && s.mem.index == s'.mem.index
    && Grows(s.mem, s'.mem)
    && (HoldsLock(s.threads[t]) || s.mem == s'.mem)
  }

  lemma InternalKeepsHistory(s: State, s': State, log: seq<Span>, t: nat)
    requires Inv(s, log) && Internal(s, s', t)
    ensures CursorsDistinct(s') && Accounted(s', log)
  {
    forall c | 0 <= c < |log|
      ensures Pending(s', c) || Holds(s'.mem, c, log[c])
    {
      if Pending(s, c) {
        var u :| 0 <= u < |s.threads| && InFlight(s.threads[u]) && s.threads[u].cursor == c;
        assert InFlight(s'.threads[u]) && s'.threads[u].cursor == c;
      }
    }
  }

  lemma InternalKeepsThreads(s: State, s': State, log: seq<Span>, t: nat)
    requires Inv(s, log) && Internal(s, s', t) && ThreadOk(s'.mem, log, s'.threads[t])
    ensures ThreadsOk(s', log)
  {
    forall u | 0 <= u < |s'.threads|
      ensures ThreadOk(s'.mem, log, s'.threads[u])
    {
      if u != t {
        assert ThreadOk(s.mem, log, s.threads[u]);
      }
    }
  }

  /** A step that neither takes, gives up nor uses the lock keeps the invariant if its thread goes on
      rightly. */
  lemma QuietKeeps(s: State, log: seq<Span>, t: nat, pc: PC)
    requires Inv(s, log) && t < |s.threads|
    requires InFlight(s.threads[t]) && !HoldsLock(s.threads[t]) && InFlight(pc) && !HoldsLock(pc)
    requires pc.cursor == s.threads[t].cursor && pc.span == s.threads[t].span
    requires ThreadOk(s.mem, log, pc)
    ensures Inv(Goto(s, t, pc), log)
  {
    var s' := Goto(s, t, pc);
    InternalKeepsHistory(s, s', log, t);
    InternalKeepsThreads(s, s', log, t);
    UnlockedKeepsLock(s, t, pc);
  }

  lemma UnlockedKeepsLock(s: State, t: nat, pc: PC)
    requires LockExact(s) && MemoryOk(s) && t < |s.threads| && !HoldsLock(s.threads[t]) && !HoldsLock(pc)
    ensures LockExact(Goto(s, t, pc)) && MemoryOk(Goto(s, t, pc))
  {
  }

  lemma ReadLengthStep(s: State, log: seq<Span>, a: Action)
    requires Inv(s, log) && a.thread < |s.threads| && s.threads[a.thread].ReadLength?
    ensures Inv(Step(s, a), log)
  {
    assert ThreadOk(s.mem, log, s.threads[a.thread]);
    QuietKeeps(s, log, a.thread, Step(s, a).threads[a.thread]);
  }

  lemma GetSpineStep(s: State, log: seq<Span>, a: Action)
    requires Inv(s, log) && a.thread < |s.threads| && s.threads[a.thread].GetSpine?
    ensures Inv(Step(s, a), log)
  {
    assert ThreadOk(s.mem, log, s.threads[a.thread]);
    QuietKeeps(s, log, a.thread, Step(s, a).threads[a.thread]);
  }

  lemma GetBlockStep(s: State, log: seq<Span>, a: Action)
    requires Inv(s, log) && a.thread < |s.threads| && s.threads[a.thread].GetBlock?
    ensures Inv(Step(s, a), log)
  {
    var pc := s.threads[a.thread];
    assert ThreadOk(s.mem, log, pc);
    assert s.mem.spines[pc.spine][Top(pc.cursor)] == Some(Top(pc.cursor));
    QuietKeeps(s, log, a.thread, Step(s, a).threads[a.thread]);
  }

  /** What the step of a thread that takes or holds the lock is given. */
  ghost predicate LockedGiven(s: State, log: seq<Span>, t: nat) {
    && LockExact(s) && MemoryOk(s) && t < |s.threads| && ThreadOk(s.mem, log, s.threads[t])
    && (s.threads[t].Reread? ==> Top(s.threads[t].cursor) <= s.mem.spineLength)
  }

  /** What it leaves, as far as the thread itself is concerned. */
  ghost predicate ThreadLeft(s: State, log: seq<Span>, t: nat, s': State) {
    Internal(s, s', t) && ThreadOk(s'.mem, log, s'.threads[t])
  }

  /** Steps in which the lock is taken, given up, or only the cursor compared. */
  lemma LockThread(s: State, log: seq<Span>, a: Action)
    requires LockedGiven(s, log, a.thread)
    requires var pc := s.threads[a.thread]; pc.Acquire? || pc.Reread? || pc.Retry? || pc.Release?
    ensures ThreadLeft(s, log, a.thread, Step(s, a))
  {
    match s.threads[a.thread]
    case Acquire(_, _) =>
    case Reread(_, _) =>
    case Retry(_, _) =>
    case Release(_, _, _) =>
  }

  lemma LockMemory(s: State, log: seq<Span>, a: Action)
    requires LockedGiven(s, log, a.thread)
    requires var pc := s.threads[a.thread]; pc.Acquire? || pc.Reread? || pc.Retry? || pc.Release?
    requires Internal(s, Step(s, a), a.thread)
    ensures LockExact(Step(s, a)) && MemoryOk(Step(s, a))
  {
    match s.threads[a.thread]
    case Acquire(_, _) =>
    case Reread(_, _) =>
    case Retry(_, _) =>
    case Release(_, _, _) =>
  }

  /** Steps in which the spine is replaced. */
  lemma SpineThread(s: State, log: seq<Span>, a: Action)
    requires LockedGiven(s, log, a.thread)
    requires var pc := s.threads[a.thread]; pc.CheckCap? || pc.CopySpine? || pc.PublishSpine? || pc.SetCap?
    ensures ThreadLeft(s, log, a.thread, Step(s, a))
  {
    match s.threads[a.thread]
    case CheckCap(_, _, _) =>
    case CopySpine(_, _) =>
    case PublishSpine(_, _, _) =>
    case SetCap(_, _, _) =>
  }

  lemma SpineMemory(s: State, log: seq<Span>, a: Action)
    requires LockedGiven(s, log, a.thread)
    requires var pc := s.threads[a.thread]; pc.CheckCap? || pc.CopySpine? || pc.PublishSpine? || pc.SetCap?
    requires Internal(s, Step(s, a), a.thread)
    ensures LockExact(Step(s, a)) && MemoryOk(Step(s, a))
  {
    match s.threads[a.thread]
    case CheckCap(_, _, _) =>
    case CopySpine(_, _) =>
    case PublishSpine(_, _, _) =>
    case SetCap(_, _, _) =>
  }

  /** Steps in which a block is made and announced. */
  lemma BlockThread(s: State, log: seq<Span>, a: Action)
    requires LockedGiven(s, log, a.thread)
    requires var pc := s.threads[a.thread]; pc.MakeBlock? || pc.StoreBlock? || pc.PublishLength?
    ensures ThreadLeft(s, log, a.thread, Step(s, a))
  {
    match s.threads[a.thread]
    case MakeBlock(_, _) =>
    case StoreBlock(_, _, _) =>
    case PublishLength(_, _, _) =>
  }

  lemma StoreMemory(s: State, log: seq<Span>, a: Action)
    requires LockedGiven(s, log, a.thread) && s.threads[a.thread].StoreBlock?
    requires Internal(s, Step(s, a), a.thread)
    ensures LockExact(Step(s, a)) && MemoryOk(Step(s, a))
  {
  }

  lemma BlockMemory(s: State, log: seq<Span>, a: Action)
    requires LockedGiven(s, log, a.thread)
    requires var pc := s.threads[a.thread]; pc.MakeBlock? || pc.StoreBlock? || pc.PublishLength?
    requires Internal(s, Step(s, a), a.thread)
    ensures LockExact(Step(s, a)) && MemoryOk(Step(s, a))
  {
    match s.threads[a.thread]
    case MakeBlock(_, _) =>
    case StoreBlock(_, _, _) => StoreMemory(s, log, a);
    case PublishLength(_, _, _) =>
  }

  lemma LockedStep(s: State, log: seq<Span>, a: Action)
    requires Inv(s, log) && PushesInFlight(s.threads) <= BLOCK_ENTRIES
    requires a.thread < |s.threads| && (s.threads[a.thread].Acquire? || HoldsLock(s.threads[a.thread]))
    ensures Inv(Step(s, a), log)
  {
    assert ThreadOk(s.mem, log, s.threads[a.thread]);
    if s.threads[a.thread].Reread? && Top(s.threads[a.thread].cursor) > s.mem.spineLength {
      MissingBlockIsNext(s, log, a.thread);
    }
    var pc := s.threads[a.thread];
    if pc.Acquire? || pc.Reread? || pc.Retry? || pc.Release? {
      LockThread(s, log, a);
      LockMemory(s, log, a);
    } else if pc.MakeBlock? || pc.StoreBlock? || pc.PublishLength? {
      BlockThread(s, log, a);
      BlockMemory(s, log, a);
    } else {
      SpineThread(s, log, a);
      SpineMemory(s, log, a);
    }
    InternalKeepsHistory(s, Step(s, a), log, a.thread);
    InternalKeepsThreads(s, Step(s, a), log, a.thread);
  }

  /** A push begins: its cursor is new, and its span enters the history. */
  lemma BeginStep(s: State, log: seq<Span>, a: Action)
    requires Inv(s, log) && a.thread < |s.threads| && s.threads[a.thread].Idle?
    ensures Inv(Step(s, a), log + [a.choice.span])
  {
    BeginTo(s, log, a.thread, a.choice.span, Step(s, a));
  }

  lemma BeginTo(s: State, log: seq<Span>, t: nat, span: Span, s': State)
    requires Inv(s, log) && t < |s.threads| && s.threads[t].Idle?
    requires s' == s.(mem := s.mem.(index := s.mem.index + 1), threads := s.threads[t := ReadLength(span, |log|)])
    ensures Inv(s', log + [span])
  {
    BeginKeepsAccounts(s, s', log, t, span);
    BeginKeepsThreads(s, s', log, t, span);
    UnlockedKeepsLock(s, t, ReadLength(span, |log|));
    IndexKeepsLock(s'.(mem := s.mem), s');
  }

  lemma IndexKeepsLock(s: State, s': State)
    requires LockExact(s) && MemoryOk(s) && s' == s.(mem := s.mem.(index := s'.mem.index))
    ensures LockExact(s') && MemoryOk(s')
  {
  }

  lemma BeginKeepsThreads(s: State, s': State, log: seq<Span>, t: nat, span: Span)
    requires ThreadsOk(s, log) && t < |s.threads|
    requires s'.threads == s.threads[t := ReadLength(span, |log|)] && s'.mem == s.mem.(index := s'.mem.index)
    ensures ThreadsOk(s', log + [span])
  {
    forall u | 0 <= u < |s'.threads|
      ensures ThreadOk(s'.mem, log + [span], s'.threads[u])
    {
      assert ThreadOk(s.mem, log, s.threads[u]);
    }
  }

  lemma BeginKeepsAccounts(s: State, s': State, log: seq<Span>, t: nat, span: Span)
    requires Inv(s, log) && t < |s.threads| && s.threads[t].Idle?
    requires s'.threads == s.threads[t := ReadLength(span, |log|)] && s'.mem == s.mem.(index := s'.mem.index)
    ensures CursorsDistinct(s') && Accounted(s', log + [span])
  {
    assert forall u :: 0 <= u < |s.threads| && InFlight(s.threads[u]) ==> ThreadOk(s.mem, log, s.threads[u]);
    var log' := log + [span];
    forall c | 0 <= c < |log'|
      ensures Pending(s', c) || Holds(s'.mem, c, log'[c])
    {
      if c == |log| {
        assert InFlight(s'.threads[t]) && s'.threads[t].cursor == c;
      } else if Pending(s, c) {
        var u :| 0 <= u < |s.threads| && InFlight(s.threads[u]) && s.threads[u].cursor == c;
        assert InFlight(s'.threads[u]) && s'.threads[u].cursor == c;
      }
    }
  }

  /** Writing one slot leaves every other slot as it was. */
  lemma WriteHolds(m: Memory, block: nat, c: nat, v: Span, m': Memory)
    requires BlocksSized(m) && block < |m.blocks| && block == Top(c) < m.spineLength
    requires m' == m.(blocks := m.blocks[block := m.blocks[block][c % BLOCK_ENTRIES := Some(v)]])
    ensures Holds(m', c, v) && BlocksSized(m')
    ensures forall d: nat, w :: d != c && Holds(m, d, w) ==> Holds(m', d, w)
  {
  }

  /** A push ends: its cursor is written, and no other slot has changed. */
  lemma WriteStep(s: State, log: seq<Span>, a: Action)
    requires Inv(s, log) && a.thread < |s.threads| && s.threads[a.thread].Write?
    ensures Inv(Step(s, a), log)
  {
    var pc := s.threads[a.thread];
    assert ThreadOk(s.mem, log, pc);
    WriteTo(s, log, a.thread, pc.span, pc.cursor, pc.block, Step(s, a));
  }

  lemma WriteTo(s: State, log: seq<Span>, t: nat, span: Span, c: nat, block: nat, s': State)
    requires Inv(s, log) && t < |s.threads| && s.threads[t] == Write(span, c, block)
    requires block < |s.mem.blocks| && |s.mem.blocks[block]| == BLOCK_ENTRIES
    requires s' == s.(mem := s.mem.(blocks := s.mem.blocks[block := s.mem.blocks[block][c % BLOCK_ENTRIES := Some(span)]]),
                      threads := s.threads[t := Idle])
    ensures Inv(s', log)
  {
    assert ThreadOk(s.mem, log, s.threads[t]);
    WriteHolds(s.mem, block, c, span, s'.mem);
    WriteKeepsThreads(s, s', log, t);
    WriteKeepsAccounts(s, s', log, t);
    UnlockedKeepsLock(s, t, Idle);
    BlocksKeepLock(s'.(mem := s.mem), s');
  }

  lemma BlocksKeepLock(s: State, s': State)
    requires LockExact(s) && MemoryOk(s) && BlocksSized(s'.mem)
    requires s' == s.(mem := s.mem.(blocks := s'.mem.blocks)) && |s'.mem.blocks| == |s.mem.blocks|
    ensures LockExact(s') && MemoryOk(s')
  {
  }

  lemma WriteKeepsThreads(s: State, s': State, log: seq<Span>, t: nat)
    requires ThreadsOk(s, log) && t < |s.threads|
    requires s'.threads == s.threads[t := Idle] && s'.mem == s.mem.(blocks := s'.mem.blocks)
    ensures ThreadsOk(s', log)
  {
    forall u | 0 <= u < |s'.threads|
      ensures ThreadOk(s'.mem, log, s'.threads[u])
    {
      assert ThreadOk(s.mem, log, s.threads[u]);
    }
  }

  lemma WriteKeepsAccounts(s: State, s': State, log: seq<Span>, t: nat)
    requires Inv(s, log) && t < |s.threads| && InFlight(s.threads[t]) && s'.threads == s.threads[t := Idle]
    requires s.threads[t].cursor < |log| && Holds(s'.mem, s.threads[t].cursor, log[s.threads[t].cursor])
    requires forall d: nat, w :: d != s.threads[t].cursor && Holds(s.mem, d, w) ==> Holds(s'.mem, d, w)
    ensures CursorsDistinct(s') && Accounted(s', log)
  {
    forall c | 0 <= c < |log|
      ensures Pending(s', c) || Holds(s'.mem, c, log[c])
    {
      if c != s.threads[t].cursor && Pending(s, c) {
        var u :| 0 <= u < |s.threads| && InFlight(s.threads[u]) && s.threads[u].cursor == c;
        assert u != t && InFlight(s'.threads[u]) && s'.threads[u].cursor == c;
      }
    }
  }

  lemma StepKeepsInv(s: State, log: seq<Span>, a: Action)
    requires Inv(s, log) && PushesInFlight(s.threads) <= BLOCK_ENTRIES
    ensures Inv(Step(s, a), log + Logged(s, a))
  {
    if a.thread < |s.threads| {
      var pc := s.threads[a.thread];
      assert ThreadOk(s.mem, log, pc);
      assert !pc.Idle? ==> log + Logged(s, a) == log;
      match pc {
        case Idle => BeginStep(s, log, a);
        case ReadLength(_, _) => ReadLengthStep(s, log, a);
        case GetSpine(_, _) => GetSpineStep(s, log, a);
        case GetBlock(_, _, _) => GetBlockStep(s, log, a);
        case Write(_, _, _) => WriteStep(s, log, a);
        case _ => LockedStep(s, log, a);
      }
    } else {
      assert log + Logged(s, a) == log;
    }
  }

  // ----- Whole runs

  /** In every state of the run at most `k` pushes are in flight. */
  ghost predicate AtMostInFlight(k: nat, s: State, schedule: seq<Action>)
    decreases |schedule|
  {
    && PushesInFlight(s.threads) <= k
    && (schedule != [] ==> AtMostInFlight(k, Step(s, schedule[0]), schedule[1..]))
  }

  lemma StepThreads(s: State, a: Action)
    ensures |Step(s, a).threads| == |s.threads|
  {
  }

  lemma {:induction false} AtMostThreads(s: State, schedule: seq<Action>)
    ensures AtMostInFlight(|s.threads|, s, schedule)
    decreases |schedule|
  {
    CursorSetSize(s.threads);
    if schedule != [] {
      StepThreads(s, schedule[0]);
      AtMostThreads(Step(s, schedule[0]), schedule[1..]);
    }
  }

  lemma {:induction false} AtMostMore(j: nat, k: nat, s: State, schedule: seq<Action>)
    requires AtMostInFlight(j, s, schedule) && j <= k
    ensures AtMostInFlight(k, s, schedule)
    decreases |schedule|
  {
    if schedule != [] {
      AtMostMore(j, k, Step(s, schedule[0]), schedule[1..]);
    }
  }

  lemma {:induction false} RunKeepsInv(s: State, log: seq<Span>, schedule: seq<Action>)
    requires Inv(s, log) && AtMostInFlight(BLOCK_ENTRIES, s, schedule)
    ensures Inv(Run(s, schedule), log + Begun(s, schedule))
    decreases |schedule|, 0
  {
    if schedule == [] {
      assert log + Begun(s, schedule) == log;
    } else {
      StepKeepsInv(s, log, schedule[0]);
      RunStep(Step(s, schedule[0]), log, Logged(s, schedule[0]), schedule[1..]);
    }
  }

  lemma RunStep(s: State, log: seq<Span>, logged: seq<Span>, rest: seq<Action>)
    requires Inv(s, log + logged) && AtMostInFlight(BLOCK_ENTRIES, s, rest)
    ensures Inv(Run(s, rest), log + (logged + Begun(s, rest)))
    decreases |rest|, 1
  {
    ConcatAssociative(log, logged, Begun(s, rest));
    RunKeepsInv(s, log + logged, rest);
  }

  lemma StartInv(m: Memory, contents: seq<Span>, n: nat)
    requires Quiescent(m, contents)
    ensures Inv(Start(m, n), contents)
  {
  }

  /** From `allocate_block` being entered to the new length being published. */
  predicate Allocating(pc: PC) {
    pc.CheckCap? || pc.CopySpine? || pc.PublishSpine? || pc.SetCap? || pc.MakeBlock? || pc.StoreBlock?
    || pc.PublishLength?
  }

  /** The published length counts the blocks that exist; a thread allocating one makes the next. */
  ghost predicate InOrder(s: State) {
    && SpinesAgree(s.mem)
    && s.mem.spineLength <= |s.mem.blocks| <= s.mem.spineLength + 1
    && s.mem.spineLength <= s.mem.cap <= |Current(s.mem)|
    && (forall t :: 0 <= t < |s.threads| && Allocating(s.threads[t]) ==>
         s.lock == Some(t) && Top(s.threads[t].cursor) == s.mem.spineLength)
    && ((forall t :: 0 <= t < |s.threads| ==> !Allocating(s.threads[t])) ==>
         s.mem.spineLength == |s.mem.blocks|)
  }

  ghost predicate NoFault(s: State) {
    forall t :: 0 <= t < |s.threads| ==> !s.threads[t].Faulted?
  }

  /** With at most 512 pushes in flight, in every interleaving: blocks are allocated in order and under
      the lock, every spine ever published agrees on the blocks it names, and no push meets an empty
      spine slot. */
  lemma BlocksAllocatedInOrder(m: Memory, contents: seq<Span>, n: nat, schedule: seq<Action>)
    requires Quiescent(m, contents) && AtMostInFlight(BLOCK_ENTRIES, Start(m, n), schedule)
    ensures InOrder(Run(Start(m, n), schedule)) && NoFault(Run(Start(m, n), schedule))
  {
    StartInv(m, contents, n);
    RunKeepsInv(Start(m, n), contents, schedule);
    InvInOrder(Run(Start(m, n), schedule), contents + Begun(Start(m, n), schedule));
  }

  lemma InvInOrder(s: State, log: seq<Span>)
    requires Inv(s, log)
    ensures InOrder(s) && NoFault(s)
  {
    forall t | 0 <= t < |s.threads|
      ensures !s.threads[t].Faulted?
      ensures Allocating(s.threads[t]) ==> s.lock == Some(t) && Top(s.threads[t].cursor) == s.mem.spineLength
    {
      assert ThreadOk(s.mem, log, s.threads[t]);
    }
  }

  ghost predicate AllIdle(s: State) {
    forall t :: 0 <= t < |s.threads| ==> s.threads[t].Idle?
  }

  /** Once all pushes have finished, the buffer is quiescent again and holds exactly what it held
      before, followed by every span pushed, each once, in the order the cursors were drawn. */
  lemma PushesLoseNothing(m: Memory, contents: seq<Span>, n: nat, schedule: seq<Action>)
    requires Quiescent(m, contents) && AtMostInFlight(BLOCK_ENTRIES, Start(m, n), schedule)
    requires AllIdle(Run(Start(m, n), schedule))
    ensures Quiescent(Run(Start(m, n), schedule).mem, contents + Begun(Start(m, n), schedule))
  {
    StartInv(m, contents, n);
    RunKeepsInv(Start(m, n), contents, schedule);
    var s := Run(Start(m, n), schedule);
    var log := contents + Begun(Start(m, n), schedule);
    forall c | 0 <= c < |log|
      ensures Holds(s.mem, c, log[c])
    {
      assert !Pending(s, c);
    }
  }
}
