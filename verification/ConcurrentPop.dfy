/** Any number of threads popping from one sweep buffer, with no push under way (sweep_buffer.rs,
    `pop`), one shared access at a time. */
module ConcurrentPop {
  import opened Options
  import opened BlockSizes
  import opened BufferMemory
  import opened Sums

  /** How `pop` tells that the buffer is empty from the cursor it drew.  The source compares an
      unsigned cursor with exactly 0; the intended test treats it as signed. */
  datatype CursorTest = Signed | Unsigned

  const WORD: int := 0x1_0000_0000_0000_0000

  datatype PC =
    | Idle
    | Undo                               // the buffer looked empty: put the cursor back
    | LoadSpine(slot: nat)
    | LoadBlock(slot: nat, spine: nat)
    | LoadSlot(slot: nat, block: nat)
    | ClearSlot(slot: nat, block: nat, value: Option<Span>)
    | Faulted(slot: nat)

  datatype State = State(mem: Memory, threads: seq<PC>)

  /** What a pop returns: nothing, or the span read from a slot. */
  datatype Output = Empty | Took(slot: nat, value: Option<Span>)

  function Goto(s: State, t: nat, pc: PC): State
    requires t < |s.threads|
  {
    s.(threads := s.threads[t := pc])
  }

  function LooksEmpty(test: CursorTest, cursor: int): bool {
    if test.Signed? then cursor <= 0 else cursor == 0
  }

  /** `fetch_add` on the cursor; unsigned arithmetic wraps around. */
  function Add(test: CursorTest, cursor: int, n: int): int {
    if test.Signed? then cursor + n else (cursor + n) % WORD
  }

  /** One step of thread `t`; a step that is not enabled changes nothing. */
  function Step(test: CursorTest, s: State, t: nat): State {
    if t >= |s.threads| then s else
    var m := s.mem;
    match s.threads[t]
    case Idle =>
      var s' := s.(mem := m.(index := Add(test, m.index, -1)));
      if LooksEmpty(test, m.index) then Goto(s', t, Undo)
      else if m.index > 0 then Goto(s', t, LoadSpine(m.index - 1))
      else s  // a negative cursor is not an unsigned value
    case Undo =>
      Goto(s.(mem := m.(index := Add(test, m.index, 1))), t, Idle)
    case LoadSpine(slot) =>
      Goto(s, t, if m.spines == [] then Faulted(slot) else LoadBlock(slot, |m.spines| - 1))
    case LoadBlock(slot, spine) =>
      Goto(s, t,
           if spine < |m.spines| && Top(slot) < |m.spines[spine]| && m.spines[spine][Top(slot)].Some?
           then LoadSlot(slot, m.spines[spine][Top(slot)].value)
           else Faulted(slot))
    case LoadSlot(slot, block) =>
      if block < |m.blocks| && |m.blocks[block]| == BLOCK_ENTRIES
      then Goto(s, t, ClearSlot(slot, block, m.blocks[block][slot % BLOCK_ENTRIES]))
      else Goto(s, t, Faulted(slot))
    case ClearSlot(slot, block, _) =>
      if block < |m.blocks| && |m.blocks[block]| == BLOCK_ENTRIES then
        var slots := m.blocks[block][slot % BLOCK_ENTRIES := None];
        Goto(s.(mem := m.(blocks := m.blocks[block := slots])), t, Idle)
      else Goto(s, t, Faulted(slot))
    case Faulted(_) => s
  }

  /** What a step returns from its pop, if it is the last of one. */
  function Returned(s: State, t: nat): seq<Output> {
    if t >= |s.threads| then []
    else match s.threads[t]
      case Undo => [Empty]
      case ClearSlot(slot, _, value) => [Took(slot, value)]
      case _ => []
  }

  function Run(test: CursorTest, s: State, schedule: seq<nat>): State
    decreases |schedule|
  {
    if schedule == [] then s else Run(test, Step(test, s, schedule[0]), schedule[1..])
  }

  function Outputs(test: CursorTest, s: State, schedule: seq<nat>): seq<Output>
    decreases |schedule|
  {
    if schedule == [] then []
    else Returned(s, schedule[0]) + Outputs(test, Step(test, s, schedule[0]), schedule[1..])
  }

  function Start(m: Memory, n: nat): State {
    State(m, seq(n, _ => Idle))
  }

  // ----- What every reachable state keeps, with the signed test

  predicate Claims(pc: PC) {
    !pc.Idle? && !pc.Undo?
  }

  function UndoOf(pc: PC): nat {
    if pc.Undo? then 1 else 0
  }

  function CountUndo(threads: seq<PC>): nat {
    Total(UndoOf, threads)
  }

  lemma CountUndoUpdate(threads: seq<PC>, t: nat, pc: PC)
    requires t < |threads|
    ensures CountUndo(threads[t := pc])
         == CountUndo(threads) - (if threads[t].Undo? then 1 else 0) + (if pc.Undo? then 1 else 0)
    ensures threads[t].Undo? ==> CountUndo(threads) > 0
  {
    TotalUpdate(UndoOf, threads, t, pc);
  }

  ghost predicate ThreadOk(m: Memory, contents: seq<Span>, free: nat, pc: PC) {
    Claims(pc) ==>
      && free <= pc.slot < |contents|
      && Holds(m, pc.slot, contents[pc.slot])
      && match pc
         case LoadBlock(_, spine) => spine < |m.spines| && spine == |m.spines| - 1
         case LoadSlot(slot, block) => block == Top(slot)
         case ClearSlot(slot, block, value) => block == Top(slot) && value == Some(contents[slot])
         case Faulted(_) => false
         case _ => true
  }

  ghost predicate ThreadsOk(s: State, contents: seq<Span>, free: nat) {
    forall t :: 0 <= t < |s.threads| ==> ThreadOk(s.mem, contents, free, s.threads[t])
  }

  ghost predicate ClaimsDistinct(s: State) {
    forall t, u :: 0 <= t < u < |s.threads| && Claims(s.threads[t]) && Claims(s.threads[u]) ==>
      s.threads[t].slot != s.threads[u].slot
  }

  ghost predicate Claimed(s: State, slot: nat) {
    exists t :: 0 <= t < |s.threads| && Claims(s.threads[t]) && s.threads[t].slot == slot
  }

  ghost predicate Taken(outs: seq<Output>, slot: nat) {
    exists i :: 0 <= i < |outs| && outs[i].Took? && outs[i].slot == slot
  }

  /** Every output is right: a span comes from a claimed slot and is what that slot held; each slot is
      returned at most once and never while another thread claims it; nothing is returned as empty
      before every slot is claimed. */
  ghost predicate OutputsOk(s: State, contents: seq<Span>, free: nat, outs: seq<Output>) {
    && (forall i :: 0 <= i < |outs| && outs[i].Took? ==>
         && free <= outs[i].slot < |contents|
         && outs[i].value == Some(contents[outs[i].slot])
         && !Claimed(s, outs[i].slot))
    && (forall i, j :: 0 <= i < j < |outs| && outs[i].Took? && outs[j].Took? ==> outs[i].slot != outs[j].slot)
    && (forall i :: 0 <= i < |outs| && outs[i].Empty? ==> free == 0)
  }

  /** Slots below `free` are unclaimed and untouched; each of the others is claimed, or returned and
      cleared. */
  ghost predicate SlotsOk(s: State, contents: seq<Span>, free: nat, outs: seq<Output>) {
    && free <= |contents|
    && (forall i :: 0 <= i < free ==> Holds(s.mem, i, contents[i]))
    && (forall i :: free <= i < |contents| ==> Claimed(s, i) || (Taken(outs, i) && Cleared(s.mem, i)))
  }

  ghost predicate MemoryOk(m: Memory) {
    && m.spineLength == |m.blocks| <= |Current(m)| == m.cap && SpinesAgree(m) && OldSpinesFull(m) && BlocksSized(m)
    && SpareSlotsEmpty(m, m.spineLength)
  }

  /** `free` is the number of unclaimed slots. */
  ghost predicate Inv(s: State, contents: seq<Span>, free: nat, outs: seq<Output>) {
    && free <= |contents|
    && s.mem.index == free - CountUndo(s.threads)
    && (CountUndo(s.threads) > 0 ==> free == 0)
    && MemoryOk(s.mem)
    && ThreadsOk(s, contents, free)
    && ClaimsDistinct(s)
    && OutputsOk(s, contents, free, outs)
    && SlotsOk(s, contents, free, outs)
  }

  /** The unclaimed slots left after one more step. */
  function FreeAfter(s: State, t: nat, free: nat): nat {
    if t < |s.threads| && s.threads[t].Idle? && free > 0 then free - 1 else free
  }

  // ----- Every step keeps the invariant

  /** A step that moves a claiming thread on without changing memory. */
  lemma ReadStep(s: State, contents: seq<Span>, free: nat, outs: seq<Output>, t: nat)
    requires Inv(s, contents, free, outs) && t < |s.threads|
    requires s.threads[t].LoadSpine? || s.threads[t].LoadBlock? || s.threads[t].LoadSlot?
    ensures Inv(Step(Signed, s, t), contents, free, outs)
  {
    var s' := Step(Signed, s, t);
    var pc := s.threads[t];
    assert ThreadOk(s.mem, contents, free, pc);
    if pc.LoadBlock? {
      assert s.mem.spines[pc.spine][Top(pc.slot)] == Some(Top(pc.slot));
    }
    CountUndoUpdate(s.threads, t, s'.threads[t]);
    SameClaims(s, s', t);
  }

  lemma SameClaims(s: State, s': State, t: nat)
    requires t < |s.threads| == |s'.threads| && s'.threads == s.threads[t := s'.threads[t]]
    requires Claims(s.threads[t]) == Claims(s'.threads[t])
    requires Claims(s.threads[t]) ==> s.threads[t].slot == s'.threads[t].slot
    ensures forall i: nat :: Claimed(s', i) == Claimed(s, i)
  {
    forall i: nat
      ensures Claimed(s', i) == Claimed(s, i)
    {
      if Claimed(s, i) {
        var u :| 0 <= u < |s.threads| && Claims(s.threads[u]) && s.threads[u].slot == i;
        assert Claims(s'.threads[u]) && s'.threads[u].slot == i;
      }
      if Claimed(s', i) {
        var u :| 0 <= u < |s'.threads| && Claims(s'.threads[u]) && s'.threads[u].slot == i;
        assert Claims(s.threads[u]) && s.threads[u].slot == i;
      }
    }
  }

  /** A pop that finds no slot to claim. */
  lemma MissStep(s: State, contents: seq<Span>, free: nat, outs: seq<Output>, t: nat)
    requires Inv(s, contents, free, outs) && t < |s.threads| && s.threads[t].Idle? && s.mem.index <= 0
    ensures Inv(Step(Signed, s, t), contents, free, outs) && free == 0
  {
    var s' := Step(Signed, s, t);
    CountUndoUpdate(s.threads, t, Undo);
    SameClaims(s, s', t);
  }

  lemma UndoStep(s: State, contents: seq<Span>, free: nat, outs: seq<Output>, t: nat)
    requires Inv(s, contents, free, outs) && t < |s.threads| && s.threads[t].Undo?
    ensures Inv(Step(Signed, s, t), contents, free, outs + [Empty])
  {
    var s' := Step(Signed, s, t);
    CountUndoUpdate(s.threads, t, Idle);
    SameClaims(s, s', t);
    MoreOutputs(outs, Empty);
  }

  lemma MoreOutputs(outs: seq<Output>, o: Output)
    ensures forall i: nat :: Taken(outs + [o], i) <==> Taken(outs, i) || (o.Took? && o.slot == i)
  {
    forall i: nat
      ensures Taken(outs + [o], i) <==> Taken(outs, i) || (o.Took? && o.slot == i)
    {
      if Taken(outs, i) {
        var k :| 0 <= k < |outs| && outs[k].Took? && outs[k].slot == i;
        assert (outs + [o])[k].Took? && (outs + [o])[k].slot == i;
      }
      if o.Took? && o.slot == i {
        assert (outs + [o])[|outs|].Took?;
      }
    }
  }

  /** A pop claims the topmost unclaimed slot. */
  lemma ClaimStep(s: State, contents: seq<Span>, free: nat, outs: seq<Output>, t: nat)
    requires Inv(s, contents, free, outs) && t < |s.threads| && s.threads[t].Idle? && s.mem.index > 0
    ensures free > 0 && Inv(Step(Signed, s, t), contents, free - 1, outs)
  {
    var s' := Step(Signed, s, t);
    CountUndoUpdate(s.threads, t, LoadSpine(free - 1));
    forall u | 0 <= u < |s'.threads|
      ensures ThreadOk(s'.mem, contents, free - 1, s'.threads[u])
    {
      assert ThreadOk(s.mem, contents, free, s.threads[u]);
    }
    OneMoreClaim(s, s', t, free - 1);
  }

  lemma OneMoreClaim(s: State, s': State, t: nat, slot: nat)
    requires t < |s.threads| && !Claims(s.threads[t]) && s'.threads == s.threads[t := LoadSpine(slot)]
    ensures forall i: nat :: Claimed(s', i) <==> Claimed(s, i) || i == slot
  {
    forall i: nat
      ensures Claimed(s', i) <==> Claimed(s, i) || i == slot
    {
      if Claimed(s, i) {
        var u :| 0 <= u < |s.threads| && Claims(s.threads[u]) && s.threads[u].slot == i;
        assert Claims(s'.threads[u]) && s'.threads[u].slot == i;
      }
      if Claimed(s', i) {
        var u :| 0 <= u < |s'.threads| && Claims(s'.threads[u]) && s'.threads[u].slot == i;
        assert u != t ==> Claims(s.threads[u]);
      }
      if i == slot {
        assert Claims(s'.threads[t]);
      }
    }
  }

  lemma OneClaimLess(s: State, s': State, t: nat)
    requires t < |s.threads| && Claims(s.threads[t]) && s'.threads == s.threads[t := Idle] && ClaimsDistinct(s)
    ensures forall i: nat :: Claimed(s', i) <==> Claimed(s, i) && i != s.threads[t].slot
  {
    forall i: nat
      ensures Claimed(s', i) <==> Claimed(s, i) && i != s.threads[t].slot
    {
      if Claimed(s, i) && i != s.threads[t].slot {
        var u :| 0 <= u < |s.threads| && Claims(s.threads[u]) && s.threads[u].slot == i;
        assert Claims(s'.threads[u]) && s'.threads[u].slot == i;
      }
      if Claimed(s', i) {
        var u :| 0 <= u < |s'.threads| && Claims(s'.threads[u]) && s'.threads[u].slot == i;
        assert u != t && Claims(s.threads[u]) && s.threads[u].slot == i;
      }
    }
  }

  /** Clearing one slot leaves every other slot as it was. */
  lemma ClearHolds(m: Memory, block: nat, c: nat, m': Memory)
    requires BlocksSized(m) && block < |m.blocks| && block == Top(c)
    requires m' == m.(blocks := m.blocks[block := m.blocks[block][c % BLOCK_ENTRIES := None]])
    ensures BlocksSized(m')
    ensures forall d: nat, w :: d != c && Holds(m, d, w) ==> Holds(m', d, w)
    ensures Cleared(m', c) && forall d: nat :: Cleared(m, d) ==> Cleared(m', d)
  {
  }

  /** A pop ends: its slot is cleared and its span returned. */
  lemma ClearStep(s: State, contents: seq<Span>, free: nat, outs: seq<Output>, t: nat)
    requires Inv(s, contents, free, outs) && t < |s.threads| && s.threads[t].ClearSlot?
    ensures Inv(Step(Signed, s, t), contents, free, outs + Returned(s, t))
  {
    var s' := Step(Signed, s, t);
    var pc := s.threads[t];
    assert ThreadOk(s.mem, contents, free, pc);
    assert Claimed(s, pc.slot);
    ClearHolds(s.mem, pc.block, pc.slot, s'.mem);
    CountUndoUpdate(s.threads, t, Idle);
    OneClaimLess(s, s', t);
    MoreOutputs(outs, Took(pc.slot, pc.value));
    ClearKeepsThreads(s, s', contents, free, t);
  }

  lemma ClearKeepsThreads(s: State, s': State, contents: seq<Span>, free: nat, t: nat)
    requires ThreadsOk(s, contents, free) && ClaimsDistinct(s) && t < |s.threads| && Claims(s.threads[t])
    requires s'.threads == s.threads[t := Idle] && s'.mem == s.mem.(blocks := s'.mem.blocks)
    requires |s'.mem.blocks| == |s.mem.blocks|
    requires forall d: nat, w :: d != s.threads[t].slot && Holds(s.mem, d, w) ==> Holds(s'.mem, d, w)
    ensures ThreadsOk(s', contents, free)
  {
    forall u | 0 <= u < |s'.threads|
      ensures ThreadOk(s'.mem, contents, free, s'.threads[u])
    {
      assert ThreadOk(s.mem, contents, free, s.threads[u]);
    }
  }

  lemma StepKeepsInv(s: State, contents: seq<Span>, free: nat, outs: seq<Output>, t: nat)
    requires Inv(s, contents, free, outs)
    ensures Inv(Step(Signed, s, t), contents, FreeAfter(s, t, free), outs + Returned(s, t))
  {
    if t < |s.threads| {
      assert ThreadOk(s.mem, contents, free, s.threads[t]);
      assert Returned(s, t) == [] ==> outs + Returned(s, t) == outs;
      match s.threads[t] {
        case Idle =>
          if s.mem.index <= 0 { MissStep(s, contents, free, outs, t); } else { ClaimStep(s, contents, free, outs, t); }
        case Undo => UndoStep(s, contents, free, outs, t);
        case LoadSpine(_) => ReadStep(s, contents, free, outs, t);
        case LoadBlock(_, _) => ReadStep(s, contents, free, outs, t);
        case LoadSlot(_, _) => ReadStep(s, contents, free, outs, t);
        case ClearSlot(_, _, _) => ClearStep(s, contents, free, outs, t);
      }
    } else {
      assert outs + Returned(s, t) == outs;
    }
  }

  // ----- Whole runs

  /** How many slots stay unclaimed over a run. */
  function Unclaimed(s: State, schedule: seq<nat>, free: nat): nat
    decreases |schedule|
  {
    if schedule == [] then free
    else Unclaimed(Step(Signed, s, schedule[0]), schedule[1..], FreeAfter(s, schedule[0], free))
  }

  lemma {:induction false} RunKeepsInv(s: State, contents: seq<Span>, free: nat, outs: seq<Output>, schedule: seq<nat>)
    requires Inv(s, contents, free, outs)
    ensures Inv(Run(Signed, s, schedule), contents, Unclaimed(s, schedule, free), outs + Outputs(Signed, s, schedule))
    ensures Unclaimed(s, schedule, free) <= free
    decreases |schedule|
  {
    if schedule == [] {
      assert outs + Outputs(Signed, s, schedule) == outs;
    } else {
      var t, rest := schedule[0], schedule[1..];
      StepKeepsInv(s, contents, free, outs, t);
      var s' := Step(Signed, s, t);
      RunKeepsInv(s', contents, FreeAfter(s, t, free), outs + Returned(s, t), rest);
      ConcatAssociative(outs, Returned(s, t), Outputs(Signed, s', rest));
    }
  }

  lemma StartInv(m: Memory, contents: seq<Span>, n: nat)
    requires Quiescent(m, contents)
    ensures Inv(Start(m, n), contents, |contents|, [])
  {
    TotalZero(UndoOf, Start(m, n).threads);
  }

  ghost predicate NoFault(s: State) {
    forall t :: 0 <= t < |s.threads| ==> !s.threads[t].Faulted?
  }

  ghost predicate AllIdle(s: State) {
    forall t :: 0 <= t < |s.threads| ==> s.threads[t].Idle?
  }

  /** Each slot is returned by at most one pop, which returns exactly the span that was in it. */
  ghost predicate EachSlotOnce(outs: seq<Output>, contents: seq<Span>) {
    && (forall i :: 0 <= i < |outs| && outs[i].Took? ==>
         outs[i].slot < |contents| && outs[i].value == Some(contents[outs[i].slot]))
    && (forall i, j :: 0 <= i < j < |outs| && outs[i].Took? && outs[j].Took? ==> outs[i].slot != outs[j].slot)
  }

  /** In every interleaving of any number of pops: no pop faults, each slot is returned at most once,
      with the span it held, and a pop returns empty-handed only after every slot has been claimed. */
  lemma PopsClaimSlotsOnce(m: Memory, contents: seq<Span>, n: nat, schedule: seq<nat>)
    requires Quiescent(m, contents)
    ensures NoFault(Run(Signed, Start(m, n), schedule))
    ensures EachSlotOnce(Outputs(Signed, Start(m, n), schedule), contents)
    ensures Empty in Outputs(Signed, Start(m, n), schedule) ==>
      forall i :: 0 <= i < |contents| ==>
        Claimed(Run(Signed, Start(m, n), schedule), i) || Taken(Outputs(Signed, Start(m, n), schedule), i)
  {
    StartInv(m, contents, n);
    RunKeepsInv(Start(m, n), contents, |contents|, [], schedule);
    var s := Run(Signed, Start(m, n), schedule);
    var outs := Outputs(Signed, Start(m, n), schedule);
    var free := Unclaimed(Start(m, n), schedule, |contents|);
    assert [] + outs == outs;
    forall t | 0 <= t < |s.threads|
      ensures !s.threads[t].Faulted?
    {
      assert ThreadOk(s.mem, contents, free, s.threads[t]);
    }
  }

  /** Once all pops have finished, the cursor is the number of spans left: the buffer is quiescent and
      holds the oldest ones, and every other slot was returned by exactly one pop, which cleared it. */
  lemma PopsLeaveTheRest(m: Memory, contents: seq<Span>, n: nat, schedule: seq<nat>)
    requires Quiescent(m, contents) && AllIdle(Run(Signed, Start(m, n), schedule))
    ensures var s := Run(Signed, Start(m, n), schedule);
      && 0 <= s.mem.index <= |contents|
      && Quiescent(s.mem, contents[..s.mem.index])
      && (forall i :: 0 <= i < |contents| ==>
           (Taken(Outputs(Signed, Start(m, n), schedule), i) <==> i >= s.mem.index))
      && (forall i :: s.mem.index <= i < |contents| ==> Cleared(s.mem, i))
  {
    StartInv(m, contents, n);
    RunKeepsInv(Start(m, n), contents, |contents|, [], schedule);
    var s := Run(Signed, Start(m, n), schedule);
    var outs := Outputs(Signed, Start(m, n), schedule);
    assert [] + outs == outs;
    TotalZero(UndoOf, s.threads);
    forall i | 0 <= i < |contents|
      ensures Taken(outs, i) <==> i >= s.mem.index
      ensures i >= s.mem.index ==> Cleared(s.mem, i)
    {
      assert !Claimed(s, i);
    }
  }

  // ----- Nothing is lost or duplicated

  function TakenSpans(outs: seq<Output>): multiset<Span> {
    if outs == [] then multiset{}
    else
      TakenSpans(outs[..|outs| - 1]) + SpansOf(outs[|outs| - 1])
  }

  function SpansOf(o: Output): multiset<Span> {
    if o.Took? && o.value.Some? then multiset{o.value.value} else multiset{}
  }

  lemma TakenSpansSnoc(xs: seq<Output>, o: Output)
    ensures TakenSpans(xs + [o]) == TakenSpans(xs) + SpansOf(o)
  {
    assert (xs + [o])[..|xs|] == xs;
  }

  lemma AddAssociative(a: multiset<Span>, b: multiset<Span>, c: multiset<Span>)
    ensures (a + b) + c == a + (b + c)
  {
  }

  lemma {:induction false} TakenSpansAppend(xs: seq<Output>, ys: seq<Output>)
    ensures TakenSpans(xs + ys) == TakenSpans(xs) + TakenSpans(ys)
    decreases |ys|
  {
    if ys == [] {
      assert xs + ys == xs;
    } else {
      var init, o := ys[..|ys| - 1], ys[|ys| - 1];
      assert xs + ys == (xs + init) + [o] && ys == init + [o];
      TakenSpansAppend(xs, init);
      TakenSpansSnoc(xs + init, o);
      TakenSpansSnoc(init, o);
      AddAssociative(TakenSpans(xs), TakenSpans(init), SpansOf(o));
    }
  }

  lemma TakenSpansAround(front: seq<Output>, o: Output, back: seq<Output>)
    ensures TakenSpans((front + [o]) + back) == SpansOf(o) + TakenSpans(front + back)
  {
    TakenSpansAppend(front + [o], back);
    TakenSpansSnoc(front, o);
    TakenSpansAppend(front, back);
    MoveFirst(TakenSpans(front), SpansOf(o), TakenSpans(back));
  }

  lemma SplitAt(outs: seq<Output>, k: nat)
    requires k < |outs|
    ensures outs == (outs[..k] + [outs[k]]) + outs[k + 1..]
  {
  }

  lemma MoveFirst(a: multiset<Span>, b: multiset<Span>, c: multiset<Span>)
    ensures (a + b) + c == b + (a + c)
  {
  }

  lemma {:induction false} NothingTaken(outs: seq<Output>)
    requires forall i :: 0 <= i < |outs| ==> !outs[i].Took?
    ensures TakenSpans(outs) == multiset{}
  {
    if outs != [] {
      NothingTaken(outs[..|outs| - 1]);
    }
  }

  /** If the outputs take each slot from `low` up exactly once, they hold exactly those spans. */
  lemma {:induction false} SlotsToSpans(outs: seq<Output>, contents: seq<Span>, low: nat)
    requires low <= |contents| && EachSlotOnce(outs, contents)
    requires forall i :: 0 <= i < |contents| ==> (Taken(outs, i) <==> i >= low)
    ensures TakenSpans(outs) == multiset(contents[low..])
    decreases |contents| - low
  {
    if low == |contents| {
      forall k | 0 <= k < |outs|
        ensures !outs[k].Took?
      {
        if outs[k].Took? {
          assert Taken(outs, outs[k].slot);
        }
      }
      NothingTaken(outs);
    } else {
      assert Taken(outs, low);
      var k :| 0 <= k < |outs| && outs[k].Took? && outs[k].slot == low;
      var rest := outs[..k] + outs[k + 1..];
      SplitAt(outs, k);
      TakenSpansAround(outs[..k], outs[k], outs[k + 1..]);
      RestTaken(outs, k, rest, contents);
      SlotsToSpans(rest, contents, low + 1);
      FirstOfRest(contents, low);
    }
  }

  lemma FirstOfRest(contents: seq<Span>, low: nat)
    requires low < |contents|
    ensures multiset(contents[low..]) == multiset{contents[low]} + multiset(contents[low + 1..])
  {
    assert contents[low..] == [contents[low]] + contents[low + 1..];
  }

  lemma RestTaken(outs: seq<Output>, k: nat, rest: seq<Output>, contents: seq<Span>)
    requires k < |outs| && outs[k].Took? && rest == outs[..k] + outs[k + 1..] && EachSlotOnce(outs, contents)
    ensures EachSlotOnce(rest, contents)
    ensures forall i: nat :: Taken(rest, i) <==> Taken(outs, i) && i != outs[k].slot
  {
    forall i: nat
      ensures Taken(rest, i) <==> Taken(outs, i) && i != outs[k].slot
    {
      if Taken(rest, i) {
        var j :| 0 <= j < |rest| && rest[j].Took? && rest[j].slot == i;
        assert rest[j] == outs[if j < k then j else j + 1];
      }
      if Taken(outs, i) && i != outs[k].slot {
        var j :| 0 <= j < |outs| && outs[j].Took? && outs[j].slot == i;
        assert rest[if j < k then j else j - 1] == outs[j];
      }
    }
  }

  /** Once all pops have finished, what they returned and what is left make up what there was. */
  lemma PopsConserve(m: Memory, contents: seq<Span>, n: nat, schedule: seq<nat>)
    requires Quiescent(m, contents) && AllIdle(Run(Signed, Start(m, n), schedule))
    ensures var left := Run(Signed, Start(m, n), schedule).mem.index;
      && 0 <= left <= |contents|
      && TakenSpans(Outputs(Signed, Start(m, n), schedule)) + multiset(contents[..left]) == multiset(contents)
  {
    PopsClaimSlotsOnce(m, contents, n, schedule);
    PopsLeaveTheRest(m, contents, n, schedule);
    SplitSpans(Outputs(Signed, Start(m, n), schedule), contents, Run(Signed, Start(m, n), schedule).mem.index);
  }

  lemma SplitSpans(outs: seq<Output>, contents: seq<Span>, left: nat)
    requires left <= |contents| && EachSlotOnce(outs, contents)
    requires forall i :: 0 <= i < |contents| ==> (Taken(outs, i) <==> i >= left)
    ensures TakenSpans(outs) + multiset(contents[..left]) == multiset(contents)
  {
    SlotsToSpans(outs, contents, left);
    assert contents == contents[..left] + contents[left..];
  }

  // ----- The unsigned test is safe exactly when pops do not overlap

  /** An unsigned cursor that wrapped below 0 reads as -1. */
  function AsSigned(s: State): State {
    s.(mem := s.mem.(index := if s.mem.index == WORD - 1 then -1 else s.mem.index))
  }

  function InFlightOf(pc: PC): nat {
    if pc.Idle? then 0 else 1
  }

  function PopsInFlight(threads: seq<PC>): nat {
    Total(InFlightOf, threads)
  }

  /** In every state of the run at most `k` pops are in flight. */
  ghost predicate AtMostInFlight(k: nat, s: State, schedule: seq<nat>)
    decreases |schedule|
  {
    && PopsInFlight(s.threads) <= k
    && (schedule != [] ==> AtMostInFlight(k, Step(Unsigned, s, schedule[0]), schedule[1..]))
  }

  lemma {:induction false} UndosInFlight(threads: seq<PC>)
    ensures CountUndo(threads) <= PopsInFlight(threads) <= |threads|
  {
    if threads != [] {
      UndosInFlight(threads[..|threads| - 1]);
    }
  }

  /** What a pop that is alone in flight sees: the cursor is below 0 only while it is put back. */
  lemma AloneInFlight(s: State, contents: seq<Span>, free: nat, outs: seq<Output>, t: nat, pc: PC)
    requires Inv(s, contents, free, outs) && t < |s.threads|
    requires PopsInFlight(s.threads) <= 1 && PopsInFlight(s.threads[t := pc]) <= 1
    ensures -1 <= s.mem.index <= |contents|
    ensures s.threads[t].Undo? ==> s.mem.index == -1
    ensures s.threads[t].Idle? && !pc.Idle? ==> s.mem.index >= 0
  {
    UndosInFlight(s.threads);
    CountUndoUpdate(s.threads, t, Idle);
    TotalUpdate(InFlightOf, s.threads, t, pc);
  }

  lemma UnsignedStep(s: State, contents: seq<Span>, free: nat, outs: seq<Output>, t: nat)
    requires Inv(AsSigned(s), contents, free, outs) && |contents| < WORD - 1 && 0 <= s.mem.index < WORD
    requires PopsInFlight(s.threads) <= 1 && PopsInFlight(Step(Unsigned, s, t).threads) <= 1
    ensures AsSigned(Step(Unsigned, s, t)) == Step(Signed, AsSigned(s), t)
    ensures 0 <= Step(Unsigned, s, t).mem.index < WORD
  {
    if t < |s.threads| {
      var pc := Step(Unsigned, s, t).threads[t];
      assert Step(Unsigned, s, t).threads == s.threads[t := pc];
      AloneInFlight(AsSigned(s), contents, free, outs, t, pc);
      SameStep(s, t, |contents|);
    }
  }

  lemma SameStep(s: State, t: nat, n: nat)
    requires t < |s.threads| && n < WORD - 1 && 0 <= s.mem.index < WORD && -1 <= AsSigned(s).mem.index <= n
    requires s.threads[t].Undo? ==> AsSigned(s).mem.index == -1
    requires s.threads[t].Idle? ==> AsSigned(s).mem.index >= 0
    ensures AsSigned(Step(Unsigned, s, t)) == Step(Signed, AsSigned(s), t)
    ensures 0 <= Step(Unsigned, s, t).mem.index < WORD
  {
    match s.threads[t]
    case Idle =>
    case Undo =>
    case LoadSpine(_) =>
    case LoadBlock(_, _) =>
    case LoadSlot(_, _) =>
    case ClearSlot(_, _, _) =>
    case Faulted(_) =>
  }

  lemma {:induction false} UnsignedRun(s: State, contents: seq<Span>, free: nat, outs: seq<Output>, schedule: seq<nat>)
    requires Inv(AsSigned(s), contents, free, outs) && |contents| < WORD - 1 && 0 <= s.mem.index < WORD
    requires AtMostInFlight(1, s, schedule)
    ensures AsSigned(Run(Unsigned, s, schedule)) == Run(Signed, AsSigned(s), schedule)
    decreases |schedule|
  {
    if schedule != [] {
      var t := schedule[0];
      UnsignedStep(s, contents, free, outs, t);
      StepKeepsInv(AsSigned(s), contents, free, outs, t);
      UnsignedRun(Step(Unsigned, s, t), contents, FreeAfter(AsSigned(s), t, free),
                  outs + Returned(AsSigned(s), t), schedule[1..]);
    }
  }

  /** Two threads popping an empty buffer: the second draws the wrapped cursor and reads a slot that
      does not exist. */
  lemma UnsignedFault(n: nat)
    requires n >= 2
    ensures !NoFault(Run(Unsigned, Start(EMPTY, n), [0, 1, 1]))
  {
    var s1 := Step(Unsigned, Start(EMPTY, n), 0);
    assert s1.threads[0] == Undo && s1.mem.index == WORD - 1;
    var s2 := Step(Unsigned, s1, 1);
    var s3 := Step(Unsigned, s2, 1);
    assert s3.threads[1].Faulted?;
    var schedule := [0, 1, 1];
    assert schedule[1..] == [1, 1] && [1, 1][1..] == [1] && [1][1..] == [];
    assert Run(Unsigned, Start(EMPTY, n), schedule) == Run(Unsigned, s1, [1, 1]) == Run(Unsigned, s2, [1])
      == Run(Unsigned, s3, []);
  }

  lemma {:induction false} AtMostThreads(k: nat, s: State, schedule: seq<nat>)
    requires |s.threads| <= k
    ensures AtMostInFlight(k, s, schedule)
    decreases |schedule|
  {
    UndosInFlight(s.threads);
    if schedule != [] {
      StepThreads(s, schedule[0]);
      AtMostThreads(k, Step(Unsigned, s, schedule[0]), schedule[1..]);
    }
  }

  lemma StepThreads(s: State, t: nat)
    ensures |Step(Unsigned, s, t).threads| == |s.threads|
  {
  }

  lemma {:induction false} AtMostMore(j: nat, k: nat, s: State, schedule: seq<nat>)
    requires AtMostInFlight(j, s, schedule) && j <= k
    ensures AtMostInFlight(k, s, schedule)
    decreases |schedule|
  {
    if schedule != [] {
      AtMostMore(j, k, Step(Unsigned, s, schedule[0]), schedule[1..]);
    }
  }

  /** `pop` as written, comparing an unsigned cursor with exactly 0, is safe with up to `k` pops in flight, for
      every buffer, every number of threads and every interleaving, exactly when `k` is at most 1. */
  lemma UnsignedSafeExactlyAlone(k: nat)
    ensures (forall m, contents, n, schedule
               | Quiescent(m, contents) && |contents| < WORD - 1 && AtMostInFlight(k, Start(m, n), schedule)
               :: NoFault(Run(Unsigned, Start(m, n), schedule)))
      <==> k <= 1
  {
    if k <= 1 {
      forall m, contents, n: nat, schedule
        | Quiescent(m, contents) && |contents| < WORD - 1 && AtMostInFlight(k, Start(m, n), schedule)
        ensures NoFault(Run(Unsigned, Start(m, n), schedule))
      {
        AtMostMore(k, 1, Start(m, n), schedule);
        StartInv(m, contents, n);
        UnsignedRun(Start(m, n), contents, |contents|, [], schedule);
        PopsClaimSlotsOnce(m, contents, n, schedule);
      }
    } else {
      UnsignedFault(2);
      EmptyQuiescent();
      AtMostThreads(k, Start(EMPTY, 2), [0, 1, 1]);
    }
  }
}
