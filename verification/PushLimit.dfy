/** 512 pushes in flight are safe and 513 are not: the limit that `push` relies on is exact, for every
    buffer it may start from. */
module PushLimit {
  import opened Options
  import opened BlockSizes
  import opened BufferMemory
  import opened ConcurrentPush

  lemma RunOne(s: State, xs: seq<Action>, a: Action)
    ensures Run(s, xs + [a]) == Step(Run(s, xs), a)
  {
    RunAppend(s, xs, [a]);
    assert Run(Run(s, xs), [a]) == Run(Step(Run(s, xs), a), []);
  }

  /** `k` steps of thread `t`. */
  function Acts(t: nat, k: nat): seq<Action> {
    if k == 0 then [] else Acts(t, k - 1) + [Act(t)]
  }

  function After(s: State, t: nat, k: nat): State {
    Run(s, Acts(t, k))
  }

  lemma NextAct(s: State, t: nat, k: nat, e: State)
    requires After(s, t, k) == e
    ensures After(s, t, k + 1) == Step(e, Act(t))
  {
    RunOne(s, Acts(t, k), Act(t));
  }

  lemma NoAct(s: State, t: nat)
    ensures After(s, t, 0) == s
  {
  }

  // ----- First the last block is filled

  /** The push draws its cursor and finds its block. */
  lemma FindBlock(m: Memory, contents: seq<Span>, n: nat) returns (s: State)
    requires Quiescent(m, contents) && n > 0 && |contents| < BLOCK_ENTRIES * m.spineLength
    ensures s == After(Start(m, n), 0, 4)
    ensures s == Start(m, n).(mem := m.(index := |contents| + 1), threads := s.threads)
    ensures s.threads == Start(m, n).threads[0 := Write(0, |contents|, Top(|contents|))]
  {
    var s0 := Start(m, n);
    var top := Top(|contents|);
    assert m.spines != [] && Current(m)[top] == Some(top);
    NoAct(s0, 0);
    NextAct(s0, 0, 0, s0);
    var s1 := Step(s0, Act(0));
    NextAct(s0, 0, 1, s1);
    var s2 := Step(s1, Act(0));
    NextAct(s0, 0, 2, s2);
    var s3 := Step(s2, Act(0));
    NextAct(s0, 0, 3, s3);
    s := Step(s3, Act(0));
  }

  /** One thread pushes into a block that is there. */
  lemma PushAlone(m: Memory, contents: seq<Span>, n: nat) returns (schedule: seq<Action>, m': Memory)
    requires Quiescent(m, contents) && n > 0 && |contents| < BLOCK_ENTRIES * m.spineLength
    ensures Run(Start(m, n), schedule) == Start(m', n)
    ensures Quiescent(m', contents + [0]) && m'.spineLength == m.spineLength
  {
    var s := FindBlock(m, contents, n);
    NextAct(Start(m, n), 0, 4, s);
    schedule := Acts(0, 5);
    m' := Step(s, Act(0)).mem;
    WriteAlone(m, contents, n, s);
  }

  lemma WriteAlone(m: Memory, contents: seq<Span>, n: nat, s: State)
    requires Quiescent(m, contents) && n > 0 && |contents| < BLOCK_ENTRIES * m.spineLength
    requires s == Start(m, n).(mem := m.(index := |contents| + 1),
                               threads := Start(m, n).threads[0 := Write(0, |contents|, Top(|contents|))])
    ensures var e := Step(s, Act(0));
      e == Start(e.mem, n) && Quiescent(e.mem, contents + [0]) && e.mem.spineLength == m.spineLength
  {
    var e := Step(s, Act(0));
    assert e.threads == Start(m, n).threads;
    WriteLast(m, contents, e.mem);
  }

  lemma WriteLast(m: Memory, contents: seq<Span>, m': Memory)
    requires Quiescent(m, contents) && |contents| < BLOCK_ENTRIES * m.spineLength
    requires var top := Top(|contents|);
      && top < |m.blocks|
      && m' == m.(index := |contents| + 1,
                  blocks := m.blocks[top := m.blocks[top][|contents| % BLOCK_ENTRIES := Some(0)]])
    ensures Quiescent(m', contents + [0])
  {
    WriteHolds(m.(index := |contents| + 1), Top(|contents|), |contents|, 0, m');
    forall i | 0 <= i < |contents|
      ensures Holds(m', i, contents[i])
    {
      assert Holds(m.(index := |contents| + 1), i, contents[i]);
    }
  }

  /** Pushes by one thread fill the blocks there are. */
  lemma FillBlocks(m: Memory, contents: seq<Span>, n: nat) returns (schedule: seq<Action>, m': Memory, full: seq<Span>)
    requires Quiescent(m, contents) && n > 0
    ensures Run(Start(m, n), schedule) == Start(m', n)
    ensures Quiescent(m', full) && |full| == BLOCK_ENTRIES * m'.spineLength
    decreases BLOCK_ENTRIES * m.spineLength - |contents|
  {
    CoveredByBlocks(m, contents);
    if |contents| == BLOCK_ENTRIES * m.spineLength {
      schedule, m', full := [], m, contents;
    } else {
      var first, m1 := PushAlone(m, contents, n);
      var rest;
      rest, m', full := FillBlocks(m1, contents + [0], n);
      RunAppend(Start(m, n), first, rest);
      schedule := first + rest;
    }
  }

  lemma CoveredByBlocks(m: Memory, contents: seq<Span>)
    requires Quiescent(m, contents)
    ensures |contents| <= BLOCK_ENTRIES * m.spineLength
  {
    if contents != [] {
      assert Holds(m, |contents| - 1, contents[|contents| - 1]);
    }
  }

  // ----- Then 513 threads draw cursors

  /** The state in which the first `k` threads have drawn a cursor. */
  ghost predicate Drawn(s: State, m: Memory, n: nat, k: nat) {
    && |s.threads| == n && k <= n && m.index >= 0
    && s.lock == None
    && s.mem == m.(index := m.index + k)
    && forall t :: 0 <= t < n ==> s.threads[t] == if t < k then ReadLength(0, m.index + t) else Idle
  }

  lemma {:induction false} DrawCursors(m: Memory, n: nat, k: nat) returns (schedule: seq<Action>)
    requires k <= n && m.index >= 0
    ensures Drawn(Run(Start(m, n), schedule), m, n, k)
  {
    if k == 0 {
      schedule := [];
    } else {
      var before := DrawCursors(m, n, k - 1);
      schedule := before + [Act(k - 1)];
      RunOne(Start(m, n), before, Act(k - 1));
      DrawOne(Run(Start(m, n), before), m, n, k - 1);
    }
  }

  lemma DrawOne(s: State, m: Memory, n: nat, k: nat)
    requires Drawn(s, m, n, k) && k < n
    ensures Drawn(Step(s, Act(k)), m, n, k + 1)
  {
    assert Step(s, Act(k)).threads == s.threads[k := ReadLength(0, m.index + k)];
  }

  // ----- The last of them makes its block first

  const LATE: nat := BLOCK_ENTRIES

  /** Nothing has moved since the cursors were drawn but thread 512, and it holds the lock. */
  ghost predicate LateWorks(s: State, m: Memory, n: nat, pc: PC) {
    && |s.threads| == n > LATE && s.threads[LATE] == pc && m.index >= 0 && s.threads[0] == ReadLength(0, m.index)
    && s.lock == Some(LATE) && s.mem.spineLength == m.spineLength
    && SpareSlotsEmpty(s.mem, m.spineLength)
  }

  /** Thread 512, whose slot is the first of the block after the missing one, gets the lock first. */
  lemma LateLocks(s: State, m: Memory, n: nat) returns (e: State)
    requires Drawn(s, m, n, LATE + 1) && m.index == BLOCK_ENTRIES * m.spineLength
    requires SpareSlotsEmpty(m, m.spineLength) && m.spineLength <= m.cap == |Current(m)|
    ensures e == After(s, LATE, 3) && e.mem == s.mem
    ensures LateWorks(e, m, n, CheckCap(0, m.index + LATE, m.spineLength))
  {
    NoAct(s, LATE);
    NextAct(s, LATE, 0, s);
    var s1 := Step(s, Act(LATE));
    assert s1.threads[LATE] == Acquire(0, m.index + LATE);
    NextAct(s, LATE, 1, s1);
    var s2 := Step(s1, Act(LATE));
    NextAct(s, LATE, 2, s2);
    e := Step(s2, Act(LATE));
  }

  /** It comes to make a block, having replaced the spine if that was full. */
  lemma LateHasRoom(s0: State, s: State, m: Memory, n: nat) returns (k: nat, e: State)
    requires s == After(s0, LATE, 3) && m.index >= 0 && m.spineLength <= m.cap == |Current(m)|
    requires LateWorks(s, m, n, CheckCap(0, m.index + LATE, m.spineLength))
    requires s.mem == m.(index := s.mem.index)
    ensures e == After(s0, LATE, k)
    ensures LateWorks(e, m, n, MakeBlock(0, m.index + LATE))
    ensures e.mem.spines != [] && |Current(e.mem)| > m.spineLength
  {
    NextAct(s0, LATE, 3, s);
    var s1 := Step(s, Act(LATE));
    if m.spineLength == m.cap {
      NextAct(s0, LATE, 4, s1);
      var s2 := Step(s1, Act(LATE));
      NextAct(s0, LATE, 5, s2);
      var s3 := Step(s2, Act(LATE));
      NextAct(s0, LATE, 6, s3);
      k, e := 7, Step(s3, Act(LATE));
      LateGrows(s, m, n, s1, s2, s3, e);
    } else {
      k, e := 4, s1;
    }
  }

  lemma LateGrows(s: State, m: Memory, n: nat, s1: State, s2: State, s3: State, e: State)
    requires m.index >= 0 && m.spineLength == m.cap == |Current(m)|
    requires LateWorks(s, m, n, CheckCap(0, m.index + LATE, m.spineLength))
    requires s.mem == m.(index := s.mem.index)
    requires s1 == Step(s, Act(LATE)) && s2 == Step(s1, Act(LATE)) && s3 == Step(s2, Act(LATE)) && e == Step(s3, Act(LATE))
    ensures LateWorks(e, m, n, MakeBlock(0, m.index + LATE))
    ensures e.mem.spines != [] && |Current(e.mem)| > m.spineLength
  {
    assert s1.threads[LATE] == CopySpine(0, m.index + LATE);
    assert s2.threads[LATE] == PublishSpine(0, m.index + LATE, Enlarged(Current(m), NewCap(m.cap)));
    assert s3.mem.spines == m.spines + [Enlarged(Current(m), NewCap(m.cap))];
  }

  /** It stores its block, and announces a length that covers the missing one; or finds no slot for it. */
  lemma LateAnnounces(s0: State, k: nat, s: State, m: Memory, n: nat) returns (k': nat, e: State)
    requires s == After(s0, LATE, k) && m.index == BLOCK_ENTRIES * m.spineLength
    requires LateWorks(s, m, n, MakeBlock(0, m.index + LATE))
    requires s.mem.spines != [] && |Current(s.mem)| > m.spineLength
    ensures e == After(s0, LATE, k')
    ensures !NoFault(e) || Misleading(e, m, n)
  {
    NextAct(s0, LATE, k, s);
    var s1 := Step(s, Act(LATE));
    NextAct(s0, LATE, k + 1, s1);
    var s2 := Step(s1, Act(LATE));
    NextAct(s0, LATE, k + 2, s2);
    var s3 := Step(s2, Act(LATE));
    StoreLate(s, m, n, s1, s2, s3);
    if NoFault(s2) {
      k', e := k + 3, s3;
    } else {
      k', e := k + 2, s2;
    }
  }

  lemma StoreLate(s: State, m: Memory, n: nat, s1: State, s2: State, s3: State)
    requires m.index == BLOCK_ENTRIES * m.spineLength
    requires LateWorks(s, m, n, MakeBlock(0, m.index + LATE))
    requires s.mem.spines != [] && |Current(s.mem)| > m.spineLength
    requires s1 == Step(s, Act(LATE)) && s2 == Step(s1, Act(LATE)) && s3 == Step(s2, Act(LATE))
    ensures !NoFault(s2) || Misleading(s3, m, n)
  {
    assert Top(m.index + LATE) == m.spineLength + 1;
    assert s1.threads[LATE] == StoreBlock(0, m.index + LATE, |s.mem.blocks|);
    if |Current(s.mem)| == m.spineLength + 1 {
      assert s2.threads[LATE].Faulted?;
    } else {
      assert s2.threads[LATE] == PublishLength(0, m.index + LATE, |s.mem.blocks|);
    }
  }

  /** The published length covers a block that no spine slot points to, and thread 0 is about to look. */
  ghost predicate Misleading(s: State, m: Memory, n: nat) {
    && |s.threads| == n > 0 && m.index >= 0 && s.threads[0] == ReadLength(0, m.index)
    && s.mem.spineLength == m.spineLength + 1 && s.mem.spines != []
    && |Current(s.mem)| > m.spineLength && Current(s.mem)[m.spineLength] == None
  }

  lemma EmptySlotMet(s: State, m: Memory, n: nat)
    requires Misleading(s, m, n) && m.index == BLOCK_ENTRIES * m.spineLength
    ensures !NoFault(After(s, 0, 3))
  {
    NoAct(s, 0);
    NextAct(s, 0, 0, s);
    var s1 := Step(s, Act(0));
    NextAct(s, 0, 1, s1);
    var s2 := Step(s1, Act(0));
    NextAct(s, 0, 2, s2);
    assert Step(s2, Act(0)).threads[0].Faulted?;
  }

  /** With more than 512 threads, from any quiescent buffer some run makes a push meet a spine slot that is
      empty or not there. */
  lemma FaultWithMoreThreads(m: Memory, contents: seq<Span>, n: nat) returns (schedule: seq<Action>)
    requires Quiescent(m, contents) && n > BLOCK_ENTRIES
    ensures !NoFault(Run(Start(m, n), schedule))
  {
    var fill, m1, full := FillBlocks(m, contents, n);
    var draw := DrawCursors(m1, n, LATE + 1);
    var s := Run(Start(m1, n), draw);
    var locked := LateLocks(s, m1, n);
    var k, room := LateHasRoom(s, locked, m1, n);
    var k', e := LateAnnounces(s, k, room, m1, n);
    RunAppend(Start(m, n), fill, draw);
    RunAppend(Start(m, n), fill + draw, Acts(LATE, k'));
    schedule := (fill + draw) + Acts(LATE, k');
    if NoFault(e) {
      EmptySlotMet(e, m1, n);
      RunAppend(Start(m, n), schedule, Acts(0, 3));
      schedule := schedule + Acts(0, 3);
    }
  }

  // ----- The exact limits

  /** From any quiescent buffer, `push` is safe with up to `k` pushes in flight, in any number of threads,
      exactly when `k` is at most the size of a block. */
  lemma SafeExactlyUpToBlockSize(m: Memory, contents: seq<Span>, k: nat)
    requires Quiescent(m, contents)
    ensures (forall n, schedule :: AtMostInFlight(k, Start(m, n), schedule) ==> NoFault(Run(Start(m, n), schedule)))
       <==> k <= BLOCK_ENTRIES
  {
    if k <= BLOCK_ENTRIES {
      forall n: nat, schedule | AtMostInFlight(k, Start(m, n), schedule)
        ensures NoFault(Run(Start(m, n), schedule))
      {
        AtMostMore(k, BLOCK_ENTRIES, Start(m, n), schedule);
        BlocksAllocatedInOrder(m, contents, n, schedule);
      }
    } else {
      var n := BLOCK_ENTRIES + 1;
      var schedule := FaultWithMoreThreads(m, contents, n);
      AtMostThreads(Start(m, n), schedule);
      AtMostMore(n, k, Start(m, n), schedule);
    }
  }

  /** Counted in threads: `n` threads may push at once exactly when they are at most as many as a block
      has slots. */
  lemma ThreadsSafeExactly(m: Memory, contents: seq<Span>, n: nat)
    requires Quiescent(m, contents)
    ensures (forall schedule :: NoFault(Run(Start(m, n), schedule))) <==> n <= BLOCK_ENTRIES
  {
    if n <= BLOCK_ENTRIES {
      forall schedule
        ensures NoFault(Run(Start(m, n), schedule))
      {
        AtMostThreads(Start(m, n), schedule);
        AtMostMore(n, BLOCK_ENTRIES, Start(m, n), schedule);
        BlocksAllocatedInOrder(m, contents, n, schedule);
      }
    } else {
      var schedule := FaultWithMoreThreads(m, contents, n);
    }
  }
}
