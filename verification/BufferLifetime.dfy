/** The whole life of a sweep buffer: rounds of concurrent pushes and rounds of concurrent pops take
    turns, each round running to its end before the next starts, as the two stacks trade roles on each
    cycle. */
module BufferLifetime {
  import opened BlockSizes
  import opened BufferMemory
  import Push = ConcurrentPush
  import Pop = ConcurrentPop

  datatype Round =
    | Pushes(threads: nat, pushSchedule: seq<Push.Action>)
    | Pops(threads: nat, popSchedule: seq<nat>)

  function After(m: Memory, r: Round): Memory {
    match r
    case Pushes(n, schedule) => Push.Run(Push.Start(m, n), schedule).mem
    case Pops(n, schedule) => Pop.Run(Pop.Signed, Pop.Start(m, n), schedule).mem
  }

  ghost predicate Finishes(m: Memory, r: Round) {
    match r
    case Pushes(n, schedule) =>
      Push.AtMostInFlight(BLOCK_ENTRIES, Push.Start(m, n), schedule) && Push.AllIdle(Push.Run(Push.Start(m, n), schedule))
    case Pops(n, schedule) => Pop.AllIdle(Pop.Run(Pop.Signed, Pop.Start(m, n), schedule))
  }

  function PushedIn(m: Memory, r: Round): multiset<Span> {
    match r
    case Pushes(n, schedule) => multiset(Push.Begun(Push.Start(m, n), schedule))
    case Pops(_, _) => multiset{}
  }

  function PoppedIn(m: Memory, r: Round): multiset<Span> {
    match r
    case Pushes(_, _) => multiset{}
    case Pops(n, schedule) => Pop.TakenSpans(Pop.Outputs(Pop.Signed, Pop.Start(m, n), schedule))
  }

  function AfterAll(m: Memory, rounds: seq<Round>): Memory
    decreases |rounds|
  {
    if rounds == [] then m else AfterAll(After(m, rounds[0]), rounds[1..])
  }

  ghost predicate AllFinish(m: Memory, rounds: seq<Round>)
    decreases |rounds|
  {
    rounds != [] ==> Finishes(m, rounds[0]) && AllFinish(After(m, rounds[0]), rounds[1..])
  }

  function Pushed(m: Memory, rounds: seq<Round>): multiset<Span>
    decreases |rounds|
  {
    if rounds == [] then multiset{} else PushedIn(m, rounds[0]) + Pushed(After(m, rounds[0]), rounds[1..])
  }

  function Popped(m: Memory, rounds: seq<Round>): multiset<Span>
    decreases |rounds|
  {
    if rounds == [] then multiset{} else PoppedIn(m, rounds[0]) + Popped(After(m, rounds[0]), rounds[1..])
  }

  lemma RoundConserves(m: Memory, contents: seq<Span>, r: Round) returns (left: seq<Span>)
    requires Quiescent(m, contents) && Finishes(m, r)
    ensures Quiescent(After(m, r), left)
    ensures multiset(contents) + PushedIn(m, r) == multiset(left) + PoppedIn(m, r)
  {
    match r {
      case Pushes(n, schedule) =>
        Push.PushesLoseNothing(m, contents, n, schedule);
        left := contents + Push.Begun(Push.Start(m, n), schedule);
      case Pops(n, schedule) =>
        Pop.PopsLeaveTheRest(m, contents, n, schedule);
        Pop.PopsConserve(m, contents, n, schedule);
        left := contents[..Pop.Run(Pop.Signed, Pop.Start(m, n), schedule).mem.index];
    }
  }

  lemma Chain(a: multiset<Span>, p: multiset<Span>, b: multiset<Span>, q: multiset<Span>,
              p': multiset<Span>, c: multiset<Span>, q': multiset<Span>)
    requires a + p == b + q && b + p' == c + q'
    ensures a + (p + p') == c + (q + q')
  {
    assert a + (p + p') == (a + p) + p';
    assert c + (q + q') == (c + q') + q;
  }

  /** Over any number of rounds, the spans ever pushed are those ever popped plus those still held,
      each with its multiplicity. */
  lemma {:induction false} LifetimeConserves(m: Memory, contents: seq<Span>, rounds: seq<Round>) returns (left: seq<Span>)
    requires Quiescent(m, contents) && AllFinish(m, rounds)
    ensures Quiescent(AfterAll(m, rounds), left)
    ensures multiset(contents) + Pushed(m, rounds) == multiset(left) + Popped(m, rounds)
    decreases |rounds|
  {
    if rounds == [] {
      left := contents;
    } else {
      var middle := RoundConserves(m, contents, rounds[0]);
      var m' := After(m, rounds[0]);
      left := LifetimeConserves(m', middle, rounds[1..]);
      Chain(multiset(contents), PushedIn(m, rounds[0]), multiset(middle), PoppedIn(m, rounds[0]),
            Pushed(m', rounds[1..]), multiset(left), Popped(m', rounds[1..]));
    }
  }
}
