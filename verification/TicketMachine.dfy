/**
 The ticket protocol of a moodycamel sub-queue (`dequeue` and `dequeue_bulk` of concurrentqueue.h,
 common to explicit and implicit producers), as a transition system: one producer, any number of
 consumers, one action per atomic access.

 The counters are kept as unbounded numbers, but the program keeps only their low 64 bits: every test
 it makes goes through `Word`. A single dequeue is the bulk dequeue of at most one element; lemma
 `SingleTestIsBulkTest` shows that the two forms of the test agree.
 */
module TicketMachine {
  const WORDS: nat := 0x1_0000_0000_0000_0000
  const HALF: nat := 0x8000_0000_0000_0000

  type Tid = nat

  /** What fits in an `index_t`. */
  function Word(x: int): nat {
    x % WORDS
  }

  /** Subtraction of two words. */
  function WordSub(a: nat, b: nat): nat {
    (a - b) % WORDS
  }

  /** `details::circular_less_than`. */
  predicate CircularLess(a: nat, b: nat) {
    WordSub(a, b) > HALF
  }

  function Min(a: nat, b: nat): nat {
    if a < b then a else b
  }

  datatype PC =
    | Idle
    | LoadTail(max: nat)                              // lines 1885, 2169
    | LoadOver(max: nat, tail: nat)                   // lines 1886, 2170
    | LoadOpt(max: nat, tail: nat, over: nat)         // lines 1887, 2171
    | TakeTickets(desired: nat, over: nat)            // lines 1907, 2176
    | ReloadTail(desired: nat, over: nat, mine: nat)  // lines 1918, 2179
    | AddOver(lost: nat, won: nat)                    // lines 1974, 2184, 2253
    | AddHead(won: nat)                               // lines 1930, 2189
    | Holding(first: nat, count: nat)                 // owns the indices first, ..., first + count - 1

  datatype State = State(tail: nat, head: nat, optimistic: nat, overcommit: nat, pcs: seq<PC>)

  datatype Action =
    | Enqueued                    // the producer publishes one more element
    | Call(t: Tid, max: nat)      // a consumer enters dequeue (max = 1) or dequeue_bulk
    | Run(t: Tid)
    | Release(t: Tid)             // the consumer is done with its indices

  /** `tail - (count - over)` in words: how many elements the tickets from `count` on may hope for. */
  function Available(tail: nat, count: nat, over: nat): nat {
    WordSub(Word(tail), WordSub(Word(count), Word(over)))
  }

  /** The hypothesis that indices do not lap: the true difference is within half the word range. */
  predicate NoLap(tail: nat, count: nat, over: nat) {
    count - over <= tail + HALF && tail < count - over + HALF
  }

  predicate Enabled(s: State, a: Action) {
    match a
    case Enqueued => true
    case Call(t, _) => t < |s.pcs| && s.pcs[t].Idle?
    case Run(t) =>
      && t < |s.pcs| && !s.pcs[t].Idle? && !s.pcs[t].Holding?
      && (s.pcs[t].ReloadTail? ==> NoLap(s.tail, s.pcs[t].mine, s.pcs[t].over))
    case Release(t) => t < |s.pcs| && s.pcs[t].Holding?
  }

  function Goto(s: State, t: Tid, pc: PC): State
    requires t < |s.pcs|
  {
    s.(pcs := s.pcs[t := pc])
  }

  function Apply(s: State, a: Action): State
    requires Enabled(s, a)
  {
    match a
    case Enqueued => s.(tail := s.tail + 1)
    case Call(t, max) => Goto(s, t, LoadTail(max))
    case Run(t) => RunThread(s, t)
    case Release(t) => Goto(s, t, Idle)
  }

  function RunThread(s: State, t: Tid): State
    requires t < |s.pcs|
  {
    match s.pcs[t]
    case LoadTail(max) => Goto(s, t, LoadOver(max, s.tail))
    case LoadOver(max, tail) => Goto(s, t, LoadOpt(max, tail, s.overcommit))
    case LoadOpt(max, tail, over) =>
      var hope := Available(tail, s.optimistic, over);
      Goto(s, t, if CircularLess(0, hope) then TakeTickets(Min(hope, max), over) else Idle)
    case TakeTickets(desired, over) =>
      Goto(s.(optimistic := s.optimistic + desired), t, ReloadTail(desired, over, s.optimistic))
    case ReloadTail(desired, over, mine) =>
      var actual := Available(s.tail, mine, over);
      Goto(s, t, Settle(desired, actual))
    case AddOver(lost, won) =>
      Goto(s.(overcommit := s.overcommit + lost), t, if won == 0 then Idle else AddHead(won))
    case AddHead(won) => Goto(s.(head := s.head + won), t, Holding(s.head, won))
    case _ => s
  }

  /** What a consumer does with its tickets once it has seen how many elements there are for them. */
  function Settle(desired: nat, actual: nat): PC {
    if !CircularLess(0, actual) then AddOver(desired, 0)
    else if actual < desired then AddOver(desired - actual, actual)
    else AddHead(desired)
  }

  predicate Initial(s: State) {
    && s.tail == 0 && s.head == 0 && s.optimistic == 0 && s.overcommit == 0
    && forall t | 0 <= t < |s.pcs| :: s.pcs[t].Idle?
  }

  predicate Legal(s: State, run: seq<Action>)
    decreases |run|
  {
    run == [] || (Enabled(s, run[0]) && Legal(Apply(s, run[0]), run[1..]))
  }

  function Exec(s: State, run: seq<Action>): State
    requires Legal(s, run)
    decreases |run|
  {
    if run == [] then s else Exec(Apply(s, run[0]), run[1..])
  }
}
