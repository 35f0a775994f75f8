/** The sub-queue refines a first-in first-out sequence: main results over every run. */
module SubQueueTheorems {
  import opened Wrappers
  import opened SubQueueMachine
  import opened SubQueueProof
  import TM = TicketMachine
  import TP = TicketProof

  predicate Reached(s0: State, run: seq<Action>, s: State) {
    Initial(s0) && Legal(s0, run) && Exec(s0, run) == s
  }

  function AuxAfter(s: State, x: Aux, run: seq<Action>): Aux
    requires Legal(s, run)
    decreases |run|
  {
    if run == [] then x else AuxAfter(Apply(s, run[0]), NextAux(s, x, run[0]), run[1..])
  }

  function TicketsAfter(s: State, tx: TP.Aux, run: seq<Action>): TP.Aux
    requires Legal(s, run)
    decreases |run|
  {
    if run == [] then tx else TicketsAfter(Apply(s, run[0]), NextTickets(s, tx, run[0]), run[1..])
  }

  lemma {:induction false} RunInv(s: State, x: Aux, tx: TP.Aux, run: seq<Action>)
    requires Inv(s, x, tx) && Legal(s, run)
    ensures Inv(Exec(s, run), AuxAfter(s, x, run), TicketsAfter(s, tx, run))
    decreases |run|
  {
    if run != [] {
      ActionInv(s, x, tx, run[0]);
      RunInv(Apply(s, run[0]), NextAux(s, x, run[0]), NextTickets(s, tx, run[0]), run[1..]);
    }
  }

  /**
   The arguments of the calls of `enqueue` that published the tail, in order; `pending` is the argument of the
   call under way. Only the actions and the moment of publication are looked at, not what the producer keeps.
   */
  function Accepted(s: State, run: seq<Action>, pending: Option<Element>): seq<Element>
    requires Legal(s, run)
    decreases |run|
  {
    if run == [] then []
    else
      Published(s, run[0], pending)
      + Accepted(Apply(s, run[0]), run[1..], if run[0].Enqueue? then Some(run[0].e) else pending)
  }

  function Published(s: State, a: Action, pending: Option<Element>): seq<Element>
    requires Enabled(s, a)
  {
    if a.Produce? && Apply(s, a).tickets.tail > s.tickets.tail && pending.Some? then [pending.value] else []
  }

  function Enqueued(s: State, run: seq<Action>): seq<Element>
    requires Legal(s, run)
  {
    Accepted(s, run, None)
  }

  /** The producer carries the argument of the call under way. */
  predicate Carries(p: Producer, pending: Option<Element>) {
    p.PIdle? || p.PCrash? || pending == Some(p.e)
  }

  lemma StepCarries(s: State, x: Aux, a: Action, pending: Option<Element>)
    requires Enabled(s, a) && Carries(s.producer, pending)
    ensures Carries(Apply(s, a).producer, if a.Enqueue? then Some(a.e) else pending)
    ensures NextAux(s, x, a).log == x.log + Published(s, a, pending)
  {
    hide CopyEntries, FrontEntry, NextOf, AtBoundary, HasLeeway, IndexIsFull, ResetEmpty, TM.Enabled, TM.Legal;
    if a.Produce? {
      ProduceTickets(s, a);
    }
  }

  lemma {:induction false} LogIsEnqueued(s: State, x: Aux, run: seq<Action>, pending: Option<Element>)
    requires Legal(s, run) && Carries(s.producer, pending)
    ensures AuxAfter(s, x, run).log == x.log + Accepted(s, run, pending)
    decreases |run|
  {
    hide Carries, Apply, NextAux, Enabled;
    if run != [] {
      var a := run[0];
      StepCarries(s, x, a, pending);
      LogIsEnqueued(Apply(s, a), NextAux(s, x, a), run[1..], if a.Enqueue? then Some(a.e) else pending);
    }
  }

  lemma ReachedInv(s0: State, run: seq<Action>, s: State) returns (x: Aux, tx: TP.Aux)
    requires Reached(s0, run, s)
    ensures Inv(s, x, tx) && x.log == Enqueued(s0, run)
  {
    InitialInv(s0);
    RunInv(s0, InitialAux(s0), TP.Aux([], []), run);
    LogIsEnqueued(s0, InitialAux(s0), run, None);
    x, tx := AuxAfter(s0, InitialAux(s0), run), TicketsAfter(s0, TP.Aux([], []), run);
  }

  /** The consumer that was given indices first, first + 1, ... leaves with exactly those elements. */
  lemma ConsumerGetsItsElements(s0: State, run: seq<Action>, s: State, t: Tid)
    requires Reached(s0, run, s) && t < |s.consumers| && s.consumers[t].CDone?
    ensures var CDone(first, count, got) := s.consumers[t];
      first + count <= |Enqueued(s0, run)| && got == Enqueued(s0, run)[first..first + count]
  {
    var x, tx := ReachedInv(s0, run, s);
    assert ConsumerOk(s.headers, x, s.consumers[t]);
  }

  /** The block the index lookup returned holds the element of the index, whatever the producer did since. */
  lemma LookupFindsElement(s0: State, run: seq<Action>, s: State, t: Tid)
    requires Reached(s0, run, s) && t < |s.consumers| && s.consumers[t].CReadCell?
    ensures var c := s.consumers[t];
      c.index < |Enqueued(s0, run)| && HasElement(s.cells, c.block, c.index, Enqueued(s0, run)[c.index])
  {
    var x, tx := ReachedInv(s0, run, s);
    var c := s.consumers[t];
    assert ConsumerOk(s.headers, x, c);
    assert c.index / BLOCK_SIZE == c.start / BLOCK_SIZE;
    assert HasElement(s.cells, x.blockOf[c.index / BLOCK_SIZE], c.index, x.log[c.index]);
  }

  /** The assertions on lines 1514 and 1536: no flag is set twice between two uses of a block. */
  lemma FlagNotSetBefore(s0: State, run: seq<Action>, s: State, t: Tid)
    requires Reached(s0, run, s) && t < |s.consumers| && s.consumers[t].CSetFlag?
    ensures !Flag(s.emptyFlags, s.consumers[t].block, s.consumers[t].k)
  {
    var x, tx := ReachedInv(s0, run, s);
    var c := s.consumers[t];
    assert ConsumerOk(s.headers, x, c);
    assert c.k / BLOCK_SIZE == c.start / BLOCK_SIZE;
    LiveBlock(x.emptied, Lo(s.slotsUsed, x.blockOf), s.tickets.head, c.k);
    assert Flag(s.emptyFlags, x.blockOf[c.k / BLOCK_SIZE], c.k) <==> c.k in x.emptied;
  }

  /** No null block, no missing index, no slot out of bounds, no unconstructed element. */
  lemma NoFaults(s0: State, run: seq<Action>, s: State)
    requires Reached(s0, run, s)
    ensures !s.producer.PCrash? && forall t | 0 <= t < |s.consumers| :: !s.consumers[t].CCrash?
  {
    var x, tx := ReachedInv(s0, run, s);
    forall t | 0 <= t < |s.consumers| ensures ConsumerOk(s.headers, x, s.consumers[t]) {}
  }

  // ---------------------------------------------------------------------------------------------
  // Exactly once
  // ---------------------------------------------------------------------------------------------

  /** What the consumer that moves returns with, if it returns: the first index and the elements. */
  function Delivered(s: State, a: Action): seq<(nat, seq<Element>)>
    requires Enabled(s, a)
  {
    if a.Consume? && s.consumers[a.t].CDone? then [(s.consumers[a.t].first, s.consumers[a.t].got)] else []
  }

  /** What consumers returned with along a run. */
  function Deliveries(s: State, run: seq<Action>): seq<(nat, seq<Element>)>
    requires Legal(s, run)
    decreases |run|
  {
    if run == [] then [] else Delivered(s, run[0]) + Deliveries(Apply(s, run[0]), run[1..])
  }

  function Covers(first: nat, count: nat, k: nat): nat {
    if first <= k < first + count then 1 else 0
  }

  function TimesDelivered(deliveries: seq<(nat, seq<Element>)>, k: nat): nat {
    if deliveries == [] then 0
    else Covers(deliveries[0].0, |deliveries[0].1|, k) + TimesDelivered(deliveries[1..], k)
  }

  function Holds(pc: TM.PC, k: nat): nat {
    if pc.Holding? then Covers(pc.first, pc.count, k) else 0
  }

  function TimesHeld(pcs: seq<TM.PC>, k: nat): nat {
    if pcs == [] then 0 else Holds(pcs[0], k) + TimesHeld(pcs[1..], k)
  }

  lemma {:induction false} HeldMove(pcs: seq<TM.PC>, t: Tid, pc: TM.PC, k: nat)
    requires t < |pcs|
    ensures TimesHeld(pcs[t := pc], k) == TimesHeld(pcs, k) - Holds(pcs[t], k) + Holds(pc, k)
  {
    if t == 0 {
      assert pcs[t := pc][1..] == pcs[1..];
    } else {
      HeldMove(pcs[1..], t - 1, pc, k);
      assert pcs[t := pc][1..] == pcs[1..][t - 1 := pc];
    }
  }

  lemma {:induction false} NothingHeld(pcs: seq<TM.PC>, k: nat)
    requires forall t | 0 <= t < |pcs| :: !pcs[t].Holding?
    ensures TimesHeld(pcs, k) == 0
  {
    if pcs != [] {
      NothingHeld(pcs[1..], k);
    }
  }

  /** What a step changes: indices move from unclaimed to held to delivered. */
  predicate Conserves(s: State, delivered: seq<(nat, seq<Element>)>, s': State, k: nat) {
    TimesHeld(s'.tickets.pcs, k) + TimesDelivered(delivered, k) + Covers(0, s.tickets.head, k)
    == TimesHeld(s.tickets.pcs, k) + Covers(0, s'.tickets.head, k)
  }

  lemma TicketStepConserves(s: State, t: Tid, k: nat)
    requires Enabled(s, Consume(t)) && s.consumers[t].CIdle?
    ensures Conserves(s, [], Apply(s, Consume(t)), k)
  {
    TicketMove(s.tickets, t);
    HeldMove(s.tickets.pcs, t, Apply(s, Consume(t)).tickets.pcs[t], k);
  }

  lemma DoneConserves(s: State, t: Tid, k: nat)
    requires Enabled(s, Consume(t)) && s.consumers[t].CDone? && Matches(s.tickets.pcs[t], s.consumers[t])
    requires |s.consumers[t].got| == s.consumers[t].count
    ensures Conserves(s, Delivered(s, Consume(t)), Apply(s, Consume(t)), k)
  {
    HeldMove(s.tickets.pcs, t, TM.Idle, k);
    var d := Delivered(s, Consume(t));
    assert d[1..] == [];
  }

  lemma StepConserves(s: State, x: Aux, tx: TP.Aux, a: Action, k: nat)
    requires Inv(s, x, tx) && Enabled(s, a)
    ensures Conserves(s, Delivered(s, a), Apply(s, a), k)
  {
    match a
    case Enqueue(_) =>
    case Produce(_, _, _) => ProduceTickets(s, a);
    case Dequeue(t, max) =>
      assert Matches(s.tickets.pcs[t], s.consumers[t]);
      HeldMove(s.tickets.pcs, t, TM.LoadTail(max), k);
    case Consume(t) =>
      assert Matches(s.tickets.pcs[t], s.consumers[t]) && ConsumerOk(s.headers, x, s.consumers[t]);
      if s.consumers[t].CIdle? { TicketStepConserves(s, t, k); }
      else if s.consumers[t].CDone? { DoneConserves(s, t, k); }
  }

  lemma {:induction false} RunConserves(s: State, x: Aux, tx: TP.Aux, run: seq<Action>, k: nat)
    requires Inv(s, x, tx) && Legal(s, run)
    ensures Conserves(s, Deliveries(s, run), Exec(s, run), k)
    decreases |run|
  {
    if run != [] {
      var s1 := Apply(s, run[0]);
      ActionInv(s, x, tx, run[0]);
      StepConserves(s, x, tx, run[0], k);
      RunConserves(s1, NextAux(s, x, run[0]), NextTickets(s, tx, run[0]), run[1..], k);
      TimesConcat(Delivered(s, run[0]), Deliveries(s1, run[1..]), k);
    }
  }

  lemma {:induction false} TimesConcat(a: seq<(nat, seq<Element>)>, b: seq<(nat, seq<Element>)>, k: nat)
    ensures TimesDelivered(a + b, k) == TimesDelivered(a, k) + TimesDelivered(b, k)
  {
    if a == [] {
      assert a + b == b;
    } else {
      TimesConcat(a[1..], b, k);
      assert (a + b)[1..] == a[1..] + b;
    }
  }

  /**
   Nothing is lost and nothing is taken twice: an index below head has been delivered once or is in
   the hands of one consumer, never both, and an index not below head neither.
   */
  lemma EachIndexExactlyOnce(s0: State, run: seq<Action>, s: State, k: nat)
    requires Reached(s0, run, s)
    ensures TimesDelivered(Deliveries(s0, run), k) + TimesHeld(s.tickets.pcs, k) == if k < s.tickets.head then 1 else 0
  {
    InitialInv(s0);
    RunConserves(s0, InitialAux(s0), TP.Aux([], []), run, k);
    NothingHeld(s0.tickets.pcs, k);
  }

  predicate DeliversFrom(log: seq<Element>, deliveries: seq<(nat, seq<Element>)>) {
    forall i | 0 <= i < |deliveries| ::
      var first, got := deliveries[i].0, deliveries[i].1;
      first + |got| <= |log| && got == log[first..first + |got|]
  }

  lemma DeliveredFrom(s: State, x: Aux, tx: TP.Aux, a: Action, log: seq<Element>)
    requires Inv(s, x, tx) && Enabled(s, a) && x.log <= log
    ensures DeliversFrom(log, Delivered(s, a))
  {
    if a.Consume? && s.consumers[a.t].CDone? {
      assert ConsumerOk(s.headers, x, s.consumers[a.t]);
    }
  }

  lemma DeliversConcat(log: seq<Element>, a: seq<(nat, seq<Element>)>, b: seq<(nat, seq<Element>)>)
    requires DeliversFrom(log, a) && DeliversFrom(log, b)
    ensures DeliversFrom(log, a + b)
  {
  }

  /** What is delivered along a run comes from whatever the log has grown to in the end. */
  lemma {:induction false} RunDelivers(s: State, x: Aux, tx: TP.Aux, run: seq<Action>)
    requires Inv(s, x, tx) && Legal(s, run)
    ensures x.log <= AuxAfter(s, x, run).log
    ensures DeliversFrom(AuxAfter(s, x, run).log, Deliveries(s, run))
    decreases |run|
  {
    hide Inv, DeliversFrom, Enabled, Apply, NextAux;
    if run == [] {
      DeliversNothing(x.log);
    } else {
      var s1, x1 := Apply(s, run[0]), NextAux(s, x, run[0]);
      ActionInv(s, x, tx, run[0]);
      LogGrows(s, x, run[0]);
      RunDelivers(s1, x1, NextTickets(s, tx, run[0]), run[1..]);
      DeliveredFrom(s, x, tx, run[0], AuxAfter(s, x, run).log);
      DeliversConcat(AuxAfter(s, x, run).log, Delivered(s, run[0]), Deliveries(s1, run[1..]));
    }
  }

  lemma DeliversNothing(log: seq<Element>)
    ensures DeliversFrom(log, [])
  {
  }

  lemma LogGrows(s: State, x: Aux, a: Action)
    requires Enabled(s, a)
    ensures x.log <= NextAux(s, x, a).log
  {
  }

  lemma HeadAndTail(s0: State, run: seq<Action>, s: State)
    requires Reached(s0, run, s)
    ensures s.tickets.head <= s.tickets.tail == |Enqueued(s0, run)|
  {
    var x, tx := ReachedInv(s0, run, s);
    TP.HeadBelowTail(s.tickets, tx);
  }

  /**
   First in, first out: whatever the interleaving, the k-th index carries the k-th enqueued element.
   With `EachIndexExactlyOnce` this is the sequence of enqueued elements, dealt out in order.
   */
  lemma QueueIsFirstInFirstOut(s0: State, run: seq<Action>, s: State)
    requires Reached(s0, run, s)
    ensures DeliversFrom(Enqueued(s0, run), Deliveries(s0, run))
    ensures s.tickets.head <= s.tickets.tail == |Enqueued(s0, run)|
  {
    InitialInv(s0);
    LogIsEnqueued(s0, InitialAux(s0), run, None);
    RunDelivers(s0, InitialAux(s0), TP.Aux([], []), run);
    HeadAndTail(s0, run, s);
  }
}
