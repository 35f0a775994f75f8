/**
 What the calls on a sub-queue achieve: an enqueue that is given room publishes its argument, a consumer that
 has claimed indices leaves with their elements, and a dequeue on its own takes what is there.
 */
module SubQueueProgress {
  import opened Wrappers
  import opened SubQueueMachine
  import opened SubQueueProof
  import opened SubQueueTheorems
  import TM = TicketMachine
  import TP = TicketProof
  import TG = TicketProgress

  // ---------------------------------------------------------------------------------------------
  // Runs one after the other
  // ---------------------------------------------------------------------------------------------

  lemma {:induction false} RunConcat(s: State, a: seq<Action>, b: seq<Action>)
    requires Legal(s, a) && Legal(Exec(s, a), b)
    ensures Legal(s, a + b) && Exec(s, a + b) == Exec(Exec(s, a), b)
    decreases |a|
  {
    hide Apply, Enabled;
    if a == [] {
      assert a + b == b;
    } else {
      RunConcat(Apply(s, a[0]), a[1..], b);
      assert (a + b)[1..] == a[1..] + b;
    }
  }

  lemma OneAction(s: State, a: Action)
    requires Enabled(s, a)
    ensures Legal(s, [a]) && Exec(s, [a]) == Apply(s, a)
  {
    hide Apply, Enabled;
    var s1 := Apply(s, a);
    assert [a][1..] == [];
    assert Legal(s1, []) && Exec(s1, []) == s1;
  }

  function PendingAfter(run: seq<Action>, pending: Option<Element>): Option<Element>
    decreases |run|
  {
    if run == [] then pending else PendingAfter(run[1..], if run[0].Enqueue? then Some(run[0].e) else pending)
  }

  lemma Regroup(a: seq<Element>, b: seq<Element>, c: seq<Element>)
    ensures a + (b + c) == a + b + c
  {
  }

  lemma {:induction false} AcceptedConcat(s: State, a: seq<Action>, b: seq<Action>, pending: Option<Element>)
    requires Legal(s, a) && Legal(Exec(s, a), b)
    ensures Legal(s, a + b)
    ensures Accepted(s, a + b, pending) == Accepted(s, a, pending) + Accepted(Exec(s, a), b, PendingAfter(a, pending))
    decreases |a|
  {
    hide Apply, Enabled, Published;
    RunConcat(s, a, b);
    if a == [] {
      assert a + b == b;
    } else {
      assert (a + b)[1..] == a[1..] + b && (a + b)[0] == a[0];
      var pending' := if a[0].Enqueue? then Some(a[0].e) else pending;
      AcceptedConcat(Apply(s, a[0]), a[1..], b, pending');
      Regroup(Published(s, a[0], pending), Accepted(Apply(s, a[0]), a[1..], pending'),
              Accepted(Exec(s, a), b, PendingAfter(a, pending)));
    }
  }

  // ---------------------------------------------------------------------------------------------
  // Enqueue
  // ---------------------------------------------------------------------------------------------

  /** How many accesses are left at most. */
  function Left(p: Producer): nat {
    match p
    case PIdle => 0
    case PStoreTail(_) => 1
    case PWriteCell(_) => 2
    case PStoreFront(_) => 3
    case PStoreBlock(_) => 4
    case PStoreBase(_) => 5
    case PAlloc(_) => 6
    case PGrow(_) => 7
    case PLoadHead(_) => 8
    case PCheckNext(_) => 9
    case PStart(_) => 10
    case PCrash => 11
  }

  /** Fewer than 2^63 - 32 elements are waiting. */
  predicate HasRoom(s: State) {
    s.tickets.tail - s.tickets.head + BLOCK_SIZE < TM.HALF
  }

  lemma RoomIsLeeway(s: State)
    requires s.tickets.head <= s.tickets.tail && HasRoom(s)
    ensures HasLeeway(s)
  {
    hide TM.Word, TM.WordSub;
    var head, next := s.tickets.head, s.tickets.tail + BLOCK_SIZE;
    TP.WordSubIsWord(head, next);
    assert TM.Word(head - next) == head - next + TM.WORDS by {
      NegativeWord(next - head);
    }
  }

  lemma NegativeWord(d: int)
    requires 0 < d < TM.HALF
    ensures TM.Word(-d) == TM.WORDS - d
  {
  }

  /** A call of `enqueue` ends after ten accesses at most, and ends in vain only for want of room or memory. */
  lemma ProducerStepEnds(s: State, a: Action)
    requires Enabled(s, a) && a.Produce? && !s.producer.PCrash? && !Apply(s, a).producer.PCrash?
    ensures var s' := Apply(s, a);
      && Left(s'.producer) < Left(s.producer)
      && s'.tickets.head == s.tickets.head
      && s'.tickets.tail == s.tickets.tail + (if s.producer.PStoreTail? then 1 else 0)
      && (s'.producer.PIdle? ==> s.producer.PStoreTail? || (s.producer.PLoadHead? && !HasLeeway(s))
                                 || ((s.producer.PGrow? || s.producer.PAlloc?) && !a.memory))
      && (s.producer.PStoreTail? ==> s'.producer.PIdle?)
  {
    hide CopyEntries, FrontEntry, NextOf, AtBoundary, HasLeeway, IndexIsFull, ResetEmpty, IsEmpty, FilledSlots;
    ProduceTickets(s, a);
  }

  /** Over a run: a producer access that ends a call has published, or there was no room or no memory. */
  lemma RefusedOnlyForWant(s0: State, run: seq<Action>, s: State, a: Action)
    requires Reached(s0, run, s) && Enabled(s, a) && a.Produce? && Apply(s, a).producer.PIdle?
    ensures Apply(s, a).tickets.tail == s.tickets.tail + 1 || !HasRoom(s) || !a.memory
  {
    hide Exec, Legal, Apply, Enabled, HasRoom;
    NoFaults(s0, run, s);
    HeadAndTail(s0, run, s);
    ProducerStepEnds(s, a);
    if HasRoom(s) {
      RoomIsLeeway(s);
    }
  }

  predicate AllGranted(steps: seq<Action>) {
    forall a <- steps :: a.Produce? && a.memory
  }

  /** The accesses of one call, with memory whenever it is asked for. */
  lemma {:induction false} ProducesAlone(s: State, x: Aux, tx: TP.Aux, e: Element, steps: seq<Action>)
    requires Inv(s, x, tx) && Legal(s, steps) && AllGranted(steps) && HasRoom(s)
    ensures |steps| <= Left(s.producer)
    ensures var s' := Exec(s, steps); var published := s'.producer.PIdle? && !s.producer.PIdle?;
      && Accepted(s, steps, Some(e)) == (if published then [e] else [])
      && s'.tickets.tail == s.tickets.tail + (if published then 1 else 0)
    decreases |steps|
  {
    hide Inv, Apply, NextAux;
    if steps != [] {
      var a := steps[0];
      FirstIsGranted(steps);
      var s1, x1, tx1 := Apply(s, a), NextAux(s, x, a), NextTickets(s, tx, a);
      ActionInv(s, x, tx, a);
      NotCrashed(s, x, tx);
      NotCrashed(s1, x1, tx1);
      ProducerStepEnds(s, a);
      RoomIsLeeway(s);
      if s1.producer.PIdle? {
        IdleProducesNothing(s1, steps[1..]);
      } else {
        ProducesAlone(s1, x1, tx1, e, steps[1..]);
      }
    }
  }

  lemma NotCrashed(s: State, x: Aux, tx: TP.Aux)
    requires Inv(s, x, tx)
    ensures !s.producer.PCrash? && s.tickets.head <= s.tickets.tail
  {
    hide TP.Inv;
    TP.HeadBelowTail(s.tickets, tx);
  }

  lemma IdleProducesNothing(s: State, steps: seq<Action>)
    requires s.producer.PIdle? && Legal(s, steps)
    ensures steps == [] || !steps[0].Produce?
  {
  }

  lemma FirstIsGranted(steps: seq<Action>)
    requires AllGranted(steps)
    ensures steps == [] || (steps[0].Produce? && AllGranted(steps[1..]) && (steps[1..] == [] || steps[1..][0].Produce?))
  {
  }

  /**
   A call of `enqueue` with room in the queue and memory granted is accepted: once it has returned, which is
   after ten accesses at most, its argument is the last of the enqueued elements.
   */
  lemma EnqueueIsAccepted(s0: State, run: seq<Action>, s: State, e: Element, steps: seq<Action>)
    requires Reached(s0, run, s) && s.producer.PIdle? && HasRoom(s)
    requires Legal(s, [Enqueue(e)] + steps) && AllGranted(steps)
    ensures |steps| <= 10
    ensures var whole := run + ([Enqueue(e)] + steps);
      Legal(s0, whole) && (Exec(s0, whole).producer.PIdle? ==> Enqueued(s0, whole) == Enqueued(s0, run) + [e])
  {
    hide Apply, Enabled, Inv, HasRoom, Legal, Exec, Accepted, AllGranted;
    var call := [Enqueue(e)] + steps;
    var x, tx := ReachedInv(s0, run, s);
    CallAccepts(s, x, tx, e, steps, PendingAfter(run, None));
    RunConcat(s0, run, call);
    AcceptedConcat(s0, run, call, None);
    assert Enqueued(s0, run + call) == Accepted(s0, run + call, None);
  }

  lemma CallAccepts(s: State, x: Aux, tx: TP.Aux, e: Element, steps: seq<Action>, pending: Option<Element>)
    requires Inv(s, x, tx) && s.producer.PIdle? && HasRoom(s)
    requires Legal(s, [Enqueue(e)] + steps) && AllGranted(steps)
    ensures |steps| <= 10
    ensures Exec(s, [Enqueue(e)] + steps).producer.PIdle? ==> Accepted(s, [Enqueue(e)] + steps, pending) == [e]
  {
    hide Enabled, Inv, HasRoom, AllGranted, Apply;
    var call, s1 := [Enqueue(e)] + steps, Apply(s, Enqueue(e));
    assert call[0] == Enqueue(e) && call[1..] == steps;
    ActionInv(s, x, tx, Enqueue(e));
    Started(s, e);
    RoomKept(s, s1);
    ProducesAlone(s1, NextAux(s, x, Enqueue(e)), NextTickets(s, tx, Enqueue(e)), e, steps);
    assert Published(s, Enqueue(e), pending) == [];
  }

  lemma Started(s: State, e: Element)
    requires Enabled(s, Enqueue(e))
    ensures Apply(s, Enqueue(e)) == s.(producer := PStart(e))
  {
  }

  lemma RoomKept(s: State, s': State)
    requires HasRoom(s) && s'.tickets == s.tickets
    ensures HasRoom(s')
  {
  }

  /** There is such a call as long as the block index may still be doubled: the producer never gets stuck. */
  lemma {:induction false} CallReturns(s: State, x: Aux, tx: TP.Aux) returns (steps: seq<Action>)
    requires Inv(s, x, tx) && (!s.producer.PIdle? ==> s.indexSize * 2 <= LARGEST_INDEX || Left(s.producer) < 7)
    ensures Legal(s, steps) && AllGranted(steps) && Exec(s, steps).producer.PIdle?
    decreases Left(s.producer)
  {
    hide Inv, Apply, NextAux;
    steps := [];
    if !s.producer.PIdle? {
      var spare := SpareBlock(s.blocks);
      var a := Produce(false, true, spare);
      LinkedThreads(s, x, tx);
      assert Enabled(s, a);
      ActionInv(s, x, tx, a);
      NotCrashed(s, x, tx);
      NotCrashed(Apply(s, a), NextAux(s, x, a), NextTickets(s, tx, a));
      ProducerStepEnds(s, a);
      IndexStays(s, a);
      var rest := CallReturns(Apply(s, a), NextAux(s, x, a), NextTickets(s, tx, a));
      steps := [a] + rest;
      assert steps[1..] == rest;
    }
  }

  lemma IndexStays(s: State, a: Action)
    requires Enabled(s, a) && a.Produce?
    ensures Apply(s, a).indexSize == s.indexSize || s.producer.PGrow?
  {
    hide CopyEntries, FrontEntry, NextOf, AtBoundary, HasLeeway, IndexIsFull, ResetEmpty, IsEmpty, FilledSlots;
  }

  lemma LinkedThreads(s: State, x: Aux, tx: TP.Aux)
    requires Inv(s, x, tx)
    ensures |s.consumers| == |s.tickets.pcs|
  {
  }

  lemma {:induction false} SpareBlock(blocks: set<Block>) returns (b: Block)
    ensures b !in blocks
  {
    b := SpareAbove(blocks);
  }

  lemma {:induction false} SpareAbove(blocks: set<Block>) returns (b: Block)
    ensures forall c <- blocks :: c < b
  {
    b := 0;
    if blocks != {} {
      var c :| c in blocks;
      var d := SpareAbove(blocks - {c});
      b := if c < d then d else c + 1;
      assert forall n <- blocks :: n == c || n in blocks - {c};
    }
  }

  // ---------------------------------------------------------------------------------------------
  // A claim is delivered
  // ---------------------------------------------------------------------------------------------

  /** The accesses a consumer has left at most, up to having all its elements. */
  function Work(c: Consumer): int {
    match c
    case CLoadHeader(_, count) => 3 * count + 3
    case CLoadFront(_, count, _) => 3 * count + 2
    case CLoadBase(_, count, _, _) => 3 * count + 1
    case CLoadBlock(first, count, _, _, index, _) => 3 * (first + count - index)
    case CReadCell(first, count, _, _, start, _, index, _) =>
      var end := EndOf(first, count, start);
      3 * (first + count - end) + (end - index) + (end - start)
    case CSetFlag(first, count, _, _, start, _, end, k, _) => 3 * (first + count - end) + (k - start) + 1
    case _ => 0
  }

  /** Where the consumer is in its claim. */
  predicate InRange(c: Consumer) {
    match c
    case CLoadHeader(_, count) => count > 0
    case CLoadFront(_, count, _) => count > 0
    case CLoadBase(_, count, _, _) => count > 0
    case CLoadBlock(first, count, _, _, index, _) => first <= index < first + count
    case CReadCell(first, count, _, _, start, _, index, _) =>
      first <= start <= index < EndOf(first, count, start) <= first + count
    case CSetFlag(first, count, _, _, start, _, end, k, _) => first <= start <= k < end <= first + count
    case CCrash => false
    case _ => true
  }

  lemma RangeOk(headers: seq<Header>, x: Aux, c: Consumer)
    requires ConsumerOk(headers, x, c)
    ensures InRange(c)
  {
    hide Unemptied, Listed, IsSlotOf;
  }

  lemma WorkShrinks(s: State, c: Consumer)
    requires InRange(c) && !c.CIdle? && !c.CDone? && !NextConsumer(s, c).CCrash?
    requires c.CReadCell? ==> EndInBlock(c.first, c.count, c.start) == EndOf(c.first, c.count, c.start)
    ensures 0 <= Work(NextConsumer(s, c)) < Work(c)
    ensures !NextConsumer(s, c).CIdle?
  {
    hide SlotFor, EndInBlock;
  }

  /** One access of a consumer that has a claim. */
  lemma ConsumeOnce(s: State, x: Aux, tx: TP.Aux, t: Tid)
    requires Inv(s, x, tx) && t < |s.consumers| && !s.consumers[t].CIdle? && !s.consumers[t].CDone?
    ensures Enabled(s, Consume(t))
    ensures var s' := Apply(s, Consume(t)); var c' := s'.consumers[t];
      && s'.tickets == s.tickets && |s'.consumers| == |s.consumers|
      && !c'.CIdle? && 0 <= Work(c') < Work(s.consumers[t])
  {
    hide MemoryOk, Work;
    assert TP.OverOk(s.tickets, tx, s.tickets.pcs[t]);
    assert Matches(s.tickets.pcs[t], s.consumers[t]) && ConsumerOk(s.headers, x, s.consumers[t]);
    var c := s.consumers[t];
    ConsumerNextOk(s, x, tx, t);
    RangeOk(s.headers, x, c);
    if c.CReadCell? {
      EndIsMin(c.first, c.count, c.start);
    }
    if !c.CSetFlag? {
      RangeOk(s.headers, x, NextConsumer(s, c));
    } else {
      SetFlagOk(s, x, c);
      RangeOk(s.headers, x.(emptied := x.emptied + {c.k}), NextConsumer(s, c));
    }
    WorkShrinks(s, c);
  }

  predicate AllOf(steps: seq<Action>, t: Tid) {
    forall a <- steps :: a == Consume(t)
  }

  /** On its own a consumer with a claim comes to have all its elements. */
  lemma {:induction false} FinishClaim(s: State, x: Aux, tx: TP.Aux, t: Tid) returns (steps: seq<Action>)
    requires Inv(s, x, tx) && t < |s.consumers| && !s.consumers[t].CIdle?
    ensures AllOf(steps, t) && Legal(s, steps) && Exec(s, steps).tickets == s.tickets
    ensures t < |Exec(s, steps).consumers| && Exec(s, steps).consumers[t].CDone?
    decreases if Work(s.consumers[t]) >= 0 then Work(s.consumers[t]) else 0
  {
    hide Inv, Apply, NextAux, Enabled, Work;
    steps := [];
    if !s.consumers[t].CDone? {
      var a := Consume(t);
      ConsumeOnce(s, x, tx, t);
      ActionInv(s, x, tx, a);
      var rest := FinishClaim(Apply(s, a), NextAux(s, x, a), NextTickets(s, tx, a), t);
      steps := [a] + rest;
      assert steps[1..] == rest;
    }
  }

  lemma {:induction false} ConsumingAcceptsNothing(s: State, steps: seq<Action>, pending: Option<Element>)
    requires Legal(s, steps) && forall a <- steps :: a.Consume? || a.Dequeue?
    ensures Accepted(s, steps, pending) == []
    decreases |steps|
  {
    hide Apply, Enabled;
    if steps != [] {
      assert steps[0] in steps;
      ConsumingAcceptsNothing(Apply(s, steps[0]), steps[1..], pending);
    }
  }

  /** Indices once claimed are delivered: whatever state the queue is in, the consumer alone gets there. */
  lemma ClaimIsDelivered(s0: State, run: seq<Action>, s: State, t: Tid) returns (steps: seq<Action>)
    requires Reached(s0, run, s) && t < |s.consumers| && !s.consumers[t].CIdle?
    requires t < |s.tickets.pcs| && s.tickets.pcs[t].Holding?
    ensures AllOf(steps, t) && Legal(s, steps) && t < |Exec(s, steps).consumers|
    ensures var first, count := s.tickets.pcs[t].first, s.tickets.pcs[t].count;
      && first + count <= |Enqueued(s0, run)|
      && Exec(s, steps).consumers[t] == CDone(first, count, Enqueued(s0, run)[first..first + count])
  {
    hide Inv, Apply, Enabled, NextAux;
    var x, tx := ReachedInv(s0, run, s);
    steps := FinishClaim(s, x, tx, t);
    DoneWithElements(s0, run, s, t, steps);
  }

  lemma DoneWithElements(s0: State, run: seq<Action>, s: State, t: Tid, steps: seq<Action>)
    requires Reached(s0, run, s) && Legal(s, steps) && (forall a <- steps :: a.Consume? || a.Dequeue?)
    requires t < |Exec(s, steps).consumers| && Exec(s, steps).consumers[t].CDone?
    ensures var CDone(first, count, got) := Exec(s, steps).consumers[t];
      && first + count <= |Enqueued(s0, run)| && got == Enqueued(s0, run)[first..first + count]
      && t < |Exec(s, steps).tickets.pcs| && Exec(s, steps).tickets.pcs[t] == TM.Holding(first, count)
  {
    hide Apply, Enabled, NextAux;
    var whole, s' := run + steps, Exec(s, steps);
    RunConcat(s0, run, steps);
    AcceptedConcat(s0, run, steps, None);
    ConsumingAcceptsNothing(s, steps, PendingAfter(run, None));
    ConsumerGetsItsElements(s0, whole, s', t);
    var x, tx := ReachedInv(s0, whole, s');
    assert Matches(s'.tickets.pcs[t], s'.consumers[t]);
  }

  // ---------------------------------------------------------------------------------------------
  // A dequeue on its own
  // ---------------------------------------------------------------------------------------------

  /** The call and `steps` accesses of thread t. */
  function Lone(t: Tid, max: nat, steps: nat): seq<Action> {
    if steps == 0 then [Dequeue(t, max)] else Lone(t, max, steps - 1) + [Consume(t)]
  }

  /** The actions are one call of `dequeue` by t and then accesses of t. */
  predicate IsCall(steps: seq<Action>, t: Tid, max: nat) {
    steps != [] && steps[0] == Dequeue(t, max) && forall i | 0 < i < |steps| :: steps[i] == Consume(t)
  }

  lemma {:induction false} LoneActions(t: Tid, max: nat, steps: nat)
    ensures IsCall(Lone(t, max, steps), t, max)
  {
    if steps > 0 {
      LoneActions(t, max, steps - 1);
    }
  }

  lemma CallJoins(first: seq<Action>, rest: seq<Action>, t: Tid, max: nat)
    requires IsCall(first, t, max) && AllOf(rest, t)
    ensures IsCall(first + rest, t, max) && forall a <- first + rest :: a.Consume? || a.Dequeue?
  {
    var all := first + rest;
    forall i | 0 < i < |all|
      ensures all[i] == Consume(t)
    {
      assert i >= |first| ==> rest[i - |first|] in rest;
    }
  }

  lemma {:induction false} TicketPrefix(s: TM.State, run: seq<TM.Action>, a: TM.Action)
    requires TM.Legal(s, run + [a])
    ensures TM.Legal(s, run) && TM.Enabled(TM.Exec(s, run), a)
    ensures TM.Exec(s, run + [a]) == TM.Apply(TM.Exec(s, run), a)
    decreases |run|
  {
    if run == [] {
      assert run + [a] == [a] && [a][1..] == [];
      assert TM.Exec(TM.Apply(s, a), []) == TM.Apply(s, a);
    } else {
      assert (run + [a])[1..] == run[1..] + [a];
      TicketPrefix(TM.Apply(s, run[0]), run[1..], a);
    }
  }

  /** The state with the tickets moved on and, once indices are claimed, the consumer looking for them. */
  function WithTickets(s: State, t: Tid, tickets: TM.State): State
    requires t < |s.consumers| && t < |tickets.pcs|
  {
    if tickets.pcs[t].Holding? then
      s.(tickets := tickets, consumers := s.consumers[t := Claimed(tickets.pcs[t].first, tickets.pcs[t].count)])
    else s.(tickets := tickets)
  }

  /** What the tickets do alone, the sub-queue does. */
  lemma {:induction false} Lifted(s: State, t: Tid, max: nat, steps: nat)
    requires t < |s.consumers| == |s.tickets.pcs| && s.consumers[t].CIdle? && TM.Legal(s.tickets, TG.Lone(t, max, steps))
    ensures var tickets := TM.Exec(s.tickets, TG.Lone(t, max, steps));
      && |tickets.pcs| == |s.consumers|
      && Legal(s, Lone(t, max, steps)) && Exec(s, Lone(t, max, steps)) == WithTickets(s, t, tickets)
  {
    if steps == 0 {
      LiftedCall(s, t, max);
    } else {
      var before := TG.Lone(t, max, steps - 1);
      TicketPrefix(s.tickets, before, TM.Run(t));
      Lifted(s, t, max, steps - 1);
      var tickets := TM.Exec(s.tickets, before);
      LiftedStep(s, t, tickets);
      OneAction(s.(tickets := tickets), Consume(t));
      RunConcat(s, Lone(t, max, steps - 1), [Consume(t)]);
    }
  }

  lemma LiftedCall(s: State, t: Tid, max: nat)
    requires t < |s.consumers| == |s.tickets.pcs| && s.consumers[t].CIdle? && TM.Legal(s.tickets, TG.Lone(t, max, 0))
    ensures var tickets := TM.Exec(s.tickets, TG.Lone(t, max, 0));
      && |tickets.pcs| == |s.consumers|
      && Legal(s, Lone(t, max, 0)) && Exec(s, Lone(t, max, 0)) == WithTickets(s, t, tickets)
  {
    assert [] + [TM.Call(t, max)] == [TM.Call(t, max)];
    TicketPrefix(s.tickets, [], TM.Call(t, max));
    OneAction(s, Dequeue(t, max));
  }

  lemma LiftedStep(s: State, t: Tid, tickets: TM.State)
    requires t < |s.consumers| == |tickets.pcs| && s.consumers[t].CIdle? && TM.Enabled(tickets, TM.Run(t))
    ensures Enabled(s.(tickets := tickets), Consume(t))
    ensures |TM.Apply(tickets, TM.Run(t)).pcs| == |s.consumers|
    ensures WithTickets(s, t, tickets) == s.(tickets := tickets)
    ensures Apply(s.(tickets := tickets), Consume(t)) == WithTickets(s, t, TM.Apply(tickets, TM.Run(t)))
  {
    TicketMove(tickets, t);
  }

  /**
   A dequeue that runs while no other is under way leaves with the next elements, all that are there up to
   `max`; it leaves with nothing only if nothing is there.
   */
  lemma LoneDequeueGetsNextElements(s0: State, run: seq<Action>, s: State, t: Tid, max: nat)
    returns (steps: seq<Action>)
    requires Reached(s0, run, s) && t < |s.consumers| && TG.Quiet(s.tickets.pcs)
    requires t < |s.tickets.pcs| && s.tickets.pcs[t].Idle? && s.tickets.tail - s.tickets.head < TM.HALF
    ensures Legal(s, steps) && t < |Exec(s, steps).consumers|
    ensures IsCall(steps, t, max)
    ensures var head, tail, s' := s.tickets.head, s.tickets.tail, Exec(s, steps);
      if head >= tail then s' == s
      else
        var n := TM.Min(tail - head, max);
        head + n <= |Enqueued(s0, run)| && s'.consumers[t] == CDone(head, n, Enqueued(s0, run)[head..head + n])
  {
    hide TM.Legal, TM.Exec, Legal, Exec, Apply, Enabled, NextAux, IsCall, AllOf;
    var x, tx := ReachedInv(s0, run, s);
    IdleConsumer(s, x, tx, t);
    LoneInTickets(s, x, tx, t, max);
    var k := if s.tickets.head >= s.tickets.tail then 3 else 6;
    Lifted(s, t, max, k);
    LoneActions(t, max, k);
    steps := Lone(t, max, k);
    if s.tickets.head < s.tickets.tail {
      steps := FinishCall(s0, run, s, t, max, steps);
    }
  }

  lemma IdleConsumer(s: State, x: Aux, tx: TP.Aux, t: Tid)
    requires Inv(s, x, tx) && t < |s.consumers|
    ensures |s.consumers| == |s.tickets.pcs| && (s.tickets.pcs[t].Idle? ==> s.consumers[t].CIdle?)
  {
    assert |s.consumers| == |s.tickets.pcs|;
    assert Matches(s.tickets.pcs[t], s.consumers[t]);
  }

  /** The call has claimed its indices; it goes on to its elements. */
  lemma FinishCall(s0: State, run: seq<Action>, s: State, t: Tid, max: nat, call: seq<Action>) returns (steps: seq<Action>)
    requires Reached(s0, run, s) && Legal(s, call) && IsCall(call, t, max)
    requires t < |Exec(s, call).consumers| && !Exec(s, call).consumers[t].CIdle?
    requires t < |Exec(s, call).tickets.pcs| && Exec(s, call).tickets.pcs[t].Holding?
    ensures IsCall(steps, t, max) && Legal(s, steps) && t < |Exec(s, steps).consumers|
    ensures var first, count := Exec(s, call).tickets.pcs[t].first, Exec(s, call).tickets.pcs[t].count;
      && first + count <= |Enqueued(s0, run)|
      && Exec(s, steps).consumers[t] == CDone(first, count, Enqueued(s0, run)[first..first + count])
  {
    hide Apply, Enabled, NextAux, IsCall, AllOf, Inv;
    var s1 := Exec(s, call);
    RunConcat(s0, run, call);
    var x1, tx1 := ReachedInv(s0, run + call, s1);
    var rest := FinishClaim(s1, x1, tx1, t);
    RunConcat(s, call, rest);
    CallJoins(call, rest, t, max);
    steps := call + rest;
    DoneWithElements(s0, run, s, t, steps);
  }

  lemma LoneInTickets(s: State, x: Aux, tx: TP.Aux, t: Tid, max: nat)
    requires Inv(s, x, tx) && TG.Quiet(s.tickets.pcs)
    requires t < |s.tickets.pcs| && s.tickets.pcs[t].Idle? && s.tickets.tail - s.tickets.head < TM.HALF
    ensures if s.tickets.head >= s.tickets.tail then
        TM.Legal(s.tickets, TG.Lone(t, max, 3)) && TM.Exec(s.tickets, TG.Lone(t, max, 3)) == s.tickets
      else
        var n := TM.Min(s.tickets.tail - s.tickets.head, max);
        TM.Legal(s.tickets, TG.Lone(t, max, 6))
        && TM.Exec(s.tickets, TG.Lone(t, max, 6)).pcs == s.tickets.pcs[t := TM.Holding(s.tickets.head, n)]
  {
    hide TM.Legal, TM.Exec, TG.Lone;
    TP.HeadBelowTail(s.tickets, tx);
    TG.NothingInFlight(s.tickets.pcs);
    if s.tickets.head >= s.tickets.tail {
      TG.LoneFindsNothing(s.tickets, t, max);
    } else {
      TG.LoneTakes(s.tickets, t, max);
    }
  }
}
