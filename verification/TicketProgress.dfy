/**
 What a dequeue achieves: alone, it takes as many elements as are there; among others, it gives up a
 ticket only if the elements published do not reach it.
 */
module TicketProgress {
  import opened TicketMachine
  import opened TicketProof

  // ---------------------------------------------------------------------------------------------
  // What one access decides
  // ---------------------------------------------------------------------------------------------

  /**
   Among others: a consumer leaves without taking tickets exactly if, as far as it saw, every element published
   has a ticket that is not known to be in vain ...
   */
  lemma LeavesOnlyIfNoneSeen(s: State, t: Tid)
    requires t < |s.pcs| && s.pcs[t].LoadOpt? && NoLap(s.pcs[t].tail, s.optimistic, s.pcs[t].over)
    ensures var LoadOpt(max, tail, over) := s.pcs[t];
      RunThread(s, t) == Goto(s, t, if tail <= s.optimistic - over then Idle
                                    else TakeTickets(Min(tail - (s.optimistic - over), max), over))
  {
    WordArithmetic(s.pcs[t].tail, s.optimistic, s.pcs[t].over);
  }

  /**
   ... and of its tickets, number `mine` and those after it, it gives up exactly those that the tail does
   not reach, not counting the tickets it knows to be given up.
   */
  lemma GivesUpOnlyBeyondTail(s: State, t: Tid)
    requires t < |s.pcs| && s.pcs[t].ReloadTail? && Enabled(s, Run(t))
    ensures var ReloadTail(desired, over, mine) := s.pcs[t];
      var reached := s.tail - (mine - over);
      RunThread(s, t) == Goto(s, t,
        if reached <= 0 then AddOver(desired, 0)
        else if reached < desired then AddOver(desired - reached, reached)
        else AddHead(desired))
  {
    WordArithmetic(s.tail, s.pcs[t].mine, s.pcs[t].over);
  }

  lemma OtherSteps(s: State, t: Tid)
    requires t < |s.pcs|
    ensures match s.pcs[t]
      case LoadTail(max) => RunThread(s, t) == Goto(s, t, LoadOver(max, s.tail))
      case LoadOver(max, tail) => RunThread(s, t) == Goto(s, t, LoadOpt(max, tail, s.overcommit))
      case TakeTickets(desired, over) =>
        RunThread(s, t) == Goto(s.(optimistic := s.optimistic + desired), t, ReloadTail(desired, over, s.optimistic))
      case AddHead(won) => RunThread(s, t) == Goto(s.(head := s.head + won), t, Holding(s.head, won))
      case _ => true
  {
  }

  // ---------------------------------------------------------------------------------------------
  // A dequeue on its own
  // ---------------------------------------------------------------------------------------------

  /** Nobody is between taking tickets and settling them. */
  predicate Quiet(pcs: seq<PC>) {
    forall t | 0 <= t < |pcs| :: pcs[t].Idle? || pcs[t].Holding?
  }

  lemma {:induction false} NothingInFlight(pcs: seq<PC>)
    requires Quiet(pcs)
    ensures TicketsInFlight(pcs) == 0
  {
    if pcs != [] {
      assert pcs[0].Idle? || pcs[0].Holding?;
      NothingInFlight(pcs[1..]);
    }
  }

  /** The call, and then `steps` accesses of thread t alone. */
  function Lone(t: Tid, max: nat, steps: nat): seq<Action> {
    if steps == 0 then [Call(t, max)] else Lone(t, max, steps - 1) + [Run(t)]
  }

  lemma {:induction false} RunSnoc(s: State, run: seq<Action>, a: Action)
    requires Legal(s, run) && Enabled(Exec(s, run), a)
    ensures Legal(s, run + [a]) && Exec(s, run + [a]) == Apply(Exec(s, run), a)
    decreases |run|
  {
    if run == [] {
      var s1 := Apply(s, a);
      assert [a][1..] == [] && [] + [a] == [a];
      assert Legal(s1, []) && Exec(s1, []) == s1;
    } else {
      RunSnoc(Apply(s, run[0]), run[1..], a);
      assert (run + [a])[1..] == run[1..] + [a];
    }
  }

  lemma Called(s: State, t: Tid, max: nat)
    requires t < |s.pcs| && s.pcs[t].Idle?
    ensures Legal(s, Lone(t, max, 0)) && Exec(s, Lone(t, max, 0)) == Goto(s, t, LoadTail(max))
  {
    assert Legal(s, []) && Exec(s, []) == s && [] + [Call(t, max)] == [Call(t, max)];
    RunSnoc(s, [], Call(t, max));
  }

  /** One more access of thread t. */
  lemma LoneStep(s: State, t: Tid, max: nat, steps: nat, now: State)
    requires steps > 0 && Legal(s, Lone(t, max, steps - 1)) && Exec(s, Lone(t, max, steps - 1)) == now
    requires Enabled(now, Run(t))
    ensures Legal(s, Lone(t, max, steps)) && Exec(s, Lone(t, max, steps)) == RunThread(now, t)
  {
    RunSnoc(s, Lone(t, max, steps - 1), Run(t));
  }

  lemma SetTwice(s: State, t: Tid, pc: PC, pc': PC)
    requires t < |s.pcs|
    ensures Goto(Goto(s, t, pc), t, pc') == Goto(s, t, pc') && Goto(s, t, pc).pcs[t] == pc
    ensures s.pcs[t] == pc ==> Goto(s, t, pc) == s
  {
    assert s.pcs[t := pc][t := pc'] == s.pcs[t := pc'];
    assert s.pcs[t] == pc ==> s.pcs[t := pc] == s.pcs;
  }

  /** The two loads before the test. */
  lemma LoneLoads(s: State, t: Tid, max: nat)
    requires t < |s.pcs| && s.pcs[t].Idle?
    ensures Legal(s, Lone(t, max, 2)) && Exec(s, Lone(t, max, 2)) == Goto(s, t, LoadOpt(max, s.tail, s.overcommit))
  {
    hide Lone, Legal, Exec, RunThread;
    Called(s, t, max);
    var s1, s2 := Goto(s, t, LoadTail(max)), Goto(s, t, LoadOver(max, s.tail));
    LoneStep(s, t, max, 1, s1);
    OtherSteps(s1, t);
    SetTwice(s, t, LoadTail(max), LoadOver(max, s.tail));
    LoneStep(s, t, max, 2, s2);
    OtherSteps(s2, t);
    SetTwice(s, t, LoadOver(max, s.tail), LoadOpt(max, s.tail, s.overcommit));
  }

  lemma LoneFindsNothing(s: State, t: Tid, max: nat)
    requires t < |s.pcs| && s.pcs[t].Idle? && s.optimistic == s.head + s.overcommit && s.head == s.tail
    ensures Legal(s, Lone(t, max, 3)) && Exec(s, Lone(t, max, 3)) == s
  {
    hide Lone, Legal, Exec, RunThread;
    LoneLoads(s, t, max);
    var s1 := Goto(s, t, LoadOpt(max, s.tail, s.overcommit));
    LoneStep(s, t, max, 3, s1);
    SetTwice(s, t, LoadOpt(max, s.tail, s.overcommit), Idle);
    SetTwice(s, t, Idle, Idle);
    LeavesOnlyIfNoneSeen(s1, t);
  }

  /** The test passes and n tickets are taken. */
  lemma LoneTickets(s: State, t: Tid, max: nat)
    requires t < |s.pcs| && s.pcs[t].Idle? && s.optimistic == s.head + s.overcommit
    requires s.head < s.tail && s.tail - s.head < HALF
    ensures var n := Min(s.tail - s.head, max);
      Legal(s, Lone(t, max, 4)) && Exec(s, Lone(t, max, 4))
        == Goto(s.(optimistic := s.optimistic + n), t, ReloadTail(n, s.overcommit, s.optimistic))
  {
    hide Lone, Legal, Exec, RunThread;
    var n := Min(s.tail - s.head, max);
    LoneLoads(s, t, max);
    var s1, s2 := Goto(s, t, LoadOpt(max, s.tail, s.overcommit)), Goto(s, t, TakeTickets(n, s.overcommit));
    LoneStep(s, t, max, 3, s1);
    LeavesOnlyIfNoneSeen(s1, t);
    SetTwice(s, t, LoadOpt(max, s.tail, s.overcommit), TakeTickets(n, s.overcommit));
    LoneStep(s, t, max, 4, s2);
    OtherSteps(s2, t);
    SetTwice(s.(optimistic := s.optimistic + n), t, TakeTickets(n, s.overcommit), ReloadTail(n, s.overcommit, s.optimistic));
  }

  lemma LoneTakes(s: State, t: Tid, max: nat)
    requires t < |s.pcs| && s.pcs[t].Idle? && s.optimistic == s.head + s.overcommit
    requires s.head < s.tail && s.tail - s.head < HALF
    ensures var n := Min(s.tail - s.head, max);
      Legal(s, Lone(t, max, 6))
      && Exec(s, Lone(t, max, 6)) == Goto(s.(optimistic := s.optimistic + n, head := s.head + n), t, Holding(s.head, n))
  {
    hide Lone, Legal, Exec, RunThread;
    var n := Min(s.tail - s.head, max);
    LoneTickets(s, t, max);
    var taken := s.(optimistic := s.optimistic + n);
    var s3, s4 := Goto(taken, t, ReloadTail(n, s.overcommit, s.optimistic)), Goto(taken, t, AddHead(n));
    LoneStep(s, t, max, 5, s3);
    GivesUpOnlyBeyondTail(s3, t);
    SetTwice(taken, t, ReloadTail(n, s.overcommit, s.optimistic), AddHead(n));
    LoneStep(s, t, max, 6, s4);
    OtherSteps(s4, t);
    SetTwice(taken.(head := s.head + n), t, AddHead(n), Holding(s.head, n));
  }

  // ---------------------------------------------------------------------------------------------
  // Main results
  // ---------------------------------------------------------------------------------------------

  /**
   A dequeue that runs while no other is under way claims the next elements, all that are there up to
   `max`, and comes away with nothing only if nothing is there.
   */
  lemma LoneDequeueTakesWhatIsThere(s0: State, run: seq<Action>, s: State, t: Tid, max: nat)
    requires Reached(s0, run, s) && Quiet(s.pcs) && t < |s.pcs| && s.pcs[t].Idle? && s.tail - s.head < HALF
    ensures if s.head >= s.tail then Legal(s, Lone(t, max, 3)) && Exec(s, Lone(t, max, 3)) == s
      else
        var n := Min(s.tail - s.head, max);
        Legal(s, Lone(t, max, 6))
        && Exec(s, Lone(t, max, 6))
           == Goto(s.(optimistic := s.optimistic + n, head := s.head + n), t, Holding(s.head, n))
  {
    hide Lone, Legal, Exec;
    OptimisticCountBalances(s0, run, s);
    HeadNeverPassesTail(s0, run, s);
    NothingInFlight(s.pcs);
    if s.head == s.tail {
      LoneFindsNothing(s, t, max);
    } else {
      LoneTakes(s, t, max);
    }
  }
}
