/** Why a consumer that passes the second test always finds an element. */
module TicketProof {
  import opened TicketMachine

  datatype Outcome = Open | Won | Lost

  /**
   Bookkeeping the program does not have: ticket i is the i-th unit added to the optimistic count;
   `overs[i]` is the overcommit its holder had read before, `outcomes[i]` what became of it.
   */
  datatype Aux = Aux(overs: seq<nat>, outcomes: seq<Outcome>)

  function Count(outcomes: seq<Outcome>, o: Outcome): nat {
    if outcomes == [] then 0
    else Count(outcomes[..|outcomes| - 1], o) + if outcomes[|outcomes| - 1] == o then 1 else 0
  }

  lemma {:induction false} CountConcat(a: seq<Outcome>, b: seq<Outcome>, o: Outcome)
    ensures Count(a + b, o) == Count(a, o) + Count(b, o)
  {
    if b == [] {
      assert a + b == a;
    } else {
      var last := |b| - 1;
      CountConcat(a, b[..last], o);
      assert (a + b)[..|a + b| - 1] == a + b[..last];
    }
  }

  lemma {:induction false} CountConst(n: nat, x: Outcome, o: Outcome)
    ensures Count(seq(n, _ => x), o) == if x == o then n else 0
  {
    if n > 0 {
      CountConst(n - 1, x, o);
      assert seq(n, _ => x)[..n - 1] == seq(n - 1, _ => x);
    }
  }

  lemma {:induction false} CountsFit(outcomes: seq<Outcome>)
    ensures Count(outcomes, Won) + Count(outcomes, Lost) <= |outcomes|
  {
    if outcomes != [] {
      CountsFit(outcomes[..|outcomes| - 1]);
    }
  }

  /** Tickets that are lost stay lost, so no prefix has fewer of them later. */
  lemma {:induction false} LostGrows(before: seq<Outcome>, after: seq<Outcome>)
    requires |before| == |after|
    requires forall i | 0 <= i < |before| :: before[i] == Lost ==> after[i] == Lost
    ensures Count(before, Lost) <= Count(after, Lost)
  {
    if before != [] {
      var last := |before| - 1;
      LostGrows(before[..last], after[..last]);
    }
  }

  /** How many of the units of a thread are won but not yet added to head, lost but not yet to overcommit. */
  function WonBy(pc: PC): nat {
    match pc
    case AddOver(_, won) => won
    case AddHead(won) => won
    case _ => 0
  }

  function LostBy(pc: PC): nat {
    if pc.AddOver? then pc.lost else 0
  }

  /** The tickets of a thread that are not settled on either counter. */
  function InFlight(pc: PC): nat {
    WonBy(pc) + LostBy(pc) + if pc.ReloadTail? then pc.desired else 0
  }

  function WonInFlight(pcs: seq<PC>): nat {
    if pcs == [] then 0 else WonBy(pcs[0]) + WonInFlight(pcs[1..])
  }

  function LostInFlight(pcs: seq<PC>): nat {
    if pcs == [] then 0 else LostBy(pcs[0]) + LostInFlight(pcs[1..])
  }

  function TicketsInFlight(pcs: seq<PC>): nat {
    if pcs == [] then 0 else InFlight(pcs[0]) + TicketsInFlight(pcs[1..])
  }

  lemma {:induction false} SumsMove(pcs: seq<PC>, t: Tid, pc: PC)
    requires t < |pcs|
    ensures WonInFlight(pcs[t := pc]) == WonInFlight(pcs) - WonBy(pcs[t]) + WonBy(pc)
    ensures LostInFlight(pcs[t := pc]) == LostInFlight(pcs) - LostBy(pcs[t]) + LostBy(pc)
    ensures TicketsInFlight(pcs[t := pc]) == TicketsInFlight(pcs) - InFlight(pcs[t]) + InFlight(pc)
  {
    var after := pcs[t := pc];
    if t == 0 {
      assert after[1..] == pcs[1..];
    } else {
      SumsMove(pcs[1..], t - 1, pc);
      assert after[1..] == pcs[1..][t - 1 := pc];
    }
  }

  /** Open tickets of a thread between taking them and settling them. */
  predicate TicketsOk(x: Aux, pc: PC) {
    pc.ReloadTail? ==>
      && pc.mine + pc.desired <= |x.outcomes|
      && forall i | pc.mine <= i < pc.mine + pc.desired :: i < |x.overs| && x.outcomes[i] == Open && x.overs[i] == pc.over
  }

  predicate DisjointTickets(a: PC, b: PC) {
    a.ReloadTail? && b.ReloadTail? ==> a.mine + a.desired <= b.mine || b.mine + b.desired <= a.mine
  }

  /** The overcommit a thread remembers was already there when it was read. */
  predicate OverOk(s: State, x: Aux, pc: PC) {
    match pc
    case LoadOpt(_, _, over) => over <= s.overcommit
    case TakeTickets(desired, over) => over <= s.overcommit && desired < HALF
    case ReloadTail(desired, over, mine) =>
      mine <= |x.outcomes| && over <= Count(x.outcomes[..mine], Lost) && desired < HALF
    case AddOver(_, won) => won < HALF
    case AddHead(won) => won < HALF
    case Holding(first, count) => first + count <= s.head && count < HALF
    case _ => true
  }

  predicate DisjointHoldings(a: PC, b: PC) {
    a.Holding? && b.Holding? ==> a.first + a.count <= b.first || b.first + b.count <= a.first
  }

  predicate TicketHistoryOk(tail: nat, x: Aux) {
    && |x.overs| == |x.outcomes|
    && (forall i | 0 <= i < |x.overs| :: x.overs[i] <= Count(x.outcomes[..i], Lost))
    && (forall i | 0 <= i < |x.overs| :: x.outcomes[i] == Won ==> i - x.overs[i] < tail)
  }

  predicate CountersOk(s: State, x: Aux) {
    && |x.outcomes| == s.optimistic
    && s.head + WonInFlight(s.pcs) == Count(x.outcomes, Won)
    && s.overcommit + LostInFlight(s.pcs) == Count(x.outcomes, Lost)
    && s.optimistic == s.head + s.overcommit + TicketsInFlight(s.pcs)
  }

  predicate ThreadsOk(s: State, x: Aux) {
    forall t | 0 <= t < |s.pcs| :: TicketsOk(x, s.pcs[t]) && OverOk(s, x, s.pcs[t])
  }

  predicate ThreadsDisjoint(pcs: seq<PC>) {
    forall t, u | 0 <= t < u < |pcs| :: DisjointTickets(pcs[t], pcs[u]) && DisjointHoldings(pcs[t], pcs[u])
  }

  predicate Inv(s: State, x: Aux) {
    CountersOk(s, x) && TicketHistoryOk(s.tail, x) && ThreadsOk(s, x) && ThreadsDisjoint(s.pcs)
  }

  /**
   The counting argument: if the last winner has ticket i, then of the tickets up to i at least
   `overs[i]` are lost, so no more than i + 1 - overs[i] <= tail can have won.
   */
  lemma {:induction false} WinnersFit(tail: nat, x: Aux, n: nat)
    requires TicketHistoryOk(tail, x) && n <= |x.outcomes|
    ensures Count(x.outcomes[..n], Won) <= tail
  {
    if n > 0 {
      var prefix := x.outcomes[..n];
      assert prefix[..n - 1] == x.outcomes[..n - 1];
      if x.outcomes[n - 1] == Won {
        CountsFit(x.outcomes[..n - 1]);
      } else {
        WinnersFit(tail, x, n - 1);
      }
    }
  }

  lemma WordArithmetic(tail: nat, count: nat, over: nat)
    requires NoLap(tail, count, over)
    ensures CircularLess(0, Available(tail, count, over)) <==> count - over < tail
    ensures count - over < tail ==> Available(tail, count, over) == tail - (count - over)
  {
    hide WordSub, Word, CircularLess;
    WordSubIsWord(count, over);
    WordSubIsWord(tail, count - over);
    NearWord(tail - (count - over));
  }

  /** The word of a number within half the word range: positive exactly if the test says so. */
  lemma NearWord(x: int)
    requires 0 <= x + HALF && x < HALF
    ensures CircularLess(0, Word(x)) <==> 0 < x
    ensures 0 < x ==> Word(x) == x
  {
    assert Word(x) == if x < 0 then x + WORDS else x;
  }

  /** Subtracting words is subtracting the numbers they stand for. */
  lemma WordSubIsWord(a: int, b: int)
    ensures WordSub(Word(a), Word(b)) == Word(a - b)
  {
    var qa, qb := a / WORDS, b / WORDS;
    assert a == qa * WORDS + Word(a) && b == qb * WORDS + Word(b);
    WordShift(a - b, qb - qa);
    assert a - b + (qb - qa) * WORDS == Word(a) - Word(b);
  }

  lemma WordShift(x: int, k: int)
    ensures (x + k * WORDS) % WORDS == x % WORDS
  {
  }

  lemma Negated(a: nat, b: nat)
    requires a < WORDS && b < WORDS
    ensures WordSub(0, WordSub(b, a)) == WordSub(a, b)
  {
    assert WordSub(b, a) == if a <= b then b - a else b - a + WORDS;
    assert WordSub(a, b) == if b <= a then a - b else a - b + WORDS;
  }

  lemma WordsAreSmall(x: int, a: nat, b: nat)
    ensures Word(x) < WORDS && WordSub(a, b) < WORDS
  {
  }

  /** The test of `dequeue` and the test of `dequeue_bulk` are one test. */
  lemma SingleTestIsBulkTest(tail: nat, count: nat, over: nat)
    ensures CircularLess(WordSub(Word(count), Word(over)), Word(tail)) <==> CircularLess(0, Available(tail, count, over))
  {
    hide WordSub, Word;
    WordsAreSmall(tail, Word(count), Word(over));
    Negated(WordSub(Word(count), Word(over)), Word(tail));
  }

  // ---------------------------------------------------------------------------------------------
  // The invariant holds initially and every action keeps it
  // ---------------------------------------------------------------------------------------------

  lemma {:induction false} IdleSums(pcs: seq<PC>)
    requires forall t | 0 <= t < |pcs| :: pcs[t].Idle?
    ensures WonInFlight(pcs) == LostInFlight(pcs) == TicketsInFlight(pcs) == 0
  {
    if pcs != [] {
      IdleSums(pcs[1..]);
    }
  }

  lemma InitialInv(s: State)
    requires Initial(s)
    ensures Inv(s, Aux([], []))
  {
    IdleSums(s.pcs);
    var x := Aux([], []);
    assert Count(x.outcomes, Won) == 0 && Count(x.outcomes, Lost) == 0;
    forall t | 0 <= t < |s.pcs| ensures TicketsOk(x, s.pcs[t]) && OverOk(s, x, s.pcs[t]) {
      assert s.pcs[t] == Idle;
    }
    forall t, u | 0 <= t < u < |s.pcs|
      ensures DisjointTickets(s.pcs[t], s.pcs[u]) && DisjointHoldings(s.pcs[t], s.pcs[u])
    {
      assert s.pcs[t] == Idle && s.pcs[u] == Idle;
    }
  }

  /** How many of `desired` tickets from `mine` on find an element below `tail`. */
  function Winners(tail: nat, mine: nat, over: nat, desired: nat): nat {
    if tail <= mine - over then 0 else Min(desired, tail - (mine - over))
  }

  function Decide(outcomes: seq<Outcome>, mine: nat, desired: nat, won: nat): seq<Outcome>
    requires mine + desired <= |outcomes| && won <= desired
  {
    outcomes[..mine] + seq(won, _ => Won) + seq(desired - won, _ => Lost) + outcomes[mine + desired..]
  }

  function NextAux(s: State, x: Aux, a: Action): Aux
    requires Enabled(s, a)
  {
    if a.Run? && s.pcs[a.t].TakeTickets? then
      var pc := s.pcs[a.t];
      Aux(x.overs + seq(pc.desired, _ => pc.over), x.outcomes + seq(pc.desired, _ => Open))
    else if a.Run? && s.pcs[a.t].ReloadTail? && s.pcs[a.t].mine + s.pcs[a.t].desired <= |x.outcomes| then
      var pc := s.pcs[a.t];
      x.(outcomes := Decide(x.outcomes, pc.mine, pc.desired, Winners(s.tail, pc.mine, pc.over, pc.desired)))
    else x
  }

  /** A step that leaves the ticket history alone. */
  lemma CounterStepInv(s: State, x: Aux, s': State, t: Tid, pc: PC)
    requires Inv(s, x) && t < |s.pcs| && s'.pcs == s.pcs[t := pc]
    requires s'.tail == s.tail && s'.optimistic == s.optimistic
    requires s'.head + WonBy(pc) == s.head + WonBy(s.pcs[t]) && s.head <= s'.head
    requires s'.overcommit + LostBy(pc) == s.overcommit + LostBy(s.pcs[t]) && s.overcommit <= s'.overcommit
    requires !s.pcs[t].ReloadTail? && !pc.ReloadTail? && OverOk(s', x, pc)
    requires pc.Holding? ==> pc.first == s.head && pc.first + pc.count == s'.head
    ensures Inv(s', x)
  {
    SumsMove(s.pcs, t, pc);
    forall u | 0 <= u < |s'.pcs| ensures TicketsOk(x, s'.pcs[u]) && OverOk(s', x, s'.pcs[u]) {
      assert TicketsOk(x, s.pcs[u]) && OverOk(s, x, s.pcs[u]);
    }
  }

  lemma EnqueuedInv(s: State, x: Aux)
    requires Inv(s, x)
    ensures Inv(s.(tail := s.tail + 1), x)
  {
    forall u | 0 <= u < |s.pcs| ensures TicketsOk(x, s.pcs[u]) && OverOk(s.(tail := s.tail + 1), x, s.pcs[u]) {
      assert TicketsOk(x, s.pcs[u]) && OverOk(s, x, s.pcs[u]);
    }
  }

  lemma TakenHistory(tail: nat, x: Aux, over: nat, desired: nat)
    requires TicketHistoryOk(tail, x) && over <= Count(x.outcomes, Lost)
    ensures TicketHistoryOk(tail, Aux(x.overs + seq(desired, _ => over), x.outcomes + seq(desired, _ => Open)))
  {
    var n := |x.outcomes|;
    var outcomes := x.outcomes + seq(desired, _ => Open);
    var overs := x.overs + seq(desired, _ => over);
    forall i | 0 <= i < n + desired ensures overs[i] <= Count(outcomes[..i], Lost) {
      if i < n {
        assert outcomes[..i] == x.outcomes[..i];
      } else {
        assert outcomes[..i] == x.outcomes + seq(i - n, _ => Open);
        CountConcat(x.outcomes, seq(i - n, _ => Open), Lost);
      }
    }
  }

  lemma TakenCounters(s: State, x: Aux, t: Tid)
    requires CountersOk(s, x) && t < |s.pcs| && s.pcs[t].TakeTickets?
    ensures CountersOk(RunThread(s, t), NextAux(s, x, Run(t)))
  {
    var desired := s.pcs[t].desired;
    CountConcat(x.outcomes, seq(desired, _ => Open), Won);
    CountConcat(x.outcomes, seq(desired, _ => Open), Lost);
    CountConst(desired, Open, Won);
    CountConst(desired, Open, Lost);
    SumsMove(s.pcs, t, RunThread(s, t).pcs[t]);
  }

  lemma OthersAfterTake(s: State, x: Aux, s': State, x': Aux, u: Tid)
    requires u < |s.pcs| && TicketsOk(x, s.pcs[u]) && OverOk(s, x, s.pcs[u])
    requires s'.head == s.head && s'.overcommit == s.overcommit
    requires x.outcomes <= x'.outcomes && x.overs <= x'.overs && |x.overs| == |x.outcomes|
    ensures TicketsOk(x', s.pcs[u]) && OverOk(s', x', s.pcs[u])
  {
    if s.pcs[u].ReloadTail? {
      assert x'.outcomes[..s.pcs[u].mine] == x.outcomes[..s.pcs[u].mine];
    }
  }

  lemma TakeTicketsInv(s: State, x: Aux, t: Tid)
    requires Inv(s, x) && t < |s.pcs| && s.pcs[t].TakeTickets?
    ensures Inv(RunThread(s, t), NextAux(s, x, Run(t)))
  {
    var TakeTickets(desired, over) := s.pcs[t];
    var s', x' := RunThread(s, t), NextAux(s, x, Run(t));
    assert OverOk(s, x, s.pcs[t]);
    TakenHistory(s.tail, x, over, desired);
    TakenCounters(s, x, t);
    assert x'.outcomes[..|x.outcomes|] == x.outcomes;
    forall u | 0 <= u < |s.pcs| && u != t
      ensures TicketsOk(x', s.pcs[u]) && OverOk(s', x', s.pcs[u])
    {
      OthersAfterTake(s, x, s', x', u);
    }
    forall u | 0 <= u < |s.pcs| && u != t
      ensures DisjointTickets(s.pcs[u], s'.pcs[t]) && DisjointTickets(s'.pcs[t], s.pcs[u])
    {
      assert TicketsOk(x, s.pcs[u]);
    }
  }

  lemma DecideCounts(outcomes: seq<Outcome>, mine: nat, desired: nat, won: nat)
    requires mine + desired <= |outcomes| && won <= desired
    requires forall i | mine <= i < mine + desired :: outcomes[i] == Open
    ensures var after := Decide(outcomes, mine, desired, won);
      && |after| == |outcomes|
      && Count(after, Won) == Count(outcomes, Won) + won
      && Count(after, Lost) == Count(outcomes, Lost) + desired - won
  {
    var before, rest := outcomes[..mine], outcomes[mine + desired..];
    assert outcomes == before + seq(desired, _ => Open) + rest;
    forall o: Outcome
      ensures Count(outcomes, o) == Count(before, o) + Count(seq(desired, _ => Open), o) + Count(rest, o)
      ensures Count(Decide(outcomes, mine, desired, won), o) ==
              Count(before, o) + Count(seq(won, _ => Won), o) + Count(seq(desired - won, _ => Lost), o) + Count(rest, o)
    {
      CountConcat(before, seq(desired, _ => Open), o);
      CountConcat(before + seq(desired, _ => Open), rest, o);
      CountConcat(before, seq(won, _ => Won), o);
      CountConcat(before + seq(won, _ => Won), seq(desired - won, _ => Lost), o);
      CountConcat(before + seq(won, _ => Won) + seq(desired - won, _ => Lost), rest, o);
    }
    CountConst(desired, Open, Won);
    CountConst(desired, Open, Lost);
    CountConst(won, Won, Won);
    CountConst(won, Won, Lost);
    CountConst(desired - won, Lost, Won);
    CountConst(desired - won, Lost, Lost);
  }

  lemma DecidedOutcomes(tail: nat, outcomes: seq<Outcome>, mine: nat, over: nat, desired: nat)
    requires mine + desired <= |outcomes|
    ensures var after := Decide(outcomes, mine, desired, Winners(tail, mine, over, desired));
      && |after| == |outcomes|
      && (forall i | mine <= i < mine + desired :: after[i] == Won ==> i - over < tail)
      && (forall i | 0 <= i < |outcomes| && !(mine <= i < mine + desired) :: after[i] == outcomes[i])
  {
  }

  lemma DecidedHistory(tail: nat, x: Aux, mine: nat, over: nat, desired: nat)
    requires TicketHistoryOk(tail, x) && mine + desired <= |x.outcomes|
    requires forall i | mine <= i < mine + desired :: x.outcomes[i] == Open && x.overs[i] == over
    ensures TicketHistoryOk(tail, x.(outcomes := Decide(x.outcomes, mine, desired, Winners(tail, mine, over, desired))))
    ensures forall i | 0 <= i <= |x.outcomes| ::
              Count(x.outcomes[..i], Lost)
              <= Count(Decide(x.outcomes, mine, desired, Winners(tail, mine, over, desired))[..i], Lost)
  {
    hide Decide, Count;
    var after := Decide(x.outcomes, mine, desired, Winners(tail, mine, over, desired));
    DecidedOutcomes(tail, x.outcomes, mine, over, desired);
    forall i | 0 <= i <= |x.outcomes| ensures Count(x.outcomes[..i], Lost) <= Count(after[..i], Lost) {
      LostGrows(x.outcomes[..i], after[..i]);
    }
  }

  /** The branch the consumer takes on the words it computes is the branch for the true numbers. */
  lemma SettleMatches(tail: nat, mine: nat, over: nat, desired: nat)
    requires NoLap(tail, mine, over)
    ensures var pc, won := Settle(desired, Available(tail, mine, over)), Winners(tail, mine, over, desired);
      (pc.AddOver? || pc.AddHead?) && WonBy(pc) == won && LostBy(pc) == desired - won && won <= desired
  {
    WordArithmetic(tail, mine, over);
  }

  lemma OthersAfterDecide(s: State, x: Aux, s': State, x': Aux, t: Tid)
    requires ThreadsOk(s, x) && ThreadsDisjoint(s.pcs) && t < |s.pcs| && s.pcs[t].ReloadTail?
    requires |s'.pcs| == |s.pcs| && s'.head == s.head && s'.overcommit == s.overcommit
    requires s.pcs[t].mine + s.pcs[t].desired <= |x.outcomes| == |x'.outcomes| && x'.overs == x.overs
    requires forall i | 0 <= i < |x.outcomes| && !(s.pcs[t].mine <= i < s.pcs[t].mine + s.pcs[t].desired) ::
               x'.outcomes[i] == x.outcomes[i]
    requires forall i | 0 <= i <= |x.outcomes| :: Count(x.outcomes[..i], Lost) <= Count(x'.outcomes[..i], Lost)
    ensures forall u | 0 <= u < |s.pcs| && u != t :: TicketsOk(x', s.pcs[u]) && OverOk(s', x', s.pcs[u])
  {
    hide TicketsOk, OverOk, DisjointTickets, Count;
    forall u | 0 <= u < |s.pcs| && u != t ensures TicketsOk(x', s.pcs[u]) && OverOk(s', x', s.pcs[u]) {
      assert TicketsOk(x, s.pcs[u]) && OverOk(s, x, s.pcs[u]);
      assert if u < t then DisjointTickets(s.pcs[u], s.pcs[t]) else DisjointTickets(s.pcs[t], s.pcs[u]);
      OtherAfterDecide(s, x, s', x', s.pcs[t], s.pcs[u]);
    }
  }

  lemma OtherAfterDecide(s: State, x: Aux, s': State, x': Aux, mover: PC, pc: PC)
    requires mover.ReloadTail? && TicketsOk(x, pc) && OverOk(s, x, pc)
    requires DisjointTickets(pc, mover) || DisjointTickets(mover, pc)
    requires s'.head == s.head && s'.overcommit == s.overcommit
    requires mover.mine + mover.desired <= |x.outcomes| == |x'.outcomes| && x'.overs == x.overs
    requires forall i | 0 <= i < |x.outcomes| && !(mover.mine <= i < mover.mine + mover.desired) ::
               x'.outcomes[i] == x.outcomes[i]
    requires forall i | 0 <= i <= |x.outcomes| :: Count(x.outcomes[..i], Lost) <= Count(x'.outcomes[..i], Lost)
    ensures TicketsOk(x', pc) && OverOk(s', x', pc)
  {
    hide Count, TicketsOk;
    if pc.ReloadTail? {
      assert Count(x.outcomes[..pc.mine], Lost) <= Count(x'.outcomes[..pc.mine], Lost);
    }
    OtherTickets(x, x', mover, pc);
  }

  lemma OtherTickets(x: Aux, x': Aux, mover: PC, pc: PC)
    requires mover.ReloadTail? && TicketsOk(x, pc) && (DisjointTickets(pc, mover) || DisjointTickets(mover, pc))
    requires mover.mine + mover.desired <= |x.outcomes| == |x'.outcomes| && x'.overs == x.overs
    requires forall i | 0 <= i < |x.outcomes| && !(mover.mine <= i < mover.mine + mover.desired) ::
               x'.outcomes[i] == x.outcomes[i]
    ensures TicketsOk(x', pc)
  {
  }

  lemma DecideKeepsOthers(outcomes: seq<Outcome>, mine: nat, desired: nat, won: nat)
    requires mine + desired <= |outcomes| && won <= desired
    ensures var after := Decide(outcomes, mine, desired, won);
      && |after| == |outcomes|
      && forall i | 0 <= i < |outcomes| && !(mine <= i < mine + desired) :: after[i] == outcomes[i]
  {
  }

  lemma ReloadTailThreads(s: State, x: Aux, t: Tid, pc: PC, x': Aux)
    requires ThreadsOk(s, x) && ThreadsDisjoint(s.pcs) && t < |s.pcs| && s.pcs[t].ReloadTail? && |x.overs| == |x.outcomes|
    requires s.pcs[t].mine + s.pcs[t].desired <= |x.outcomes| && x'.overs == x.overs
    requires x'.outcomes == Decide(x.outcomes, s.pcs[t].mine, s.pcs[t].desired,
                                   Winners(s.tail, s.pcs[t].mine, s.pcs[t].over, s.pcs[t].desired))
    requires forall i | 0 <= i <= |x.outcomes| :: i <= |x'.outcomes| && Count(x.outcomes[..i], Lost) <= Count(x'.outcomes[..i], Lost)
    requires (pc.AddOver? || pc.AddHead?) && WonBy(pc) <= s.pcs[t].desired
    ensures ThreadsOk(Goto(s, t, pc), x') && ThreadsDisjoint(s.pcs[t := pc])
  {
    var ReloadTail(desired, over, mine) := s.pcs[t];
    assert OverOk(s, x, s.pcs[t]);
    DecideKeepsOthers(x.outcomes, mine, desired, Winners(s.tail, mine, over, desired));
    OthersAfterDecide(s, x, Goto(s, t, pc), x', t);
  }

  lemma ReloadTailCounters(s: State, x: Aux, t: Tid, pc: PC, won: nat)
    requires CountersOk(s, x) && t < |s.pcs| && s.pcs[t].ReloadTail?
    requires TicketsOk(x, s.pcs[t]) && |x.overs| == |x.outcomes| && won <= s.pcs[t].desired
    requires (pc.AddOver? || pc.AddHead?) && WonBy(pc) == won && LostBy(pc) == s.pcs[t].desired - won
    ensures CountersOk(Goto(s, t, pc), x.(outcomes := Decide(x.outcomes, s.pcs[t].mine, s.pcs[t].desired, won)))
  {
    DecideCounts(x.outcomes, s.pcs[t].mine, s.pcs[t].desired, won);
    SumsMove(s.pcs, t, pc);
  }

  lemma ReloadTailInv(s: State, x: Aux, t: Tid)
    requires Inv(s, x) && t < |s.pcs| && s.pcs[t].ReloadTail? && NoLap(s.tail, s.pcs[t].mine, s.pcs[t].over)
    ensures Inv(RunThread(s, t), NextAux(s, x, Run(t)))
  {
    var ReloadTail(desired, over, mine) := s.pcs[t];
    assert TicketsOk(x, s.pcs[t]);
    var pc := Settle(desired, Available(s.tail, mine, over));
    SettleMatches(s.tail, mine, over, desired);
    DecidedHistory(s.tail, x, mine, over, desired);
    ReloadTailCounters(s, x, t, pc, Winners(s.tail, mine, over, desired));
    ReloadTailThreads(s, x, t, pc, NextAux(s, x, Run(t)));
    assert Goto(s, t, pc) == RunThread(s, t);
  }

  lemma HopeIsSmall(hope: nat)
    requires hope < WORDS && CircularLess(0, hope)
    ensures 0 < hope < HALF
  {
    assert WordSub(0, hope) == if hope == 0 then 0 else WORDS - hope;
  }

  lemma LoadOptInv(s: State, x: Aux, t: Tid)
    requires Inv(s, x) && t < |s.pcs| && s.pcs[t].LoadOpt?
    ensures Inv(RunThread(s, t), x)
  {
    var LoadOpt(max, tail, over) := s.pcs[t];
    assert OverOk(s, x, s.pcs[t]);
    var hope := Available(tail, s.optimistic, over);
    if CircularLess(0, hope) {
      HopeIsSmall(hope);
      CounterStepInv(s, x, RunThread(s, t), t, TakeTickets(Min(hope, max), over));
    } else {
      CounterStepInv(s, x, RunThread(s, t), t, Idle);
    }
  }

  lemma ActionInv(s: State, x: Aux, a: Action)
    requires Inv(s, x) && Enabled(s, a)
    ensures Inv(Apply(s, a), NextAux(s, x, a))
  {
    match a
    case Enqueued => EnqueuedInv(s, x);
    case Call(t, max) => CounterStepInv(s, x, Apply(s, a), t, LoadTail(max));
    case Release(t) => CounterStepInv(s, x, Apply(s, a), t, Idle);
    case Run(t) =>
      assert OverOk(s, x, s.pcs[t]);
      if s.pcs[t].TakeTickets? {
        TakeTicketsInv(s, x, t);
      } else if s.pcs[t].ReloadTail? {
        ReloadTailInv(s, x, t);
      } else if s.pcs[t].LoadOpt? {
        LoadOptInv(s, x, t);
      } else {
        CounterStepInv(s, x, Apply(s, a), t, Apply(s, a).pcs[t]);
      }
  }

  function AuxAfter(s: State, x: Aux, run: seq<Action>): Aux
    requires Legal(s, run)
    decreases |run|
  {
    if run == [] then x else AuxAfter(Apply(s, run[0]), NextAux(s, x, run[0]), run[1..])
  }

  lemma {:induction false} RunInv(s: State, x: Aux, run: seq<Action>)
    requires Inv(s, x) && Legal(s, run)
    ensures Inv(Exec(s, run), AuxAfter(s, x, run))
    decreases |run|
  {
    if run != [] {
      ActionInv(s, x, run[0]);
      RunInv(Apply(s, run[0]), NextAux(s, x, run[0]), run[1..]);
    }
  }

  /** The invariant bounds head, also counting the winners that have not added themselves yet. */
  lemma HeadBelowTail(s: State, x: Aux)
    requires Inv(s, x)
    ensures s.head + WonInFlight(s.pcs) <= s.tail
  {
    WinnersFit(s.tail, x, |x.outcomes|);
    assert x.outcomes[..|x.outcomes|] == x.outcomes;
  }

  // ---------------------------------------------------------------------------------------------
  // Main results
  // ---------------------------------------------------------------------------------------------

  predicate Reached(s0: State, run: seq<Action>, s: State) {
    Initial(s0) && Legal(s0, run) && Exec(s0, run) == s
  }

  lemma ReachedInv(s0: State, run: seq<Action>, s: State) returns (x: Aux)
    requires Reached(s0, run, s)
    ensures Inv(s, x)
  {
    InitialInv(s0);
    RunInv(s0, Aux([], []), run);
    x := AuxAfter(s0, Aux([], []), run);
  }

  /** Head never passes tail, not even when every consumer that has decided to take adds its share. */
  lemma HeadNeverPassesTail(s0: State, run: seq<Action>, s: State)
    requires Reached(s0, run, s)
    ensures s.head <= s.head + WonInFlight(s.pcs) <= s.tail
  {
    var x := ReachedInv(s0, run, s);
    HeadBelowTail(s, x);
  }

  /** The optimistic count is head plus overcommit plus the tickets on their way to one of the two. */
  lemma OptimisticCountBalances(s0: State, run: seq<Action>, s: State)
    requires Reached(s0, run, s)
    ensures s.optimistic == s.head + s.overcommit + TicketsInFlight(s.pcs)
  {
    var x := ReachedInv(s0, run, s);
  }

  /** The assertions on lines 1913 and 2177: the overcommit read before is at most the ticket taken. */
  lemma OvercommitAtMostTicket(s0: State, run: seq<Action>, s: State, t: Tid)
    requires Reached(s0, run, s) && t < |s.pcs| && s.pcs[t].ReloadTail?
    ensures s.pcs[t].over <= s.pcs[t].mine
  {
    var x := ReachedInv(s0, run, s);
    assert OverOk(s, x, s.pcs[t]);
    CountsFit(x.outcomes[..s.pcs[t].mine]);
  }

  /** The index ranges consumers were given along a run, in the order they were given. */
  function Claims(s: State, run: seq<Action>): seq<(nat, nat)>
    requires Legal(s, run)
    decreases |run|
  {
    if run == [] then []
    else (if run[0].Run? && s.pcs[run[0].t].AddHead? then [(s.head, s.pcs[run[0].t].won)] else [])
         + Claims(Apply(s, run[0]), run[1..])
  }

  /** Consecutive ranges from `lo` to `hi`: no index twice, none left out. */
  predicate Tile(claims: seq<(nat, nat)>, lo: nat, hi: nat)
    decreases |claims|
  {
    if claims == [] then lo == hi
    else claims[0].0 == lo && Tile(claims[1..], lo + claims[0].1, hi)
  }

  lemma {:induction false} ClaimsTile(s: State, run: seq<Action>)
    requires Legal(s, run)
    ensures Tile(Claims(s, run), s.head, Exec(s, run).head)
    decreases |run|
  {
    if run != [] {
      ClaimsTile(Apply(s, run[0]), run[1..]);
      if run[0].Run? && s.pcs[run[0].t].AddHead? {
        assert Claims(s, run)[1..] == Claims(Apply(s, run[0]), run[1..]);
      } else {
        assert Claims(s, run) == Claims(Apply(s, run[0]), run[1..]);
      }
    }
  }

  /** Over any run, indices 0, 1, 2, ... go to consumers one range after the other, all below tail. */
  lemma EveryIndexClaimedOnce(s0: State, run: seq<Action>, s: State)
    requires Reached(s0, run, s)
    ensures Tile(Claims(s0, run), 0, s.head) && s.head <= s.tail
  {
    ClaimsTile(s0, run);
    HeadNeverPassesTail(s0, run, s);
  }
}
