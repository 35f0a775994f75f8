/**
 What the calls on the free list achieve: alone, `try_get` takes the first node and `add` puts one in front;
 among others, `try_get` comes back without a node only if it has seen the list empty.
 */
module FreeListProgress {
  import opened Wrappers
  import opened FreeListMachine
  import opened FreeListProof
  import opened FreeListTheorems

  // ---------------------------------------------------------------------------------------------
  // Coming back without a node
  // ---------------------------------------------------------------------------------------------

  predicate ReadsHead(pc: PC) {
    pc.GetLoadHead? || pc.GetCasHead?
  }

  /** Whether thread t, since its last call of `try_get`, has read the head and found none. */
  function SeenNext(s: State, a: Action, t: Tid, seen: bool): bool
    requires Enabled(s, a)
  {
    if a == CallTryGet(t) then false
    else seen || (a == Run(t) && ReadsHead(s.pcs[t]) && s.head == None)
  }

  function SeenEmpty(s: State, run: seq<Action>, t: Tid, seen: bool): bool
    requires Legal(s, run)
    decreases |run|
  {
    if run == [] then seen else SeenEmpty(Apply(s, run[0]), run[1..], t, SeenNext(s, run[0], t, seen))
  }

  /** Inside `try_get`, also while publishing a node on the way. */
  predicate InTryGet(pc: PC) {
    match pc
    case Idle => false
    case AddStart(_) => false
    case PubLoadHead(_, k) => k.RetryGet?
    case PubStoreNext(_, _, k) => k.RetryGet?
    case PubStoreRefs(_, _, k) => k.RetryGet?
    case PubCasHead(_, _, k) => k.RetryGet?
    case PubGiveBack(_, _, k) => k.RetryGet?
    case _ => true
  }

  /** The thread carries an empty head to the test of the loop. */
  predicate CarriesNone(pc: PC) {
    match pc
    case GetSubOne(_, h) => h == None
    case PubLoadHead(_, k) => k == RetryGet(None)
    case PubStoreNext(_, _, k) => k == RetryGet(None)
    case PubStoreRefs(_, _, k) => k == RetryGet(None)
    case PubCasHead(_, _, k) => k == RetryGet(None)
    case PubGiveBack(_, _, k) => k == RetryGet(None)
    case _ => false
  }

  lemma CarriesStep(s: State, a: Action, t: Tid, seen: bool)
    requires Enabled(s, a) && t in s.pcs && (CarriesNone(s.pcs[t]) ==> seen)
    ensures t in Apply(s, a).pcs && (CarriesNone(Apply(s, a).pcs[t]) ==> SeenNext(s, a, t, seen))
  {
    hide FetchAdd, FetchSub, LowBits;
  }

  lemma {:induction false} CarriesOnlySeen(s: State, run: seq<Action>, t: Tid, seen: bool)
    requires Legal(s, run) && t in s.pcs && (CarriesNone(s.pcs[t]) ==> seen)
    ensures t in Exec(s, run).pcs && (CarriesNone(Exec(s, run).pcs[t]) ==> SeenEmpty(s, run, t, seen))
    decreases |run|
  {
    hide Apply, CarriesNone, SeenNext;
    if run != [] {
      CarriesStep(s, run[0], t, seen);
      CarriesOnlySeen(Apply(s, run[0]), run[1..], t, SeenNext(s, run[0], t, seen));
    }
  }

  lemma {:induction false} SeenConcat(s: State, run: seq<Action>, a: Action, t: Tid, seen: bool)
    requires Legal(s, run) && Enabled(Exec(s, run), a)
    ensures Legal(s, run + [a])
    ensures SeenEmpty(s, run + [a], t, seen) == SeenNext(Exec(s, run), a, t, SeenEmpty(s, run, t, seen))
    decreases |run|
  {
    hide Apply, SeenNext, Enabled;
    if run == [] {
      NoSteps(Apply(s, a));
      assert run + [a] == [a] && [a][1..] == [];
    } else {
      assert (run + [a])[1..] == run[1..] + [a];
      SeenConcat(Apply(s, run[0]), run[1..], a, t, SeenNext(s, run[0], t, seen));
    }
  }

  /** How a call of `try_get` ends: with a node, or at the test of the loop with an empty head. */
  lemma GetEnds(s: State, t: Tid)
    requires Enabled(s, Run(t)) && InTryGet(s.pcs[t]) && Apply(s, Run(t)).pcs[t] == Idle
    ensures if s.pcs[t].GetSubTwo? then Apply(s, Run(t)).owned == s.owned + {s.pcs[t].head}
            else CarriesNone(s.pcs[t]) || (ReadsHead(s.pcs[t]) && s.head == None)
  {
    hide FetchAdd, FetchSub, LowBits;
  }

  /** `try_get` returns the node it has taken, or has seen the list empty during the call. */
  lemma GivesUpOnlyIfSeenEmpty(s0: State, run: seq<Action>, s: State, t: Tid)
    requires Reached(s0, run, s) && Enabled(s, Run(t)) && InTryGet(s.pcs[t]) && Apply(s, Run(t)).pcs[t] == Idle
    ensures Legal(s0, run + [Run(t)])
    ensures if s.pcs[t].GetSubTwo? then Apply(s, Run(t)).owned == s.owned + {s.pcs[t].head}
            else SeenEmpty(s0, run + [Run(t)], t, false)
  {
    ThreadsStay(s0, run);
    CarriesOnlySeen(s0, run, t, false);
    SeenConcat(s0, run, Run(t), t, false);
    GetEnds(s, t);
  }

  lemma {:induction false} ThreadsStay(s: State, run: seq<Action>)
    requires Legal(s, run)
    ensures Exec(s, run).pcs.Keys == s.pcs.Keys
    decreases |run|
  {
    if run != [] {
      ThreadsStay(Apply(s, run[0]), run[1..]);
    }
  }

  // ---------------------------------------------------------------------------------------------
  // Alone
  // ---------------------------------------------------------------------------------------------

  predicate Quiescent(s: State) {
    forall t <- s.pcs :: s.pcs[t] == Idle
  }

  /** Calls of the other threads have returned, so the counts are those of the list alone. */
  lemma QuiescentCounts(s0: State, run: seq<Action>, s: State) returns (list: seq<Node>)
    requires Reached(s0, run, s) && Quiescent(s)
    ensures FreeListIs(s, list) && s.refs.Keys == s.next.Keys && s.owned <= s.next.Keys
    ensures forall n <- list :: n in s.next && n !in s.owned && s.refs[n] == 1
    ensures forall n <- s.owned :: s.refs[n] == 0 && n !in list
  {
    var x := ReachedInv(s0, run, s);
    list := x.list;
    forall n <- s.refs
      ensures (n in list <==> n !in s.owned) && s.refs[n] == if n in list then 1 else 0
    {
      NodeFacts(s, x, n);
      assert Holders(s.pcs, n) == {};
    }
  }

  /** The actions are this call of thread t and then accesses of t; t is idle before, so they are one call. */
  predicate IsCall(steps: seq<Action>, call: Action, t: Tid) {
    steps != [] && steps[0] == call && forall i | 0 < i < |steps| :: steps[i] == Run(t)
  }

  predicate OnlyRuns(steps: seq<Action>, t: Tid) {
    forall a <- steps :: a == Run(t)
  }

  lemma Begin(s: State, call: Action) returns (s': State, run: seq<Action>)
    requires Enabled(s, call)
    ensures s' == Apply(s, call) && run == [call] && Legal(s, run) && Exec(s, run) == s'
  {
    s', run := Apply(s, call), [call];
    assert run[1..] == [];
    NoSteps(s');
  }

  /** One more access of t. */
  lemma RunOn(s0: State, run: seq<Action>, s: State, t: Tid) returns (s': State, run': seq<Action>)
    requires Legal(s0, run) && Exec(s0, run) == s && Enabled(s, Run(t))
    ensures s' == Apply(s, Run(t)) && Legal(s0, run') && Exec(s0, run') == s' && run' == run + [Run(t)]
  {
    hide Apply, Enabled, Legal, Exec;
    var next, last := Begin(s, Run(t));
    ExecConcat(s0, run, last);
    s', run' := next, run + last;
  }

  lemma CallJoins(first: seq<Action>, rest: seq<Action>, call: Action, t: Tid)
    requires IsCall(first, call, t) && OnlyRuns(rest, t)
    ensures IsCall(first + rest, call, t)
  {
    var all := first + rest;
    forall i | 0 < i < |all|
      ensures all[i] == Run(t)
    {
      assert i >= |first| ==> rest[i - |first|] in rest;
    }
  }

  lemma GotoTwice(s: State, t: Tid, pc: PC, pc': PC)
    ensures Goto(Goto(s, t, pc), t, pc') == Goto(s, t, pc')
  {
    assert s.pcs[t := pc][t := pc'] == s.pcs[t := pc'];
  }

  lemma GotoIdle(s: State, t: Tid)
    requires t in s.pcs && s.pcs[t] == Idle
    ensures Goto(s, t, Idle) == s
  {
    assert s.pcs[t := Idle] == s.pcs;
  }

  /** The state with the node taken off. */
  function Popped(s: State, h: Node): State {
    s.(head := NextOf(s, h), refs := s.refs[h := 0], owned := s.owned + {h})
  }

  /** The state with the node put in front. */
  function Pushed(s: State, n: Node): State {
    s.(head := Some(n), next := s.next[n := s.head], refs := s.refs[n := 1], owned := s.owned - {n})
  }

  lemma GetNothing(s: State, t: Tid) returns (steps: seq<Action>)
    requires t in s.pcs && s.pcs[t] == Idle && s.head == None
    ensures IsCall(steps, CallTryGet(t), t) && Legal(s, steps) && Exec(s, steps) == s
  {
    hide Legal, Exec;
    var now;
    now, steps := Begin(s, CallTryGet(t));
    assert now == Goto(s, t, GetLoadHead);
    now, steps := RunOn(s, steps, now, t);
    GotoTwice(s, t, GetLoadHead, Idle);
    GotoIdle(s, t);
  }

  /** The first accesses of `try_get`, up to the counted reference. */
  lemma GetReference(s: State, t: Tid, h: Node) returns (steps: seq<Action>)
    requires t in s.pcs && s.pcs[t] == Idle && s.head == Some(h) && h in s.refs && s.refs[h] == 1
    ensures IsCall(steps, CallTryGet(t), t) && Legal(s, steps) && Exec(s, steps) == Goto(SetRefs(s, h, 2), t, GetLoadNext(h))
  {
    hide Legal, Exec;
    var now;
    now, steps := Begin(s, CallTryGet(t));
    assert now == Goto(s, t, GetLoadHead);
    now, steps := RunOn(s, steps, now, t);
    GotoTwice(s, t, GetLoadHead, GetLoadRefs(h));
    assert now == Goto(s, t, GetLoadRefs(h));
    now, steps := RunOn(s, steps, now, t);
    GotoTwice(s, t, GetLoadRefs(h), GetCasRefs(h, 1));
    assert now == Goto(s, t, GetCasRefs(h, 1));
    now, steps := RunOn(s, steps, now, t);
    GotoTwice(SetRefs(s, h, 2), t, GetCasRefs(h, 1), GetLoadNext(h));
  }

  /** From there to the end. */
  lemma GetFinish(s: State, t: Tid, h: Node) returns (steps: seq<Action>)
    requires t in s.pcs && s.pcs[t] == GetLoadNext(h) && s.head == Some(h) && h in s.refs && s.refs[h] == 2
    ensures OnlyRuns(steps, t) && Legal(s, steps) && Exec(s, steps) == Goto(Popped(s, h), t, Idle)
  {
    hide Legal, Exec;
    steps := [];
    NoSteps(s);
    var now, nx := s, NextOf(s, h);
    now, steps := RunOn(s, steps, now, t);
    assert now == Goto(s, t, GetCasHead(h, nx));
    now, steps := RunOn(s, steps, now, t);
    var off := s.(head := nx);
    GotoTwice(off, t, GetCasHead(h, nx), GetAssert(h));
    assert now == Goto(off, t, GetAssert(h));
    now, steps := RunOn(s, steps, now, t);
    GotoTwice(off, t, GetAssert(h), GetSubTwo(h));
    assert now == Goto(off, t, GetSubTwo(h));
    now, steps := RunOn(s, steps, now, t);
    GotoTwice(SetRefs(off, h, 0), t, GetSubTwo(h), Idle);
  }

  /** `try_get` with no other call under way: the first node, exactly, or nothing if there is none. */
  lemma LoneTryGet(s0: State, run: seq<Action>, s: State, t: Tid) returns (steps: seq<Action>)
    requires Reached(s0, run, s) && Quiescent(s) && t in s.pcs
    ensures IsCall(steps, CallTryGet(t), t) && Legal(s, steps)
    ensures match s.head
      case None => Exec(s, steps) == s
      case Some(h) =>
        && Exec(s, steps) == Popped(s, h)
        && exists list :: FreeListIs(s, [h] + list) && FreeListIs(Exec(s, steps), list)
  {
    hide Legal, Exec;
    var list := QuiescentCounts(s0, run, s);
    match s.head
    case None => steps := GetNothing(s, t);
    case Some(h) =>
      assert list[0] == h && list == [h] + list[1..];
      var first := GetReference(s, t, h);
      var s1 := Goto(SetRefs(s, h, 2), t, GetLoadNext(h));
      var rest := GetFinish(s1, t, h);
      ExecConcat(s, first, rest);
      steps := first + rest;
      CallJoins(first, rest, CallTryGet(t), t);
      PoppedAgain(s, t, h);
      PoppedList(s, h, list);
  }

  lemma PoppedAgain(s: State, t: Tid, h: Node)
    requires t in s.pcs && s.pcs[t] == Idle
    ensures Goto(Popped(Goto(SetRefs(s, h, 2), t, GetLoadNext(h)), h), t, Idle) == Popped(s, h)
  {
    assert s.refs[h := 2][h := 0] == s.refs[h := 0];
    assert s.pcs[t := GetLoadNext(h)][t := Idle] == s.pcs;
  }

  lemma PoppedList(s: State, h: Node, list: seq<Node>)
    requires s.head == Some(h) && list != [] && FreeListIs(s, list)
    ensures list[0] == h && FreeListIs(Popped(s, h), list[1..])
  {
  }

  /** `add` with no other call under way: the node in front of the list. */
  lemma LoneAdd(s0: State, run: seq<Action>, s: State, t: Tid, n: Node) returns (steps: seq<Action>)
    requires Reached(s0, run, s) && Quiescent(s) && t in s.pcs && n in s.owned
    ensures IsCall(steps, CallAdd(t, n), t) && Legal(s, steps) && Exec(s, steps) == Pushed(s, n)
    ensures exists list :: FreeListIs(s, list) && FreeListIs(Exec(s, steps), [n] + list)
  {
    hide Legal, Exec;
    var list := QuiescentCounts(s0, run, s);
    steps := AddSteps(s, t, n);
    PushedList(s, n, list);
  }

  lemma PushedList(s: State, n: Node, list: seq<Node>)
    requires FreeListIs(s, list) && n !in list
    ensures FreeListIs(Pushed(s, n), [n] + list)
  {
    ChainFrame(s.head, s.next, list, n, s.head);
    assert ([n] + list)[1..] == list;
  }

  lemma AddMark(s: State, t: Tid, n: Node) returns (steps: seq<Action>)
    requires t in s.pcs && s.pcs[t] == Idle && n in s.owned && n in s.refs && s.refs[n] == 0
    ensures IsCall(steps, CallAdd(t, n), t) && Legal(s, steps)
    ensures Exec(s, steps) == Goto(SetRefs(s, n, SHOULD_BE_ON_FREELIST).(owned := s.owned - {n}), t,
                                   PubStoreNext(n, s.head, ReturnFromAdd))
  {
    hide Legal, Exec;
    var now, given := s, s.(owned := s.owned - {n});
    now, steps := Begin(s, CallAdd(t, n));
    assert now == Goto(given, t, AddStart(n));
    now, steps := RunOn(s, steps, now, t);
    var marked := SetRefs(given, n, SHOULD_BE_ON_FREELIST);
    GotoTwice(marked, t, AddStart(n), PubLoadHead(n, ReturnFromAdd));
    assert now == Goto(marked, t, PubLoadHead(n, ReturnFromAdd));
    now, steps := RunOn(s, steps, now, t);
    GotoTwice(marked, t, PubLoadHead(n, ReturnFromAdd), PubStoreNext(n, s.head, ReturnFromAdd));
  }

  lemma AddPublish(s: State, t: Tid, n: Node) returns (steps: seq<Action>)
    requires t in s.pcs && s.pcs[t] == PubStoreNext(n, s.head, ReturnFromAdd)
    ensures OnlyRuns(steps, t) && Legal(s, steps)
    ensures Exec(s, steps) == Goto(s.(next := s.next[n := s.head], refs := s.refs[n := 1], head := Some(n)), t, Idle)
  {
    hide Legal, Exec;
    steps := [];
    NoSteps(s);
    var now, k, linked := s, ReturnFromAdd, s.(next := s.next[n := s.head]);
    now, steps := RunOn(s, steps, now, t);
    assert now == Goto(linked, t, PubStoreRefs(n, s.head, k));
    now, steps := RunOn(s, steps, now, t);
    GotoTwice(SetRefs(linked, n, 1), t, PubStoreRefs(n, s.head, k), PubCasHead(n, s.head, k));
    assert now == Goto(SetRefs(linked, n, 1), t, PubCasHead(n, s.head, k));
    now, steps := RunOn(s, steps, now, t);
    GotoTwice(SetRefs(linked, n, 1).(head := Some(n)), t, PubCasHead(n, s.head, k), Idle);
  }

  lemma AddSteps(s: State, t: Tid, n: Node) returns (steps: seq<Action>)
    requires t in s.pcs && s.pcs[t] == Idle && n in s.owned && n in s.refs && s.refs[n] == 0
    ensures IsCall(steps, CallAdd(t, n), t) && Legal(s, steps) && Exec(s, steps) == Pushed(s, n)
  {
    hide Legal, Exec;
    var first := AddMark(s, t, n);
    var s1 := Goto(SetRefs(s, n, SHOULD_BE_ON_FREELIST).(owned := s.owned - {n}), t, PubStoreNext(n, s.head, ReturnFromAdd));
    var rest := AddPublish(s1, t, n);
    ExecConcat(s, first, rest);
    steps := first + rest;
    CallJoins(first, rest, CallAdd(t, n), t);
    assert s.refs[n := SHOULD_BE_ON_FREELIST][n := 1] == s.refs[n := 1];
    assert s.pcs[t := PubStoreNext(n, s.head, ReturnFromAdd)][t := Idle] == s.pcs;
  }
}
