/**
 What the free list guarantees in every reachable state, stated on the program's own state, and the
 exact number of threads up to which it does.
 */
module FreeListTheorems {
  import opened Wrappers
  import opened FreeListMachine
  import opened FreeListProof

  /** The nodes reached from the head, in order, each once. */
  predicate FreeListIs(s: State, list: seq<Node>) {
    Chain(s.head, s.next, list) && Distinct(list)
  }

  /** The thread is inside `add` with this node, or publishes it for another thread's `add`. */
  predicate Publishes(pc: PC, n: Node) {
    match pc
    case PubLoadHead(m, _) => m == n
    case PubStoreNext(m, _, _) => m == n
    case PubStoreRefs(m, _, _) => m == n
    case PubCasHead(m, _, _) => m == n
    case PubGiveBack(m, _, _) => m == n
    case _ => false
  }

  /** The thread has unlinked this node and has not returned it yet. */
  predicate Unlinked(pc: PC, n: Node) {
    pc == GetAssert(n) || pc == GetSubTwo(n)
  }

  datatype Place = WithClient | InAdd | OnTheList | Leaving

  predicate IsIn(s: State, list: seq<Node>, n: Node, place: Place) {
    match place
    case WithClient => n in s.owned
    case InAdd => BitSet(RefsOf(s, n)) || exists t <- s.pcs :: s.pcs[t] == AddStart(n) || Publishes(s.pcs[t], n)
    case OnTheList => n in list
    case Leaving => exists t <- s.pcs :: Unlinked(s.pcs[t], n)
  }

  predicate InExactlyOnePlace(s: State, list: seq<Node>, n: Node) {
    exists place :: IsIn(s, list, n, place) && forall other :: IsIn(s, list, n, other) ==> other == place
  }

  /** The list's own reference: on the list, about to be put there, or just taken off. */
  predicate ListReference(s: State, list: seq<Node>, n: Node) {
    || n in list
    || exists t <- s.pcs ::
         (s.pcs[t].PubCasHead? && s.pcs[t].node == n) || (s.pcs[t].PubGiveBack? && s.pcs[t].node == n)
         || Unlinked(s.pcs[t], n)
  }

  predicate CountsReferences(s: State, list: seq<Node>, n: Node) {
    LowBits(RefsOf(s, n)) == (if ListReference(s, list, n) then 1 else 0) + |Holders(s.pcs, n)|
  }

  function AuxAfter(s: State, x: Aux, run: seq<Action>): Aux
    requires Legal(s, run)
    decreases |run|
  {
    if run == [] then x else AuxAfter(Apply(s, run[0]), NextAux(s, x, run[0]), run[1..])
  }

  lemma {:induction false} RunInv(s: State, x: Aux, run: seq<Action>)
    requires Inv(s, x) && Legal(s, run)
    ensures Inv(Exec(s, run), AuxAfter(s, x, run))
    decreases |run|
  {
    if run != [] {
      ActionInv(s, x, run[0]);
      RunInv(Apply(s, run[0]), NextAux(s, x, run[0]), run[1..]);
    }
  }

  /** Reachable by some interleaving, from a fresh list, with few enough threads. */
  predicate Reached(s0: State, run: seq<Action>, s: State) {
    Initial(s0) && FewThreads(s0) && Legal(s0, run) && Exec(s0, run) == s
  }

  lemma ReachedInv(s0: State, run: seq<Action>, s: State) returns (x: Aux)
    requires Reached(s0, run, s)
    ensures Inv(s, x)
  {
    InitialInv(s0);
    RunInv(s0, InitialAux(s0), run);
    x := AuxAfter(s0, InitialAux(s0), run);
  }

  lemma WordBits(st: Status, count: nat)
    requires count + 1 < SHOULD_BE_ON_FREELIST
    ensures BitSet(st.Word() + count) <==> st.Pending? || st.Acquired?
    ensures LowBits(st.Word() + count) == count + (if st.Publishing? || st.OnList? || st.Taken? then 1 else 0)
  {
  }

  lemma NodeFacts(s: State, x: Aux, n: Node)
    requires Inv(s, x) && n in x.status
    ensures NodeOk(s, x, n, x.status[n]) && DriverOk(s, n, x.status[n])
    ensures BitSet(RefsOf(s, n)) <==> x.status[n].Pending? || x.status[n].Acquired?
    ensures LowBits(RefsOf(s, n)) ==
            |Holders(s.pcs, n)| + (if x.status[n].Publishing? || x.status[n].OnList? || x.status[n].Taken? then 1 else 0)
    ensures forall t <- s.pcs :: Claim(t, s.pcs[t]).Some? && Claim(t, s.pcs[t]).value.0 == n
                             ==> Claim(t, s.pcs[t]).value.1 == x.status[n]
  {
    HoldersBound(s, n);
    WordBits(x.status[n], |Holders(s.pcs, n)|);
    forall t <- s.pcs ensures ThreadOk(s, x, t, s.pcs[t]) {}
  }

  function PlaceOf(st: Status): Place {
    match st
    case Owned => WithClient
    case OnList => OnTheList
    case Taken(_) => Leaving
    case _ => InAdd
  }

  lemma PlaceOfStatus(s: State, x: Aux, n: Node)
    requires Inv(s, x) && n in x.status
    ensures forall place :: IsIn(s, x.list, n, place) <==> place == PlaceOf(x.status[n])
  {
    NodeFacts(s, x, n);
    PlaceOfOneStatus(s, x, n, x.status[n]);
  }

  lemma PlaceOfOneStatus(s: State, x: Aux, n: Node, st: Status)
    requires NodeOk(s, x, n, st) && DriverOk(s, n, st)
    requires BitSet(RefsOf(s, n)) <==> st.Pending? || st.Acquired?
    requires forall t <- s.pcs :: Claim(t, s.pcs[t]).Some? && Claim(t, s.pcs[t]).value.0 == n
                              ==> Claim(t, s.pcs[t]).value.1 == st
    ensures forall place :: IsIn(s, x.list, n, place) <==> place == PlaceOf(st)
  {
    forall t <- s.pcs
      ensures s.pcs[t] == AddStart(n) || Publishes(s.pcs[t], n) ==> Claim(t, s.pcs[t]) == Some((n, st))
      ensures Unlinked(s.pcs[t], n) ==> Claim(t, s.pcs[t]) == Some((n, st))
    {}
    if st.Driver().Some? {
      assert st.who in s.pcs && Claim(st.who, s.pcs[st.who]) == Some((n, st));
    }
  }

  /** Exclusive ownership: in every reachable state each node is in exactly one place. */
  lemma NodesInExactlyOnePlace(s0: State, run: seq<Action>, s: State)
    requires Reached(s0, run, s)
    ensures exists list :: FreeListIs(s, list) && forall n <- s.refs :: InExactlyOnePlace(s, list, n)
  {
    var x := ReachedInv(s0, run, s);
    forall n <- s.refs ensures InExactlyOnePlace(s, x.list, n) {
      PlaceOfStatus(s, x, n);
      assert IsIn(s, x.list, n, PlaceOf(x.status[n]));
    }
    assert FreeListIs(s, x.list);
  }

  /** Reference accounting: the low 31 bits count the list's reference and the threads holding one. */
  lemma ReferencesAreCounted(s0: State, run: seq<Action>, s: State)
    requires Reached(s0, run, s)
    ensures exists list :: FreeListIs(s, list) && forall n <- s.refs :: CountsReferences(s, list, n)
  {
    var x := ReachedInv(s0, run, s);
    forall n <- s.refs ensures CountsReferences(s, x.list, n) {
      NodeFacts(s, x, n);
      ListReferenceOfStatus(s, x, n, x.status[n]);
    }
    assert FreeListIs(s, x.list);
  }

  lemma ListReferenceOfStatus(s: State, x: Aux, n: Node, st: Status)
    requires NodeOk(s, x, n, st) && DriverOk(s, n, st)
    requires forall t <- s.pcs :: Claim(t, s.pcs[t]).Some? && Claim(t, s.pcs[t]).value.0 == n
                              ==> Claim(t, s.pcs[t]).value.1 == st
    ensures ListReference(s, x.list, n) <==> st.Publishing? || st.OnList? || st.Taken?
  {
    if st.Driver().Some? {
      assert st.who in s.pcs && Claim(st.who, s.pcs[st.who]) == Some((n, st));
    }
  }

  /** At most one thread per node is inside `add_knowing_refcount_is_zero`. */
  lemma OnePublisherPerNode(s0: State, run: seq<Action>, s: State, n: Node, t: Tid, u: Tid)
    requires Reached(s0, run, s)
    requires t in s.pcs && u in s.pcs && Publishes(s.pcs[t], n) && Publishes(s.pcs[u], n)
    ensures t == u
  {
    var x := ReachedInv(s0, run, s);
    assert ThreadOk(s, x, t, s.pcs[t]) && ThreadOk(s, x, u, s.pcs[u]);
  }

  /** The assertion on line 62 never fails. */
  lemma TakenNodeIsNotMarked(s0: State, run: seq<Action>, s: State, t: Tid, h: Node)
    requires Reached(s0, run, s) && t in s.pcs && s.pcs[t] == GetAssert(h)
    ensures !BitSet(RefsOf(s, h))
  {
    var x := ReachedInv(s0, run, s);
    assert ThreadOk(s, x, t, s.pcs[t]);
    NodeFacts(s, x, h);
  }

  /** No ABA: a successful head swap in `try_get` removes the first node of the list and nothing else. */
  lemma TryGetUnlinksHead(s0: State, run: seq<Action>, s: State, t: Tid, h: Node, nx: Ptr)
    requires Reached(s0, run, s)
    requires t in s.pcs && s.pcs[t] == GetCasHead(h, nx) && s.head == Some(h)
    ensures nx == NextOf(s, h)
    ensures exists list :: FreeListIs(s, [h] + list) && FreeListIs(Apply(s, Run(t)), list)
  {
    var x := ReachedInv(s0, run, s);
    assert ThreadOk(s, x, t, s.pcs[t]);
    AtNodeOf(s, x, t, h);
    UnlinkEffect(s, x, t, h, nx);
  }

  lemma UnlinkEffect(s: State, x: Aux, t: Tid, h: Node, nx: Ptr)
    requires At(s, x, t, h) && ShapeOk(s, x) && s.pcs[t] == GetCasHead(h, nx) && s.head == Some(h)
    ensures nx == NextOf(s, h) && x.list != [] && x.list == [h] + x.list[1..]
    ensures FreeListIs(s, x.list) && FreeListIs(Apply(s, Run(t)), x.list[1..])
  {
    GetCasHeadStep(s, x, t, h, nx);
  }

  /** A successful head swap in `add_knowing_refcount_is_zero` pushes the node and nothing else. */
  lemma PublishPushesNode(s0: State, run: seq<Action>, s: State, t: Tid, n: Node, h: Ptr, k: Continuation)
    requires Reached(s0, run, s)
    requires t in s.pcs && s.pcs[t] == PubCasHead(n, h, k) && s.head == h
    ensures exists list :: FreeListIs(s, list) && n !in list && FreeListIs(Apply(s, Run(t)), [n] + list)
  {
    var x := ReachedInv(s0, run, s);
    assert ThreadOk(s, x, t, s.pcs[t]);
    NodeFacts(s, x, n);
    ActionInv(s, x, Run(t));
    assert NextAux(s, x, Run(t)).list == [n] + x.list;
  }

  /** Every other action leaves the list as it is, node for node. */
  lemma OtherActionsKeepList(s0: State, run: seq<Action>, s: State, a: Action, list: seq<Node>)
    requires Reached(s0, run, s) && Enabled(s, a) && FreeListIs(s, list)
    requires Apply(s, a).head == s.head
    ensures FreeListIs(Apply(s, a), list)
  {
    var x := ReachedInv(s0, run, s);
    assert ThreadOk(s, x, a.t, s.pcs[a.t]);
    ChainIsUnique(s.head, s.next, list, x.list);
    if a.Run? && s.pcs[a.t].PubStoreNext? {
      var n := s.pcs[a.t].node;
      NodeFacts(s, x, n);
      ChainFrame(s.head, s.next, list, n, s.pcs[a.t].expected);
    }
  }

  lemma {:induction false} ChainIsUnique(head: Ptr, next: map<Node, Ptr>, a: seq<Node>, b: seq<Node>)
    requires Chain(head, next, a) && Chain(head, next, b)
    ensures a == b
    decreases |a|
  {
    if a != [] {
      ChainIsUnique(next[a[0]], next, a[1..], b[1..]);
      assert a == [a[0]] + a[1..] && b == [b[0]] + b[1..];
    }
  }

  /** No loss: with no call in progress every node is with a client or on the list, with exact counts. */
  lemma QuiescentListIsComplete(s0: State, run: seq<Action>, s: State)
    requires Reached(s0, run, s) && forall t <- s.pcs :: s.pcs[t] == Idle
    ensures exists list :: (
      && FreeListIs(s, list)
      && (forall n <- s.refs :: n in list <==> n !in s.owned)
      && (forall n <- s.refs :: s.refs[n] == if n in list then 1 else 0))
  {
    var x := ReachedInv(s0, run, s);
    forall n <- s.refs
      ensures (n in x.list <==> n !in s.owned) && s.refs[n] == if n in x.list then 1 else 0
    {
      NodeFacts(s, x, n);
      assert Holders(s.pcs, n) == {};
    }
    assert FreeListIs(s, x.list);
  }

  // ---------------------------------------------------------------------------------------------
  // The bound on the number of threads is exact
  // ---------------------------------------------------------------------------------------------

  predicate IsTid(t: Tid, threads: nat) {
    t < threads
  }

  /** One node and threads 0, 1, ..., threads - 1. */
  function FreshList(threads: nat): State {
    State(None, map[0 := 0], map[0 := None], {0}, map t | 0 <= t < threads && IsTid(t, threads) :: Idle)
  }

  /** The node is on the list and the first `k` threads hold a reference to it inside `try_get`. */
  function Crowded(threads: nat, k: nat): State {
    State(Some(0), map[0 := 1 + k], map[0 := None], {},
          map t | 0 <= t < threads && IsTid(t, threads) :: if t < k then GetLoadNext(0) else Idle)
  }

  /** Thread 0 is at `pc`, the others have not started, and no client owns the node. */
  function Lone(threads: nat, head: Ptr, word: nat, next: Ptr, pc: PC): State {
    State(head, map[0 := word], map[0 := next], {}, FreshList(threads).pcs[0 := pc])
  }

  lemma {:induction false} ExecConcat(s: State, a: seq<Action>, b: seq<Action>)
    requires Legal(s, a) && Legal(Exec(s, a), b)
    ensures Legal(s, a + b) && Exec(s, a + b) == Exec(Exec(s, a), b)
    decreases |a|
  {
    if a == [] {
      assert a + b == b;
    } else {
      ExecConcat(Apply(s, a[0]), a[1..], b);
      assert (a + b)[1..] == a[1..] + b;
    }
  }

  lemma NoSteps(s: State)
    ensures Legal(s, []) && Exec(s, []) == s
  {
  }

  lemma PutOnList(threads: nat) returns (run: seq<Action>)
    requires threads > 0
    ensures Legal(FreshList(threads), run) && Exec(FreshList(threads), run) == Crowded(threads, 0)
  {
    hide Legal, Exec;
    var s0 := FreshList(threads);
    var s := s0;
    run := [];
    NoSteps(s0);
    s, run := Extend(s0, run, s, CallAdd(0, 0));
    assert s == Lone(threads, None, 0, None, AddStart(0));
    s, run := Extend(s0, run, s, Run(0));
    assert s == Lone(threads, None, SHOULD_BE_ON_FREELIST, None, PubLoadHead(0, ReturnFromAdd));
    s, run := Extend(s0, run, s, Run(0));
    assert s == Lone(threads, None, SHOULD_BE_ON_FREELIST, None, PubStoreNext(0, None, ReturnFromAdd));
    var rest := Publish(threads);
    ExecConcat(s0, run, rest);
    run := run + rest;
  }

  lemma Publish(threads: nat) returns (run: seq<Action>)
    requires threads > 0
    ensures var s := Lone(threads, None, SHOULD_BE_ON_FREELIST, None, PubStoreNext(0, None, ReturnFromAdd));
      Legal(s, run) && Exec(s, run) == Crowded(threads, 0)
  {
    hide Legal, Exec, FetchAdd;
    var s0 := Lone(threads, None, SHOULD_BE_ON_FREELIST, None, PubStoreNext(0, None, ReturnFromAdd));
    var s := s0;
    run := [];
    NoSteps(s0);
    s, run := Extend(s0, run, s, Run(0));
    assert s == Lone(threads, None, SHOULD_BE_ON_FREELIST, None, PubStoreRefs(0, None, ReturnFromAdd));
    s, run := Extend(s0, run, s, Run(0));
    assert s == Lone(threads, None, 1, None, PubCasHead(0, None, ReturnFromAdd));
    s, run := Extend(s0, run, s, Run(0));
    assert s == Crowded(threads, 0);
  }

  lemma Extend(s0: State, run: seq<Action>, s: State, a: Action) returns (s': State, run': seq<Action>)
    requires Legal(s0, run) && Exec(s0, run) == s && Enabled(s, a)
    ensures s' == Apply(s, a) && Legal(s0, run') && Exec(s0, run') == s'
  {
    assert Legal(Apply(s, a), []);
    assert Legal(s, [a]);
    ExecConcat(s0, run, [a]);
    s', run' := Apply(s, a), run + [a];
    assert Exec(s, [a]) == Exec(Apply(s, a), []);
  }

  /** Thread `k` joins the crowd. */
  lemma Join(threads: nat, k: nat) returns (run: seq<Action>)
    requires k < threads && k < SHOULD_BE_ON_FREELIST - 1
    ensures Legal(Crowded(threads, k), run) && Exec(Crowded(threads, k), run) == Crowded(threads, k + 1)
  {
    hide Legal, Exec, FetchAdd, LowBits;
    var s0 := Crowded(threads, k);
    var s := s0;
    run := [];
    NoSteps(s0);
    CountOne(1, k);
    s, run := Extend(s0, run, s, CallTryGet(k));
    assert s == Goto(s0, k, GetLoadHead);
    s, run := Extend(s0, run, s, Run(k));
    assert s == Goto(s0, k, GetLoadRefs(0));
    s, run := Extend(s0, run, s, Run(k));
    assert s == Goto(s0, k, GetCasRefs(0, 1 + k));
    s, run := Extend(s0, run, s, Run(k));
    assert s.pcs == Crowded(threads, k + 1).pcs;
  }

  lemma {:induction false} Gather(threads: nat, k: nat) returns (run: seq<Action>)
    requires 0 < threads && k <= threads && k < SHOULD_BE_ON_FREELIST
    ensures Legal(FreshList(threads), run) && Exec(FreshList(threads), run) == Crowded(threads, k)
  {
    hide Legal, Exec, FreshList, Crowded;
    if k == 0 {
      run := PutOnList(threads);
    } else {
      var before := Gather(threads, k - 1);
      var join := Join(threads, k - 1);
      ExecConcat(FreshList(threads), before, join);
      run := before + join;
    }
  }

  /**
   With one thread more than `FewThreads` allows, references alone carry into bit 31: an execution
   reaches the assertion on line 62 with the bit set. So the bound of the theorems above is exact.
   */
  lemma OneThreadMoreBreaksAssertion(threads: nat)
    requires !FewThreads(FreshList(threads))
    ensures Initial(FreshList(threads))
    ensures exists run, t :: (
      && Legal(FreshList(threads), run)
      && t in Exec(FreshList(threads), run).pcs
      && Exec(FreshList(threads), run).pcs[t] == GetAssert(0)
      && BitSet(RefsOf(Exec(FreshList(threads), run), 0)))
  {
    hide Legal, Exec;
    var s0 := FreshList(threads);
    ThreadCount(threads);
    var k := SHOULD_BE_ON_FREELIST - 1;
    var run := Gather(threads, k);
    var s := Crowded(threads, k);
    s, run := Extend(s0, run, s, Run(0));
    s, run := Extend(s0, run, s, Run(0));
    assert s.pcs[0] == GetAssert(0) && RefsOf(s, 0) == SHOULD_BE_ON_FREELIST;
  }

  lemma {:induction false} ThreadCount(threads: nat)
    ensures |FreshList(threads).pcs| == threads
  {
    var pcs := FreshList(threads).pcs;
    assert |pcs| == |pcs.Keys|;
    if threads > 0 {
      ThreadCount(threads - 1);
      var fewer := FreshList(threads - 1).pcs;
      assert pcs.Keys == fewer.Keys + {threads - 1};
      assert |fewer| == |fewer.Keys|;
    } else {
      assert pcs.Keys == {};
    }
  }
}
