/** The invariant of the free list and what it says about every reachable state. */
module FreeListProof {
  import opened Wrappers
  import opened FreeListMachine

  /** Where a node is in its life cycle; `who` is the one thread that makes the next move. */
  datatype Status =
    | Owned
    | Adding(who: Tid)       // passed to add, bit not set yet
    | Pending                // bit set, somebody still holds a reference
    | Acquired(who: Tid)     // count is zero and `who` is publishing the node
    | Publishing(who: Tid)   // the list's reference is given, the head not swapped yet
    | OnList
    | Taken(who: Tid)        // unlinked, references not dropped yet
  {
    function Driver(): Option<Tid> {
      if Adding? || Acquired? || Publishing? || Taken? then Some(who) else None
    }

    /** The reference word without the counts of the threads inside `try_get`. */
    function Word(): nat {
      if Pending? || Acquired? then SHOULD_BE_ON_FREELIST
      else if Publishing? || OnList? || Taken? then 1 else 0
    }
  }

  /** Bookkeeping the program does not have: the list as a sequence and the status of each node. */
  datatype Aux = Aux(list: seq<Node>, status: map<Node, Status>)

  /** The node a thread holds a counted reference to. */
  function Held(pc: PC): Ptr {
    match pc
    case GetLoadNext(h) => Some(h)
    case GetCasHead(h, _) => Some(h)
    case GetAssert(h) => Some(h)
    case GetSubTwo(h) => Some(h)
    case GetSubOne(p, _) => Some(p)
    case _ => None
  }

  function Holders(pcs: map<Tid, PC>, n: Node): set<Tid> {
    set t | t in pcs && Held(pcs[t]) == Some(n)
  }

  /** The node whose next move belongs to a thread, and the status this implies. */
  function Claim(t: Tid, pc: PC): Option<(Node, Status)> {
    match pc
    case AddStart(n) => Some((n, Adding(t)))
    case GetAssert(h) => Some((h, Taken(t)))
    case GetSubTwo(h) => Some((h, Taken(t)))
    case PubLoadHead(n, _) => Some((n, Acquired(t)))
    case PubStoreNext(n, _, _) => Some((n, Acquired(t)))
    case PubStoreRefs(n, _, _) => Some((n, Acquired(t)))
    case PubCasHead(n, _, _) => Some((n, Publishing(t)))
    case PubGiveBack(n, _, _) => Some((n, Publishing(t)))
    case _ => None
  }

  predicate PtrOk(nodes: set<Node>, p: Ptr) {
    p.Some? ==> p.value in nodes
  }

  predicate ContinuationOk(nodes: set<Node>, k: Continuation) {
    k.RetryGet? ==> PtrOk(nodes, k.head)
  }

  /** The locals of a thread denote nodes, and a `next` it relies on is still current. */
  predicate LocalsOk(next: map<Node, Ptr>, pc: PC) {
    match pc
    case GetLoadRefs(h) => h in next
    case GetCasRefs(h, refs) => h in next && LowBits(refs) != 0
    case GetLoadNext(h) => h in next
    case GetCasHead(h, nx) => h in next && nx == next[h]
    case GetSubOne(p, h) => p in next && PtrOk(next.Keys, h)
    case PubLoadHead(_, k) => ContinuationOk(next.Keys, k)
    case PubStoreNext(_, h, k) => ContinuationOk(next.Keys, k) && PtrOk(next.Keys, h)
    case PubStoreRefs(n, h, k) => ContinuationOk(next.Keys, k) && n in next && next[n] == h
    case PubCasHead(n, h, k) => ContinuationOk(next.Keys, k) && n in next && next[n] == h
    case PubGiveBack(_, h, k) => ContinuationOk(next.Keys, k) && PtrOk(next.Keys, h)
    case _ => true
  }

  predicate ThreadOk(s: State, x: Aux, t: Tid, pc: PC) {
    && LocalsOk(s.next, pc)
    && var claim := Claim(t, pc);
       claim.Some? ==> claim.value.0 in x.status && x.status[claim.value.0] == claim.value.1
  }

  predicate NodeOk(s: State, x: Aux, n: Node, st: Status) {
    && RefsOf(s, n) == st.Word() + |Holders(s.pcs, n)|
    && (n in s.owned <==> st == Owned)
    && (n in x.list <==> st == OnList)
    && (st.Pending? ==> Holders(s.pcs, n) != {})
    && (st.Acquired? ==> Holders(s.pcs, n) == {})
  }

  predicate DriverOk(s: State, n: Node, st: Status) {
    st.Driver().Some? ==> st.who in s.pcs && Claim(st.who, s.pcs[st.who]) == Some((n, st))
  }

  predicate Chain(head: Ptr, next: map<Node, Ptr>, list: seq<Node>)
    decreases |list|
  {
    if list == [] then head == None
    else head == Some(list[0]) && list[0] in next && Chain(next[list[0]], next, list[1..])
  }

  predicate Distinct(list: seq<Node>) {
    forall i, j :: 0 <= i < j < |list| ==> list[i] != list[j]
  }

  predicate ShapeOk(s: State, x: Aux) {
    && x.status.Keys == s.next.Keys == s.refs.Keys
    && s.owned <= x.status.Keys
    && Chain(s.head, s.next, x.list)
    && Distinct(x.list)
    && (forall n <- x.list :: n in x.status)
    && PtrOk(x.status.Keys, s.head)
  }

  /** The hypothesis on the number of threads: one list reference plus one per thread fits in 31 bits. */
  predicate FewThreads(s: State) {
    |s.pcs| + 1 < SHOULD_BE_ON_FREELIST
  }

  predicate ThreadsOk(s: State, x: Aux) {
    forall t <- s.pcs :: ThreadOk(s, x, t, s.pcs[t])
  }

  predicate NodesOk(s: State, x: Aux) {
    forall n <- x.status :: NodeOk(s, x, n, x.status[n]) && DriverOk(s, n, x.status[n])
  }

  predicate Inv(s: State, x: Aux) {
    ShapeOk(s, x) && FewThreads(s) && ThreadsOk(s, x) && NodesOk(s, x)
  }

  // ---------------------------------------------------------------------------------------------
  // Counting holders
  // ---------------------------------------------------------------------------------------------

  lemma {:induction false} SubsetCard(a: set<Tid>, b: set<Tid>)
    requires a <= b
    ensures |a| <= |b|
  {
    if a != {} {
      var x :| x in a;
      SubsetCard(a - {x}, b - {x});
    }
  }

  lemma HoldersBound(s: State, n: Node)
    requires FewThreads(s)
    ensures |Holders(s.pcs, n)| + 1 < SHOULD_BE_ON_FREELIST
  {
    SubsetCard(Holders(s.pcs, n), s.pcs.Keys);
    assert |s.pcs| == |s.pcs.Keys|;
  }

  /** How moving one thread changes the holders of one node. */
  lemma HoldersMove(pcs: map<Tid, PC>, t: Tid, pc: PC, n: Node)
    requires t in pcs
    ensures Holders(pcs[t := pc], n) ==
            if Held(pc) == Some(n) then Holders(pcs, n) + {t} else Holders(pcs, n) - {t}
    ensures t in Holders(pcs, n) <==> Held(pcs[t]) == Some(n)
    ensures |Holders(pcs[t := pc], n)| == |Holders(pcs, n)|
            + (if Held(pc) == Some(n) then 1 else 0) - (if Held(pcs[t]) == Some(n) then 1 else 0)
  {
    var before, after := Holders(pcs, n), Holders(pcs[t := pc], n);
    assert after == if Held(pc) == Some(n) then before + {t} else before - {t};
  }

  lemma {:induction false} ChainFrame(head: Ptr, next: map<Node, Ptr>, list: seq<Node>, n: Node, p: Ptr)
    requires Chain(head, next, list) && n !in list
    ensures Chain(head, next[n := p], list)
    decreases |list|
  {
    if list != [] {
      ChainFrame(next[list[0]], next, list[1..], n, p);
    }
  }

  // ---------------------------------------------------------------------------------------------
  // The invariant holds initially and every action keeps it
  // ---------------------------------------------------------------------------------------------

  function InitialAux(s: State): Aux {
    Aux([], map n | n in s.next :: Owned)
  }

  lemma InitialInv(s: State)
    requires Initial(s) && FewThreads(s)
    ensures Inv(s, InitialAux(s))
  {
    forall n <- s.next ensures Holders(s.pcs, n) == {} {}
  }

  function NextAux(s: State, x: Aux, a: Action): Aux
    requires Enabled(s, a)
  {
    match a
    case CallAdd(t, n) => x.(status := x.status[n := Adding(t)])
    case CallTryGet(_) => x
    case Run(t) =>
      match s.pcs[t]
      case AddStart(n) => x.(status := x.status[n := if RefsOf(s, n) == 0 then Acquired(t) else Pending])
      case GetCasHead(h, _) =>
        if s.head == Some(h) && x.list != [] then Aux(x.list[1..], x.status[h := Taken(t)]) else x
      case GetSubTwo(h) => x.(status := x.status[h := Owned])
      case GetSubOne(p, _) =>
        if RefsOf(s, p) == SHOULD_BE_ON_FREELIST + 1 then x.(status := x.status[p := Acquired(t)]) else x
      case PubStoreRefs(n, _, _) => x.(status := x.status[n := Publishing(t)])
      case PubCasHead(n, h, _) =>
        if s.head == h then Aux([n] + x.list, x.status[n := OnList]) else x
      case PubGiveBack(n, _, _) =>
        x.(status := x.status[n := if RefsOf(s, n) == 1 then Acquired(t) else Pending])
      case _ => x
  }

  /** Nothing but node `n` and thread `t` changes between two states. */
  predicate OnlyTouches(s: State, x: Aux, s': State, x': Aux, t: Tid, pc: PC, n: Node) {
    && s'.pcs == s.pcs[t := pc]
    && (forall m | m in x.status && m != n :: RefsOf(s', m) == RefsOf(s, m) && NextOf(s', m) == NextOf(s, m))
    && (forall m | m in x.status && m != n :: (m in s'.owned <==> m in s.owned) && (m in x'.list <==> m in x.list))
    && x'.status == (if n in x'.status then x.status[n := x'.status[n]] else x.status)
  }

  predicate AtNode(p: Ptr, n: Node) {
    p == None || p == Some(n)
  }

  /** What an action has to respect at the one node it touches. */
  predicate StepOk(s: State, x: Aux, s': State, x': Aux, t: Tid, pc: PC, n: Node) {
    && t in s.pcs && n in x.status && n in x'.status
    && OnlyTouches(s, x, s', x', t, pc, n)
    && AtNode(Held(s.pcs[t]), n) && AtNode(Held(pc), n)
    && (Claim(t, s.pcs[t]).Some? ==> Claim(t, s.pcs[t]).value.0 == n)
    && (Claim(t, pc).Some? ==> Claim(t, pc).value == (n, x'.status[n]))
    && LocalsOk(s'.next, pc)
    && (NextOf(s', n) == NextOf(s, n) || x.status[n] == Acquired(t))
    && (x'.status[n] == x.status[n] || x.status[n].Driver() == None || x.status[n].Driver() == Some(t))
    && (x'.status[n].Driver() == None || Claim(t, pc) == Some((n, x'.status[n]))
        || (x'.status[n] == x.status[n] && x.status[n].who != t))
    && NodeOk(s', x', n, x'.status[n])
  }

  lemma StepNodes(s: State, x: Aux, s': State, x': Aux, t: Tid, pc: PC, n: Node)
    requires StepOk(s, x, s', x', t, pc, n) && NodesOk(s, x)
    ensures NodesOk(s', x')
  {
    hide Held, Claim, Holders, Status.Word, RefsOf, NextOf;
    forall m <- x'.status ensures NodeOk(s', x', m, x'.status[m]) && DriverOk(s', m, x'.status[m]) {
      if m != n {
        OtherNode(s, x, s', x', t, pc, n, m);
      } else {
        TouchedDriver(s, x, s', x', t, pc, n);
      }
    }
  }

  lemma TouchedDriver(s: State, x: Aux, s': State, x': Aux, t: Tid, pc: PC, n: Node)
    requires StepOk(s, x, s', x', t, pc, n) && NodesOk(s, x)
    ensures DriverOk(s', n, x'.status[n])
  {
    hide Held, LocalsOk, NodeOk, Status.Word, RefsOf, NextOf, Holders;
    assert DriverOk(s, n, x.status[n]);
  }

  lemma OtherNode(s: State, x: Aux, s': State, x': Aux, t: Tid, pc: PC, n: Node, m: Node)
    requires StepOk(s, x, s', x', t, pc, n) && NodesOk(s, x) && m in x.status && m != n
    ensures m in x'.status && x'.status[m] == x.status[m]
    ensures NodeOk(s', x', m, x.status[m]) && DriverOk(s', m, x.status[m])
  {
    hide Held, Claim, LocalsOk, Status.Word, RefsOf, NextOf, Holders;
    HoldersMove(s.pcs, t, pc, m);
  }

  /** A thread that relies on a `next` pointer is a holder or a publisher, so the pointer stays current. */
  lemma StepLocals(s: State, x: Aux, s': State, x': Aux, t: Tid, pc: PC, n: Node, u: Tid)
    requires StepOk(s, x, s', x', t, pc, n) && u in s.pcs && u != t
    requires x.status.Keys == s.next.Keys == s'.next.Keys
    requires NodeOk(s, x, n, x.status[n]) && ThreadOk(s, x, u, s.pcs[u])
    ensures LocalsOk(s'.next, s.pcs[u])
  {
    if Held(s.pcs[u]) == Some(n) {
      assert u in Holders(s.pcs, n);
    }
    assert forall m <- s.next :: m in s'.next && (m != n ==> s'.next[m] == NextOf(s', m) == NextOf(s, m) == s.next[m]);
  }

  lemma StepThreads(s: State, x: Aux, s': State, x': Aux, t: Tid, pc: PC, n: Node)
    requires StepOk(s, x, s', x', t, pc, n) && ThreadsOk(s, x)
    requires x.status.Keys == s.next.Keys == s'.next.Keys && NodeOk(s, x, n, x.status[n])
    ensures ThreadsOk(s', x')
  {
    forall u <- s'.pcs ensures ThreadOk(s', x', u, s'.pcs[u]) {
      if u != t {
        StepLocals(s, x, s', x', t, pc, n, u);
      }
    }
  }

  /** One step lemma for all actions. */
  lemma StepInv(s: State, x: Aux, s': State, x': Aux, t: Tid, pc: PC, n: Node)
    requires Inv(s, x) && StepOk(s, x, s', x', t, pc, n) && ShapeOk(s', x')
    ensures Inv(s', x')
  {
    hide Holders, Held, Claim, LocalsOk, Chain, Distinct, RefsOf, NextOf, Status.Word;
    assert |s'.pcs| == |s.pcs| by {
      assert s'.pcs.Keys == s.pcs.Keys;
      assert |s'.pcs| == |s'.pcs.Keys| && |s.pcs| == |s.pcs.Keys|;
    }
    assert NodeOk(s, x, n, x.status[n]);
    StepNodes(s, x, s', x', t, pc, n);
    StepThreads(s, x, s', x', t, pc, n);
  }

  /** A step that only moves a thread, with the same reference and the same claim before and after. */
  lemma QuietInv(s: State, x: Aux, t: Tid, pc: PC)
    requires Inv(s, x) && t in s.pcs
    requires Held(pc) == Held(s.pcs[t]) && Claim(t, pc) == Claim(t, s.pcs[t]) && LocalsOk(s.next, pc)
    ensures Inv(Goto(s, t, pc), x)
  {
    var s' := Goto(s, t, pc);
    assert |s'.pcs| == |s.pcs| by {
      assert s'.pcs.Keys == s.pcs.Keys;
      assert |s'.pcs| == |s'.pcs.Keys| && |s.pcs| == |s.pcs.Keys|;
    }
    QuietNodes(s, x, t, pc);
  }

  lemma QuietNodes(s: State, x: Aux, t: Tid, pc: PC)
    requires NodesOk(s, x) && t in s.pcs
    requires Held(pc) == Held(s.pcs[t]) && Claim(t, pc) == Claim(t, s.pcs[t])
    ensures NodesOk(Goto(s, t, pc), x)
  {
    var s' := Goto(s, t, pc);
    forall m <- x.status ensures NodeOk(s', x, m, x.status[m]) && DriverOk(s', m, x.status[m]) {
      HoldersMove(s.pcs, t, pc, m);
    }
  }

  // Arithmetic on reference words: with few threads no count reaches bit 31.

  lemma SetBit(count: nat)
    requires count < SHOULD_BE_ON_FREELIST
    ensures FetchAdd(count, SHOULD_BE_ON_FREELIST) == SHOULD_BE_ON_FREELIST + count
  {
  }

  lemma GiveBack(count: nat)
    requires count + 1 < SHOULD_BE_ON_FREELIST
    ensures FetchAdd(1 + count, SHOULD_BE_ON_FREELIST - 1) == SHOULD_BE_ON_FREELIST + count
  {
  }

  lemma CountOne(word: nat, count: nat)
    requires word in {0, 1, SHOULD_BE_ON_FREELIST} && count + 1 < SHOULD_BE_ON_FREELIST
    ensures FetchAdd(word + count, 1) == word + count + 1
    ensures LowBits(word + count) == 0 <==> count == 0 && word != 1
  {
  }

  lemma DropCount(word: nat, count: nat, delta: nat)
    requires word in {0, 1, SHOULD_BE_ON_FREELIST} && count + 1 < SHOULD_BE_ON_FREELIST
    requires delta <= word + count
    ensures FetchSub(word + count, delta) == word + count - delta
  {
  }

  /** What the invariant says about the thread that moves and the node it touches. */
  predicate At(s: State, x: Aux, t: Tid, n: Node) {
    && t in s.pcs && n in x.status && x.status.Keys == s.next.Keys
    && ThreadOk(s, x, t, s.pcs[t]) && NodeOk(s, x, n, x.status[n]) && DriverOk(s, n, x.status[n])
    && |Holders(s.pcs, n)| + 1 < SHOULD_BE_ON_FREELIST
  }

  lemma AtNodeOf(s: State, x: Aux, t: Tid, n: Node)
    requires Inv(s, x) && t in s.pcs && n in x.status
    ensures At(s, x, t, n)
  {
    HoldersBound(s, n);
  }

  lemma SameShape(s: State, x: Aux, s': State, x': Aux)
    requires ShapeOk(s, x)
    requires s'.head == s.head && s'.next == s.next && x'.list == x.list
    requires s'.refs.Keys == s.refs.Keys && x'.status.Keys == x.status.Keys && s'.owned <= s.next.Keys
    ensures ShapeOk(s', x')
  {
  }

  lemma CallAddStep(s: State, x: Aux, t: Tid, n: Node)
    requires At(s, x, t, n) && Enabled(s, CallAdd(t, n))
    ensures StepOk(s, x, Apply(s, CallAdd(t, n)), NextAux(s, x, CallAdd(t, n)), t, AddStart(n), n)
  {
    hide Holders;
    HoldersMove(s.pcs, t, AddStart(n), n);
  }

  lemma AddStartPublish(s: State, x: Aux, t: Tid, n: Node)
    requires At(s, x, t, n) && s.pcs[t] == AddStart(n) && RefsOf(s, n) == 0
    ensures StepOk(s, x, RunThread(s, t), NextAux(s, x, Run(t)), t, PubLoadHead(n, ReturnFromAdd), n)
  {
    hide Holders, FetchAdd;
    SetBit(0);
    HoldersMove(s.pcs, t, PubLoadHead(n, ReturnFromAdd), n);
  }

  lemma AddStartMark(s: State, x: Aux, t: Tid, n: Node)
    requires At(s, x, t, n) && s.pcs[t] == AddStart(n) && RefsOf(s, n) != 0
    ensures StepOk(s, x, RunThread(s, t), NextAux(s, x, Run(t)), t, Idle, n)
  {
    hide Holders, FetchAdd;
    SetBit(|Holders(s.pcs, n)|);
    HoldersMove(s.pcs, t, Idle, n);
  }

  lemma AddStartStep(s: State, x: Aux, t: Tid, n: Node)
    requires At(s, x, t, n) && s.pcs[t] == AddStart(n)
    ensures var s' := RunThread(s, t); StepOk(s, x, s', NextAux(s, x, Run(t)), t, s'.pcs[t], n)
  {
    hide At, StepOk, NextAux, FetchAdd;
    if RefsOf(s, n) == 0 {
      AddStartPublish(s, x, t, n);
    } else {
      AddStartMark(s, x, t, n);
    }
  }

  lemma GetCasRefsStep(s: State, x: Aux, t: Tid, h: Node, refs: nat)
    requires At(s, x, t, h) && s.pcs[t] == GetCasRefs(h, refs) && RefsOf(s, h) == refs
    ensures StepOk(s, x, RunThread(s, t), x, t, GetLoadNext(h), h)
  {
    hide Holders, FetchAdd;
    HoldersMove(s.pcs, t, GetLoadNext(h), h);
    CountOne(x.status[h].Word(), |Holders(s.pcs, h)|);
    assert x.status[h := x.status[h]] == x.status;
  }

  lemma GetSubTwoStep(s: State, x: Aux, t: Tid, h: Node)
    requires At(s, x, t, h) && s.pcs[t] == GetSubTwo(h)
    ensures StepOk(s, x, RunThread(s, t), NextAux(s, x, Run(t)), t, Idle, h)
  {
    hide Holders, FetchSub;
    HoldersMove(s.pcs, t, Idle, h);
    DropCount(1, |Holders(s.pcs, h)|, 2);
  }

  lemma GetSubOneStep(s: State, x: Aux, t: Tid, p: Node, h: Ptr)
    requires At(s, x, t, p) && s.pcs[t] == GetSubOne(p, h)
    ensures var s' := RunThread(s, t); StepOk(s, x, s', NextAux(s, x, Run(t)), t, s'.pcs[t], p)
  {
    hide Holders, FetchSub, LowBits;
    HoldersMove(s.pcs, t, RunThread(s, t).pcs[t], p);
    DropCount(x.status[p].Word(), |Holders(s.pcs, p)|, 1);
    assert x.status[p := x.status[p]] == x.status;
  }

  lemma PubStoreNextStep(s: State, x: Aux, t: Tid, n: Node, h: Ptr, k: Continuation)
    requires At(s, x, t, n) && s.pcs[t] == PubStoreNext(n, h, k)
    ensures StepOk(s, x, RunThread(s, t), x, t, PubStoreRefs(n, h, k), n)
  {
    hide Holders;
    HoldersMove(s.pcs, t, PubStoreRefs(n, h, k), n);
    assert RunThread(s, t).next.Keys == s.next.Keys;
    assert x.status[n := x.status[n]] == x.status;
  }

  lemma PubStoreRefsStep(s: State, x: Aux, t: Tid, n: Node, h: Ptr, k: Continuation)
    requires At(s, x, t, n) && s.pcs[t] == PubStoreRefs(n, h, k)
    ensures StepOk(s, x, RunThread(s, t), NextAux(s, x, Run(t)), t, PubCasHead(n, h, k), n)
  {
    hide Holders;
    HoldersMove(s.pcs, t, PubCasHead(n, h, k), n);
  }

  lemma PubGiveBackStep(s: State, x: Aux, t: Tid, n: Node, h: Ptr, k: Continuation)
    requires At(s, x, t, n) && s.pcs[t] == PubGiveBack(n, h, k)
    ensures var s' := RunThread(s, t); StepOk(s, x, s', NextAux(s, x, Run(t)), t, s'.pcs[t], n)
  {
    hide Holders, FetchAdd;
    var pc := if RefsOf(s, n) == 1 then PubStoreNext(n, h, k) else Resume(k);
    var count := |Holders(s.pcs, n)|;
    HoldersMove(s.pcs, t, pc, n);
    GiveBack(count);
    assert RunThread(s, t) == Goto(SetRefs(s, n, SHOULD_BE_ON_FREELIST + count), t, pc);
  }

  lemma PubCasHeadStep(s: State, x: Aux, t: Tid, n: Node, h: Ptr, k: Continuation)
    requires At(s, x, t, n) && s.pcs[t] == PubCasHead(n, h, k) && s.head == h
    ensures StepOk(s, x, RunThread(s, t), NextAux(s, x, Run(t)), t, Resume(k), n)
  {
    hide Holders;
    HoldersMove(s.pcs, t, Resume(k), n);
  }

  lemma PubCasHeadShape(s: State, x: Aux, t: Tid, n: Node, h: Ptr, k: Continuation)
    requires At(s, x, t, n) && s.pcs[t] == PubCasHead(n, h, k) && s.head == h && ShapeOk(s, x)
    ensures ShapeOk(RunThread(s, t), NextAux(s, x, Run(t)))
  {
    assert NextAux(s, x, Run(t)).list[1..] == x.list;
  }

  /** A successful head swap in `try_get` finds the current head, and the `next` it installs is current. */
  lemma GetCasHeadStep(s: State, x: Aux, t: Tid, h: Node, nx: Ptr)
    requires At(s, x, t, h) && s.pcs[t] == GetCasHead(h, nx) && s.head == Some(h) && ShapeOk(s, x)
    ensures StepOk(s, x, RunThread(s, t), NextAux(s, x, Run(t)), t, GetAssert(h), h)
    ensures ShapeOk(RunThread(s, t), NextAux(s, x, Run(t)))
  {
    assert x.list == [h] + x.list[1..];
    HoldersMove(s.pcs, t, GetAssert(h), h);
  }

  /** The node an action writes to; no node for the actions that only move a thread. */
  function Touched(s: State, a: Action): Ptr
    requires Enabled(s, a)
  {
    match a
    case CallAdd(_, n) => Some(n)
    case CallTryGet(_) => None
    case Run(t) =>
      match s.pcs[t]
      case AddStart(n) => Some(n)
      case GetCasRefs(h, refs) => if RefsOf(s, h) == refs then Some(h) else None
      case GetCasHead(h, _) => if s.head == Some(h) then Some(h) else None
      case GetSubTwo(h) => Some(h)
      case GetSubOne(p, _) => Some(p)
      case PubStoreNext(n, _, _) => Some(n)
      case PubStoreRefs(n, _, _) => Some(n)
      case PubCasHead(n, h, _) => if s.head == h then Some(n) else None
      case PubGiveBack(n, _, _) => Some(n)
      case _ => None
  }

  lemma TouchStep(s: State, x: Aux, a: Action, n: Node)
    requires Enabled(s, a) && Touched(s, a) == Some(n) && At(s, x, a.t, n) && ShapeOk(s, x)
    ensures StepOk(s, x, Apply(s, a), NextAux(s, x, a), a.t, Apply(s, a).pcs[a.t], n)
  {
    match a
    case CallAdd(t, _) => CallAddStep(s, x, t, n);
    case Run(t) =>
      match s.pcs[t] {
        case AddStart(_) => AddStartStep(s, x, t, n);
        case GetCasRefs(_, refs) => GetCasRefsStep(s, x, t, n, refs);
        case GetCasHead(_, nx) => GetCasHeadStep(s, x, t, n, nx);
        case GetSubTwo(_) => GetSubTwoStep(s, x, t, n);
        case GetSubOne(_, h) => GetSubOneStep(s, x, t, n, h);
        case PubStoreNext(_, h, k) => PubStoreNextStep(s, x, t, n, h, k);
        case PubStoreRefs(_, h, k) => PubStoreRefsStep(s, x, t, n, h, k);
        case PubCasHead(_, h, k) => PubCasHeadStep(s, x, t, n, h, k);
        case PubGiveBack(_, h, k) => PubGiveBackStep(s, x, t, n, h, k);
      }
  }

  lemma TouchShape(s: State, x: Aux, a: Action, n: Node)
    requires Enabled(s, a) && Touched(s, a) == Some(n) && At(s, x, a.t, n) && ShapeOk(s, x)
    ensures ShapeOk(Apply(s, a), NextAux(s, x, a))
  {
    var s', x' := Apply(s, a), NextAux(s, x, a);
    if a.Run? && s.pcs[a.t].GetCasHead? {
      GetCasHeadStep(s, x, a.t, n, s.pcs[a.t].next);
    } else if a.Run? && s.pcs[a.t].PubCasHead? {
      PubCasHeadShape(s, x, a.t, n, s.head, s.pcs[a.t].k);
    } else if a.Run? && s.pcs[a.t].PubStoreNext? {
      ChainFrame(s.head, s.next, x.list, n, s.pcs[a.t].expected);
    } else {
      SameShape(s, x, s', x');
    }
  }

  lemma QuietMove(s: State, x: Aux, a: Action)
    requires Enabled(s, a) && Touched(s, a) == None && PtrOk(s.next.Keys, s.head)
    requires ThreadOk(s, x, a.t, s.pcs[a.t])
    ensures var pc := Apply(s, a).pcs[a.t];
      && Apply(s, a) == Goto(s, a.t, pc) && NextAux(s, x, a) == x
      && Held(pc) == Held(s.pcs[a.t]) && Claim(a.t, pc) == Claim(a.t, s.pcs[a.t]) && LocalsOk(s.next, pc)
  {
  }

  lemma QuietAction(s: State, x: Aux, a: Action)
    requires Inv(s, x) && Enabled(s, a) && Touched(s, a) == None
    ensures Inv(Apply(s, a), NextAux(s, x, a))
  {
    QuietMove(s, x, a);
    QuietInv(s, x, a.t, Apply(s, a).pcs[a.t]);
  }

  lemma TouchedNode(s: State, x: Aux, a: Action)
    requires Inv(s, x) && Enabled(s, a)
    ensures PtrOk(x.status.Keys, Touched(s, a))
  {
    assert ThreadOk(s, x, a.t, s.pcs[a.t]);
  }

  /** Every action keeps the invariant. */
  lemma ActionInv(s: State, x: Aux, a: Action)
    requires Inv(s, x) && Enabled(s, a)
    ensures Inv(Apply(s, a), NextAux(s, x, a))
  {
    var touched := Touched(s, a);
    TouchedNode(s, x, a);
    match touched
    case None => QuietAction(s, x, a);
    case Some(n) =>
      AtNodeOf(s, x, a.t, n);
      TouchStep(s, x, a, n);
      TouchShape(s, x, a, n);
      StepInv(s, x, Apply(s, a), NextAux(s, x, a), a.t, Apply(s, a).pcs[a.t], n);
  }
}
