/**
 The compare-and-swap free list of lock_free_stack.hpp as a transition system.

 One action is one atomic access. Every thread has a program counter carrying the C++ locals that
 are live at that point. Atomics are sequentially consistent. Reference words are 32 bits wide and
 wrap, as `fetch_add` and `fetch_sub` on `std::uint32_t` do.
 */
module FreeListMachine {
  import opened Wrappers

  type Node = nat
  type Tid = nat
  type Ptr = Option<Node>

  /** Bit 31 of a reference word: the node waits to be put on the list. */
  const SHOULD_BE_ON_FREELIST: nat := 0x8000_0000
  const WORD_SIZE: nat := 0x1_0000_0000

  function FetchAdd(word: nat, delta: nat): nat {
    (word + delta) % WORD_SIZE
  }

  function FetchSub(word: nat, delta: nat): nat {
    (word - delta) % WORD_SIZE
  }

  /** `refs & REFS_MASK`. */
  function LowBits(word: nat): nat {
    word % SHOULD_BE_ON_FREELIST
  }

  /** `(refs & SHOULD_BE_ON_FREELIST) != 0`. */
  predicate BitSet(word: nat) {
    word / SHOULD_BE_ON_FREELIST % 2 == 1
  }

  /** What a thread does once `add_knowing_refcount_is_zero` returns. */
  datatype Continuation = ReturnFromAdd | RetryGet(head: Ptr)

  datatype PC =
    | Idle
    | AddStart(node: Node)                                       // about to set the bit, line 38
    | GetLoadHead                                                // lines 47 and 52
    | GetLoadRefs(head: Node)                                    // line 50
    | GetCasRefs(head: Node, refs: nat)                          // line 51
    | GetLoadNext(head: Node)                                    // line 58
    | GetCasHead(head: Node, next: Ptr)                          // line 59
    | GetAssert(head: Node)                                      // line 62
    | GetSubTwo(head: Node)                                      // line 65
    | GetSubOne(prevHead: Node, newHead: Ptr)                    // line 72
    | PubLoadHead(node: Node, k: Continuation)                   // line 95
    | PubStoreNext(node: Node, expected: Ptr, k: Continuation)   // line 97
    | PubStoreRefs(node: Node, expected: Ptr, k: Continuation)   // line 98
    | PubCasHead(node: Node, expected: Ptr, k: Continuation)     // line 99
    | PubGiveBack(node: Node, expected: Ptr, k: Continuation)    // line 101

  /**
   `owned` is the environment: the nodes some client may pass to `add`. Ownership is not tied to a
   thread, so a client may hand a node to another thread before adding it.
   */
  datatype State = State(
    head: Ptr,
    refs: map<Node, nat>,
    next: map<Node, Ptr>,
    owned: set<Node>,
    pcs: map<Tid, PC>)

  datatype Action =
    | CallAdd(t: Tid, node: Node)
    | CallTryGet(t: Tid)
    | Run(t: Tid)

  function RefsOf(s: State, n: Node): nat {
    if n in s.refs then s.refs[n] else 0
  }

  function NextOf(s: State, n: Node): Ptr {
    if n in s.next then s.next[n] else None
  }

  /** The test `head != nullptr` of the loop on line 48, made on a local. */
  function LoopTest(head: Ptr): PC {
    match head
    case None => Idle
    case Some(h) => GetLoadRefs(h)
  }

  function Resume(k: Continuation): PC {
    match k
    case ReturnFromAdd => Idle
    case RetryGet(h) => LoopTest(h)
  }

  predicate Enabled(s: State, a: Action) {
    a.t in s.pcs &&
    match a
    case CallAdd(t, n) => s.pcs[t] == Idle && n in s.owned
    case CallTryGet(t) => s.pcs[t] == Idle
    case Run(t) => s.pcs[t] != Idle
  }

  function Goto(s: State, t: Tid, pc: PC): State {
    s.(pcs := s.pcs[t := pc])
  }

  function SetRefs(s: State, n: Node, word: nat): State {
    s.(refs := s.refs[n := word])
  }

  function Apply(s: State, a: Action): State
    requires Enabled(s, a)
  {
    match a
    case CallAdd(t, n) => Goto(s, t, AddStart(n)).(owned := s.owned - {n})
    case CallTryGet(t) => Goto(s, t, GetLoadHead)
    case Run(t) => RunThread(s, t)
  }

  function RunThread(s: State, t: Tid): State
    requires t in s.pcs && s.pcs[t] != Idle
  {
    match s.pcs[t]
    case AddStart(n) =>
      var word := RefsOf(s, n);
      var s' := SetRefs(s, n, FetchAdd(word, SHOULD_BE_ON_FREELIST));
      Goto(s', t, if word == 0 then PubLoadHead(n, ReturnFromAdd) else Idle)
    case GetLoadHead => Goto(s, t, LoopTest(s.head))
    case GetLoadRefs(h) =>
      var refs := RefsOf(s, h);
      Goto(s, t, if LowBits(refs) == 0 then GetLoadHead else GetCasRefs(h, refs))
    case GetCasRefs(h, refs) =>
      if RefsOf(s, h) == refs then Goto(SetRefs(s, h, FetchAdd(refs, 1)), t, GetLoadNext(h))
      else Goto(s, t, GetLoadHead)
    case GetLoadNext(h) => Goto(s, t, GetCasHead(h, NextOf(s, h)))
    case GetCasHead(h, nx) =>
      if s.head == Some(h) then Goto(s.(head := nx), t, GetAssert(h))
      else Goto(s, t, GetSubOne(h, s.head))
    case GetAssert(h) => Goto(s, t, GetSubTwo(h))
    case GetSubTwo(h) => Goto(SetRefs(s, h, FetchSub(RefsOf(s, h), 2)), t, Idle).(owned := s.owned + {h})
    case GetSubOne(p, h) =>
      var word := RefsOf(s, p);
      var s' := SetRefs(s, p, FetchSub(word, 1));
      Goto(s', t, if word == SHOULD_BE_ON_FREELIST + 1 then PubLoadHead(p, RetryGet(h)) else LoopTest(h))
    case PubLoadHead(n, k) => Goto(s, t, PubStoreNext(n, s.head, k))
    case PubStoreNext(n, h, k) => Goto(s.(next := s.next[n := h]), t, PubStoreRefs(n, h, k))
    case PubStoreRefs(n, h, k) => Goto(SetRefs(s, n, 1), t, PubCasHead(n, h, k))
    case PubCasHead(n, h, k) =>
      if s.head == h then Goto(s.(head := Some(n)), t, Resume(k))
      else Goto(s, t, PubGiveBack(n, s.head, k))
    case PubGiveBack(n, h, k) =>
      var word := RefsOf(s, n);
      var s' := SetRefs(s, n, FetchAdd(word, SHOULD_BE_ON_FREELIST - 1));
      Goto(s', t, if word == 1 then PubStoreNext(n, h, k) else Resume(k))
  }

  /** A fresh list: no node on it, every node with clients, no call in progress. */
  predicate Initial(s: State) {
    && s.head == None
    && s.next.Keys == s.refs.Keys == s.owned
    && (forall n <- s.next :: s.next[n] == None)
    && (forall n <- s.refs :: s.refs[n] == 0)
    && (forall t <- s.pcs :: s.pcs[t] == Idle)
  }

  /** The executions of the program: any interleaving of calls and thread steps. */
  predicate Legal(s: State, run: seq<Action>)
    decreases |run|
  {
    run == [] || (Enabled(s, run[0]) && Legal(Apply(s, run[0]), run[1..]))
  }

  function Exec(s: State, run: seq<Action>): State
    requires Legal(s, run)
    decreases |run|
  {
    if run == [] then s else Exec(Apply(s, run[0]), run[1..])
  }
}
