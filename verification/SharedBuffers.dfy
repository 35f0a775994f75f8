/**
 Prepared messages shared by many sockets (`prepareMessage`, `sendPrepared`, `finalizeMessage` of
 WebSocket.cpp): the buffer is freed once, when the last send is settled and the handle is gone.
 */
module SharedBuffers {
  import opened Wrappers
  import opened SendStream

  /** `handle`: not finalized yet; `frees`: how many times the buffer has been deleted. */
  datatype Prepared = Prepared(bytes: seq<Byte>, references: int, handle: bool, frees: nat)

  /** `misuse`: a counter or a buffer was touched after it had been deleted. */
  datatype World = World(prepared: seq<Prepared>, socks: seq<Sock>, misuse: bool)

  datatype Deed =
    | Prepare(bytes: seq<Byte>)
    | SendPrepared(i: nat, id: nat, o: Outcome)
    | SendPlain(i: nat, bytes: seq<Byte>, o: Outcome)
    | FlushSocket(i: nat, os: seq<Outcome>)
    | EndSocket(i: nat)
    | Finalize(id: nat)

  /** What is asked of the callers: only handles not yet finalized are used, and sockets not yet closed. */
  predicate Enabled(w: World, d: Deed) {
    match d
    case Prepare(_) => true
    case SendPrepared(i, id, _) => i < |w.socks| && w.socks[i].open && id < |w.prepared| && w.prepared[id].handle
    case SendPlain(i, _, _) => i < |w.socks| && w.socks[i].open
    case FlushSocket(i, _) => i < |w.socks| && w.socks[i].open
    case EndSocket(i) => i < |w.socks| && w.socks[i].open
    case Finalize(id) => id < |w.prepared| && w.prepared[id].handle
  }

  /** `!--references` and, for the last reference, the two deletes. */
  function Release(p: Prepared): Prepared {
    p.(references := p.references - 1, frees := if p.references == 1 then p.frees + 1 else p.frees)
  }

  /** The callback of `sendPrepared`. */
  function SettleOne(w: World, id: nat): World {
    if id >= |w.prepared| then w.(misuse := true)
    else w.(prepared := w.prepared[id := Release(w.prepared[id])], misuse := w.misuse || w.prepared[id].frees > 0)
  }

  function SettleAll(w: World, calls: seq<Settled>): World
    decreases |calls|
  {
    if calls == [] then w
    else SettleAll(if calls[0].owner.Some? then SettleOne(w, calls[0].owner.value) else w, calls[1..])
  }

  function Do(w: World, d: Deed): World
    requires Enabled(w, d)
  {
    match d
    case Prepare(bytes) => w.(prepared := w.prepared + [Prepared(bytes, 1, true, 0)])
    case SendPrepared(i, id, o) =>
      var p := w.prepared[id];
      var (s, verdict) := Write(w.socks[i], Entry(p.bytes, Some(id)), o);
      var w' := World(w.prepared[id := p.(references := p.references + 1)], w.socks[i := s], w.misuse || p.frees > 0);
      if verdict == Held then w' else SettleOne(w', id)
    case SendPlain(i, bytes, o) => w.(socks := w.socks[i := Write(w.socks[i], Entry(bytes, None), o).0])
    case FlushSocket(i, os) =>
      var (s, calls) := Flush(w.socks[i], os);
      SettleAll(w.(socks := w.socks[i := s]), calls)
    case EndSocket(i) =>
      var (s, calls) := End(w.socks[i]);
      SettleAll(w.(socks := w.socks[i := s]), calls)
    case Finalize(id) =>
      var w' := SettleOne(w, id);
      w'.(prepared := w'.prepared[id := w'.prepared[id].(handle := false)])
  }

  predicate Legal(w: World, run: seq<Deed>)
    decreases |run|
  {
    run == [] || (Enabled(w, run[0]) && Legal(Do(w, run[0]), run[1..]))
  }

  function Exec(w: World, run: seq<Deed>): World
    requires Legal(w, run)
    decreases |run|
  {
    if run == [] then w else Exec(Do(w, run[0]), run[1..])
  }

  // ---------------------------------------------------------------------------------------------
  // Counting
  // ---------------------------------------------------------------------------------------------

  function Count(queue: seq<Entry>, id: nat): nat {
    if queue == [] then 0 else (if queue[0].owner == Some(id) then 1 else 0) + Count(queue[1..], id)
  }

  /** The sends of a prepared message that are not settled: its entries in all queues. */
  function Unsettled(socks: seq<Sock>, id: nat): nat {
    if socks == [] then 0 else Count(socks[0].queue, id) + Unsettled(socks[1..], id)
  }

  function Calls(calls: seq<Settled>, id: nat): nat {
    if calls == [] then 0 else (if calls[0].owner == Some(id) then 1 else 0) + Calls(calls[1..], id)
  }

  lemma {:induction false} CountPush(queue: seq<Entry>, e: Entry, id: nat)
    ensures Count(queue + [e], id) == Count(queue, id) + if e.owner == Some(id) then 1 else 0
  {
    if queue == [] {
      assert queue + [e] == [e];
      assert [e][1..] == [];
    } else {
      CountPush(queue[1..], e, id);
      assert (queue + [e])[1..] == queue[1..] + [e];
    }
  }

  lemma {:induction false} UnsettledMove(socks: seq<Sock>, i: nat, s: Sock, id: nat)
    requires i < |socks|
    ensures Unsettled(socks[i := s], id) == Unsettled(socks, id) - Count(socks[i].queue, id) + Count(s.queue, id)
  {
    var after := socks[i := s];
    if i == 0 {
      assert after[1..] == socks[1..];
    } else {
      UnsettledMove(socks[1..], i - 1, s, id);
      assert after[1..] == socks[1..][i - 1 := s];
    }
  }

  lemma WriteCounts(s: Sock, e: Entry, o: Outcome, id: nat)
    ensures var (s', verdict) := Write(s, e, o);
      Count(s'.queue, id) == Count(s.queue, id) + if verdict == Held && e.owner == Some(id) then 1 else 0
  {
    CountPush(s.queue, e, id);
    if o.Takes? && o.n < |e.bytes| {
      CountPush(s.queue, e.(bytes := e.bytes[o.n..]), id);
    }
  }

  lemma {:induction false} EndCounts(queue: seq<Entry>, id: nat)
    ensures Calls(Cancelled(queue), id) == Count(queue, id)
  {
    if queue != [] {
      EndCounts(queue[1..], id);
      assert Cancelled(queue)[1..] == Cancelled(queue[1..]);
    }
  }

  /** Every entry that leaves a queue is settled, once. */
  lemma {:induction false} FlushCounts(s: Sock, os: seq<Outcome>, id: nat)
    ensures var (s', calls) := Flush(s, os); Count(s'.queue, id) + Calls(calls, id) == Count(s.queue, id)
    decreases |os|
  {
    if s.queue != [] && os != [] {
      var front, rest := s.queue[0], s.queue[1..];
      match os[0]
      case Takes(n) =>
        if n >= |front.bytes| {
          var s1 := Sock(s.open, rest, s.sent + front.bytes);
          FlushCounts(s1, os[1..], id);
          var calls := Flush(s1, os[1..]).1;
          assert ([Settled(front.owner, false)] + calls)[1..] == calls;
        } else {
          assert ([front.(bytes := front.bytes[n..])] + rest)[1..] == rest;
        }
      case WouldBlock =>
      case Fatal => EndCounts(s.queue, id);
    }
  }

  // ---------------------------------------------------------------------------------------------
  // The invariant
  // ---------------------------------------------------------------------------------------------

  /** With n unsettled sends: the count is exact, and the buffer is deleted exactly when it is zero. */
  predicate Counted(p: Prepared, n: int) {
    p.references == (if p.handle then 1 else 0) + n && p.frees == if p.references == 0 then 1 else 0
  }

  predicate OwnersExist(socks: seq<Sock>, n: nat) {
    forall i, k | 0 <= i < |socks| && 0 <= k < |socks[i].queue| ::
      socks[i].queue[k].owner.Some? ==> socks[i].queue[k].owner.value < n
  }

  predicate Inv(w: World) {
    && !w.misuse && OwnersExist(w.socks, |w.prepared|)
    && forall id | 0 <= id < |w.prepared| :: Counted(w.prepared[id], Unsettled(w.socks, id))
  }

  predicate CallsExist(calls: seq<Settled>, n: nat) {
    forall k | 0 <= k < |calls| :: calls[k].owner.Some? ==> calls[k].owner.value < n
  }

  lemma {:induction false} SettleKeepsCounts(w: World, calls: seq<Settled>)
    requires !w.misuse && CallsExist(calls, |w.prepared|)
    requires forall id | 0 <= id < |w.prepared| :: Counted(w.prepared[id], Unsettled(w.socks, id) + Calls(calls, id))
    ensures var w' := SettleAll(w, calls);
      && !w'.misuse && |w'.prepared| == |w.prepared| && w'.socks == w.socks
      && forall id | 0 <= id < |w.prepared| :: Counted(w'.prepared[id], Unsettled(w.socks, id))
    decreases |calls|
  {
    if calls != [] {
      var w1 := if calls[0].owner.Some? then SettleOne(w, calls[0].owner.value) else w;
      forall id | 0 <= id < |w1.prepared|
        ensures Counted(w1.prepared[id], Unsettled(w1.socks, id) + Calls(calls[1..], id))
      {
        assert Counted(w.prepared[id], Unsettled(w.socks, id) + Calls(calls, id));
      }
      if calls[0].owner.Some? {
        var id := calls[0].owner.value;
        assert Counted(w.prepared[id], Unsettled(w.socks, id) + Calls(calls, id));
      }
      SettleKeepsCounts(w1, calls[1..]);
    }
  }

  predicate QueueOwnersExist(queue: seq<Entry>, n: nat) {
    forall k | 0 <= k < |queue| :: queue[k].owner.Some? ==> queue[k].owner.value < n
  }

  lemma OwnersMove(socks: seq<Sock>, i: nat, s: Sock, n: nat, m: nat)
    requires i < |socks| && OwnersExist(socks, n) && n <= m && QueueOwnersExist(s.queue, m)
    ensures OwnersExist(socks[i := s], m)
  {
  }

  lemma {:induction false} CancelledOwners(queue: seq<Entry>, n: nat)
    requires QueueOwnersExist(queue, n)
    ensures CallsExist(Cancelled(queue), n)
  {
    if queue != [] {
      CancelledOwners(queue[1..], n);
      ConsCalls(Settled(queue[0].owner, true), Cancelled(queue[1..]), n);
    }
  }

  lemma ConsCalls(c: Settled, calls: seq<Settled>, n: nat)
    requires CallsExist(calls, n) && (c.owner.Some? ==> c.owner.value < n)
    ensures CallsExist([c] + calls, n)
  {
  }

  lemma {:induction false} FlushOwners(s: Sock, os: seq<Outcome>, n: nat)
    requires QueueOwnersExist(s.queue, n)
    ensures QueueOwnersExist(Flush(s, os).0.queue, n) && CallsExist(Flush(s, os).1, n)
    decreases |os|
  {
    if s.queue != [] && os != [] {
      var front, rest := s.queue[0], s.queue[1..];
      if os[0].Takes? && os[0].n >= |front.bytes| {
        var s1 := Sock(s.open, rest, s.sent + front.bytes);
        FlushOwners(s1, os[1..], n);
        ConsCalls(Settled(front.owner, false), Flush(s1, os[1..]).1, n);
      } else if os[0].Fatal? {
        CancelledOwners(s.queue, n);
      }
    }
  }

  /** A socket changes and some sends are settled: the counts stay exact. */
  lemma SettledInv(w: World, i: nat, s: Sock, calls: seq<Settled>)
    requires Inv(w) && i < |w.socks| && QueueOwnersExist(s.queue, |w.prepared|) && CallsExist(calls, |w.prepared|)
    requires forall id: nat :: Count(s.queue, id) + Calls(calls, id) == Count(w.socks[i].queue, id)
    ensures Inv(SettleAll(w.(socks := w.socks[i := s]), calls))
  {
    var w1 := w.(socks := w.socks[i := s]);
    OwnersMove(w.socks, i, s, |w.prepared|, |w.prepared|);
    forall id | 0 <= id < |w1.prepared|
      ensures Counted(w1.prepared[id], Unsettled(w1.socks, id) + Calls(calls, id))
    {
      UnsettledMove(w.socks, i, s, id);
      assert Counted(w.prepared[id], Unsettled(w.socks, id));
    }
    SettleKeepsCounts(w1, calls);
  }

  lemma SendPreparedInv(w: World, i: nat, id: nat, o: Outcome)
    requires Inv(w) && Enabled(w, SendPrepared(i, id, o))
    ensures Inv(Do(w, SendPrepared(i, id, o)))
  {
    var p, e := w.prepared[id], Entry(w.prepared[id].bytes, Some(id));
    var (s, verdict) := Write(w.socks[i], e, o);
    assert Counted(p, Unsettled(w.socks, id));
    var w1 := World(w.prepared[id := p.(references := p.references + 1)], w.socks[i := s], false);
    OwnersMove(w.socks, i, s, |w.prepared|, |w.prepared|);
    var calls := if verdict == Held then [] else [Settled(Some(id), false)];
    forall j | 0 <= j < |w1.prepared|
      ensures Counted(w1.prepared[j], Unsettled(w1.socks, j) + Calls(calls, j))
    {
      UnsettledMove(w.socks, i, s, j);
      WriteCounts(w.socks[i], e, o, j);
      assert Counted(w.prepared[j], Unsettled(w.socks, j));
      OneCall(id, j);
    }
    SettleKeepsCounts(w1, calls);
    if verdict != Held {
      assert calls[1..] == [];
      assert SettleAll(w1, calls) == SettleOne(w1, id);
    }
  }

  lemma OneCall(id: nat, j: nat)
    ensures Calls([], j) == 0 && Calls([Settled(Some(id), false)], j) == if id == j then 1 else 0
  {
    assert [Settled(Some(id), false)][1..] == [];
  }

  lemma SendPlainInv(w: World, i: nat, bytes: seq<Byte>, o: Outcome)
    requires Inv(w) && Enabled(w, SendPlain(i, bytes, o))
    ensures Inv(Do(w, SendPlain(i, bytes, o)))
  {
    var e := Entry(bytes, None);
    var s := Write(w.socks[i], e, o).0;
    OwnersMove(w.socks, i, s, |w.prepared|, |w.prepared|);
    forall id | 0 <= id < |w.prepared|
      ensures Counted(w.prepared[id], Unsettled(w.socks[i := s], id))
    {
      UnsettledMove(w.socks, i, s, id);
      WriteCounts(w.socks[i], e, o, id);
      assert Counted(w.prepared[id], Unsettled(w.socks, id));
    }
  }

  lemma PrepareInv(w: World, bytes: seq<Byte>)
    requires Inv(w)
    ensures Inv(Do(w, Prepare(bytes)))
  {
    var n := |w.prepared|;
    NothingQueued(w.socks, n);
    forall id | 0 <= id < n + 1
      ensures Counted(Do(w, Prepare(bytes)).prepared[id], Unsettled(w.socks, id))
    {
      assert id < n ==> Counted(w.prepared[id], Unsettled(w.socks, id));
    }
  }

  lemma {:induction false} NothingQueued(socks: seq<Sock>, n: nat)
    requires OwnersExist(socks, n)
    ensures Unsettled(socks, n) == 0
  {
    if socks != [] {
      NothingQueued(socks[1..], n);
      NoneOwned(socks[0].queue, n);
    }
  }

  lemma {:induction false} NoneOwned(queue: seq<Entry>, n: nat)
    requires QueueOwnersExist(queue, n)
    ensures Count(queue, n) == 0
  {
    if queue != [] {
      NoneOwned(queue[1..], n);
    }
  }

  lemma FinalizeInv(w: World, id: nat)
    requires Inv(w) && Enabled(w, Finalize(id))
    ensures Inv(Do(w, Finalize(id)))
  {
    assert Counted(w.prepared[id], Unsettled(w.socks, id));
    forall j | 0 <= j < |w.prepared|
      ensures Counted(Do(w, Finalize(id)).prepared[j], Unsettled(w.socks, j))
    {
      assert Counted(w.prepared[j], Unsettled(w.socks, j));
    }
  }

  /** Every step keeps the counts exact and touches nothing that has been deleted. */
  lemma DoInv(w: World, d: Deed)
    requires Inv(w) && Enabled(w, d)
    ensures Inv(Do(w, d))
  {
    match d
    case Prepare(bytes) => PrepareInv(w, bytes);
    case SendPrepared(i, id, o) => SendPreparedInv(w, i, id, o);
    case SendPlain(i, bytes, o) => SendPlainInv(w, i, bytes, o);
    case FlushSocket(i, os) =>
      FlushOwners(w.socks[i], os, |w.prepared|);
      forall id: nat {
        FlushCounts(w.socks[i], os, id);
      }
      SettledInv(w, i, Flush(w.socks[i], os).0, Flush(w.socks[i], os).1);
    case EndSocket(i) =>
      CancelledOwners(w.socks[i].queue, |w.prepared|);
      forall id: nat {
        EndCounts(w.socks[i].queue, id);
      }
      SettledInv(w, i, End(w.socks[i]).0, End(w.socks[i]).1);
    case Finalize(id) => FinalizeInv(w, id);
  }

  predicate Initial(w: World) {
    w.prepared == [] && !w.misuse && forall i | 0 <= i < |w.socks| :: w.socks[i].queue == []
  }

  lemma {:induction false} ExecInv(w: World, run: seq<Deed>)
    requires Inv(w) && Legal(w, run)
    ensures Inv(Exec(w, run))
    decreases |run|
  {
    if run != [] {
      DoInv(w, run[0]);
      ExecInv(Do(w, run[0]), run[1..]);
    }
  }

  /**
   In every reachable world a prepared message's count is its handle plus its unsettled sends; the buffer
   has been freed once if that is zero, and not at all otherwise; nothing freed was ever touched.
   */
  lemma FreedExactlyOnce(w: World, run: seq<Deed>, id: nat)
    requires Initial(w) && Legal(w, run) && id < |Exec(w, run).prepared|
    ensures var w' := Exec(w, run);
      var p, unsettled := w'.prepared[id], Unsettled(w'.socks, id);
      && !w'.misuse && p.references == (if p.handle then 1 else 0) + unsettled
      && p.frees == if !p.handle && unsettled == 0 then 1 else 0
  {
    ExecInv(w, run);
    assert Counted(Exec(w, run).prepared[id], Unsettled(Exec(w, run).socks, id));
  }

  lemma {:induction false} EntryIsCounted(queue: seq<Entry>, k: nat, id: nat)
    requires k < |queue| && queue[k].owner == Some(id)
    ensures Count(queue, id) > 0
  {
    if k > 0 {
      EntryIsCounted(queue[1..], k - 1, id);
    }
  }

  lemma {:induction false} QueueIsCounted(socks: seq<Sock>, i: nat, id: nat)
    requires i < |socks|
    ensures Unsettled(socks, id) >= Count(socks[i].queue, id)
  {
    if i > 0 {
      QueueIsCounted(socks[1..], i - 1, id);
    }
  }

  /** So a buffer is alive as long as any queue points into it. */
  lemma QueuedBufferIsAlive(w: World, run: seq<Deed>, i: nat, k: nat)
    requires Initial(w) && Legal(w, run)
    requires var w' := Exec(w, run); i < |w'.socks| && k < |w'.socks[i].queue| && w'.socks[i].queue[k].owner.Some?
    ensures var w' := Exec(w, run); var id := w'.socks[i].queue[k].owner.value;
      id < |w'.prepared| && w'.prepared[id].frees == 0 && w'.prepared[id].references > 0
  {
    ExecInv(w, run);
    var w' := Exec(w, run);
    var id := w'.socks[i].queue[k].owner.value;
    EntryIsCounted(w'.socks[i].queue, k, id);
    QueueIsCounted(w'.socks, i, id);
    assert Counted(w'.prepared[id], Unsettled(w'.socks, id));
  }
}
