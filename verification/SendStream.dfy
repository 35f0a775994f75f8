/**
 What a socket sends (Socket.h and WebSocket.cpp, without TLS): messages go to the kernel at once or wait
 in the queue, the kernel takes any prefix, refuses, or fails. A prepared message is shared by the
 queues of many sockets and counted.
 */
module SendStream {
  import opened Wrappers

  type Byte = bv8

  /** A message, or what is left of it; `owner` is the prepared message it belongs to, if any. */
  datatype Entry = Entry(bytes: seq<Byte>, owner: Option<nat>)

  /** An answer of the kernel: it takes up to n bytes, would block, or fails. */
  datatype Outcome = Takes(n: nat) | WouldBlock | Fatal

  datatype Sock = Sock(open: bool, queue: seq<Entry>, sent: seq<Byte>)

  datatype Verdict = Done | Held | Refused

  /** A call of a message's callback. */
  datatype Settled = Settled(owner: Option<nat>, cancelled: bool)

  function Push(s: Sock, e: Entry): Sock {
    s.(queue := s.queue + [e])
  }

  /** `write`: only an empty queue is bypassed; on failure the message is not accepted. */
  function Write(s: Sock, e: Entry, o: Outcome): (Sock, Verdict) {
    if s.queue != [] then (Push(s, e), Held)
    else
      match o
      case Takes(n) =>
        if n >= |e.bytes| then (s.(sent := s.sent + e.bytes), Done)
        else (Push(s.(sent := s.sent + e.bytes[..n]), e.(bytes := e.bytes[n..])), Held)
      case WouldBlock => (Push(s, e), Held)
      case Fatal => (s, Refused)
  }

  /** The loop of `ioHandler` on a writable socket, one answer of the kernel for each send. */
  function Flush(s: Sock, os: seq<Outcome>): (Sock, seq<Settled>)
    decreases |os|
  {
    if s.queue == [] || os == [] then (s, [])
    else
      var front := s.queue[0];
      match os[0]
      case Takes(n) =>
        if n >= |front.bytes| then
          var (s', calls) := Flush(Sock(s.open, s.queue[1..], s.sent + front.bytes), os[1..]);
          (s', [Settled(front.owner, false)] + calls)
        else
          (s.(queue := [front.(bytes := front.bytes[n..])] + s.queue[1..], sent := s.sent + front.bytes[..n]), [])
      case WouldBlock => (s, [])
      case Fatal => End(s)
  }

  function Cancelled(queue: seq<Entry>): seq<Settled> {
    if queue == [] then [] else [Settled(queue[0].owner, true)] + Cancelled(queue[1..])
  }

  /** `onEnd`: the socket is closed and everything still queued is cancelled. */
  function End(s: Sock): (Sock, seq<Settled>) {
    (Sock(false, [], s.sent), Cancelled(s.queue))
  }

  // ---------------------------------------------------------------------------------------------
  // What the answers of the kernel do
  // ---------------------------------------------------------------------------------------------

  /** The i-th answer takes all of the i-th message. */
  predicate TakesWhole(queue: seq<Entry>, os: seq<Outcome>, i: nat) {
    i < |queue| && i < |os| && os[i].Takes? && os[i].n >= |queue[i].bytes|
  }

  /** The first k answers take whole messages, and no further one does. */
  predicate StopsAt(queue: seq<Entry>, os: seq<Outcome>, k: nat) {
    k <= |queue| && k <= |os| && (forall i: nat | i < k :: TakesWhole(queue, os, i)) && !TakesWhole(queue, os, k)
  }

  /** The callbacks of these messages, in order. */
  function Settle(queue: seq<Entry>, cancelled: bool): seq<Settled> {
    seq(|queue|, i requires 0 <= i < |queue| => Settled(queue[i].owner, cancelled))
  }

  /**
   What a writable event has to do, k being the number of messages taken whole: these are sent and settled.
   If then a fatal answer meets a waiting message, the socket is closed and the rest is cancelled, in order;
   else it stays open with the rest waiting, the front shortened by what a short answer took.
   */
  predicate Flushed(s: Sock, os: seq<Outcome>, k: nat, s': Sock, calls: seq<Settled>)
    requires StopsAt(s.queue, os, k)
  {
    var rest, sent := s.queue[k..], s.sent + Waiting(s.queue[..k]);
    if rest != [] && k < |os| && os[k].Fatal? then
      s' == Sock(false, [], sent) && calls == Settle(s.queue[..k], false) + Settle(rest, true)
    else if rest != [] && k < |os| && os[k].Takes? then
      s' == Sock(true, [rest[0].(bytes := rest[0].bytes[os[k].n..])] + rest[1..], sent + rest[0].bytes[..os[k].n])
      && calls == Settle(s.queue[..k], false)
    else
      s' == Sock(true, rest, sent) && calls == Settle(s.queue[..k], false)
  }

  /** There is such a k, and only one. */
  lemma {:induction false} Stops(queue: seq<Entry>, os: seq<Outcome>) returns (k: nat)
    ensures StopsAt(queue, os, k)
    ensures forall j: nat | StopsAt(queue, os, j) :: j == k
  {
    k := 0;
    while TakesWhole(queue, os, k)
      invariant k <= |queue| && k <= |os| && forall i: nat | i < k :: TakesWhole(queue, os, i)
      decreases |queue| - k
    {
      k := k + 1;
    }
  }

  lemma {:induction false} CancelledIsSettle(queue: seq<Entry>)
    ensures Cancelled(queue) == Settle(queue, true)
  {
    if queue != [] {
      CancelledIsSettle(queue[1..]);
      SettleFirst(queue, true);
    }
  }

  lemma SettleFirst(queue: seq<Entry>, cancelled: bool)
    requires queue != []
    ensures Settle(queue, cancelled) == [Settled(queue[0].owner, cancelled)] + Settle(queue[1..], cancelled)
  {
  }

  lemma StopsLater(queue: seq<Entry>, os: seq<Outcome>, k: nat)
    requires StopsAt(queue, os, k) && k > 0
    ensures queue != [] && os != [] && TakesWhole(queue, os, 0) && StopsAt(queue[1..], os[1..], k - 1)
  {
    assert TakesWhole(queue, os, 0);
    forall i: nat | i < k - 1
      ensures TakesWhole(queue[1..], os[1..], i)
    {
      assert TakesWhole(queue, os, i + 1);
    }
  }

  /** `Flush` answers the kernel so. */
  lemma {:induction false} FlushAnswers(s: Sock, os: seq<Outcome>, k: nat)
    requires s.open && StopsAt(s.queue, os, k)
    ensures var (s', calls) := Flush(s, os); Flushed(s, os, k, s', calls)
    decreases |os|
  {
    if k == 0 {
      assert s.queue[..0] == [] && s.queue[0..] == s.queue && s.sent + [] == s.sent;
      CancelledIsSettle(s.queue);
      assert Settle([], false) + Settle(s.queue, true) == Settle(s.queue, true);
    } else {
      StopsLater(s.queue, os, k);
      var front := s.queue[0];
      var s1 := Sock(true, s.queue[1..], s.sent + front.bytes);
      FlushAnswers(s1, os[1..], k - 1);
      OneMore(s, os, k, s1);
    }
  }

  lemma FlushAnswersAll(s: Sock, os: seq<Outcome>)
    requires s.open
    ensures var (s', calls) := Flush(s, os); forall k | StopsAt(s.queue, os, k) :: Flushed(s, os, k, s', calls)
  {
    hide Flush, Flushed, StopsAt;
    forall k | StopsAt(s.queue, os, k)
      ensures var (s', calls) := Flush(s, os); Flushed(s, os, k, s', calls)
    {
      FlushAnswers(s, os, k);
    }
  }

  /** One message taken whole before. */
  lemma OneMore(s: Sock, os: seq<Outcome>, k: nat, s1: Sock)
    requires k > 0 && StopsAt(s.queue, os, k) && s.open && s.queue != [] && os != []
    requires s1 == Sock(true, s.queue[1..], s.sent + s.queue[0].bytes) && StopsAt(s1.queue, os[1..], k - 1)
    ensures s1.sent + Waiting(s1.queue[..k - 1]) == s.sent + Waiting(s.queue[..k])
    ensures s1.queue[k - 1..] == s.queue[k..]
    ensures Settle(s.queue[..k], false) == [Settled(s.queue[0].owner, false)] + Settle(s1.queue[..k - 1], false)
  {
    assert s.queue[..k][1..] == s1.queue[..k - 1];
    assert s.sent + s.queue[0].bytes + Waiting(s1.queue[..k - 1]) == s.sent + (s.queue[0].bytes + Waiting(s1.queue[..k - 1]));
    SettleFirst(s.queue[..k], false);
  }

  /** What a call of `write` has to do: the kernel is asked only if nothing waits. */
  predicate Written(s: Sock, e: Entry, o: Outcome, s': Sock, verdict: Verdict) {
    if s.queue != [] || o.WouldBlock? then s' == s.(queue := s.queue + [e]) && verdict == Held
    else if o.Fatal? then s' == s && verdict == Refused
    else if |e.bytes| <= o.n then s' == s.(sent := s.sent + e.bytes) && verdict == Done
    else s' == s.(sent := s.sent + e.bytes[..o.n], queue := [e.(bytes := e.bytes[o.n..])]) && verdict == Held
  }

  /** `Write` answers the kernel so: a message is refused only by a fatal answer, and then nothing changes. */
  lemma WriteAnswers(s: Sock, e: Entry, o: Outcome)
    ensures var (s', verdict) := Write(s, e, o); Written(s, e, o, s', verdict)
  {
    assert [] + [e] == [e];
  }

  // ---------------------------------------------------------------------------------------------
  // Conservation
  // ---------------------------------------------------------------------------------------------

  datatype Action = Send(e: Entry, o: Outcome) | Writable(os: seq<Outcome>) | Ended

  function Step(s: Sock, a: Action): Sock {
    if !s.open then s
    else
      match a
      case Send(e, o) => Write(s, e, o).0
      case Writable(os) => Flush(s, os).0
      case Ended => End(s).0
  }

  /** The bytes that the socket accepts for sending. */
  function Accepts(s: Sock, a: Action): seq<Byte> {
    if s.open && a.Send? && Write(s, a.e, a.o).1 != Refused then a.e.bytes else []
  }

  function Exec(s: Sock, run: seq<Action>): Sock
    decreases |run|
  {
    if run == [] then s else Exec(Step(s, run[0]), run[1..])
  }

  function Accepted(s: Sock, run: seq<Action>): seq<Byte>
    decreases |run|
  {
    if run == [] then [] else Accepts(s, run[0]) + Accepted(Step(s, run[0]), run[1..])
  }

  function Waiting(queue: seq<Entry>): seq<Byte> {
    if queue == [] then [] else queue[0].bytes + Waiting(queue[1..])
  }

  lemma {:induction false} WaitingConcat(a: seq<Entry>, b: seq<Entry>)
    ensures Waiting(a + b) == Waiting(a) + Waiting(b)
  {
    if a == [] {
      assert a + b == b;
    } else {
      WaitingConcat(a[1..], b);
      assert (a + b)[1..] == a[1..] + b;
      Regroup(a[0].bytes, Waiting(a[1..]), Waiting(b));
    }
  }

  lemma Regroup(a: seq<Byte>, b: seq<Byte>, c: seq<Byte>)
    ensures a + (b + c) == a + b + c
  {
  }

  lemma PushWaits(s: Sock, e: Entry)
    ensures Waiting(Push(s, e).queue) == Waiting(s.queue) + e.bytes
  {
    WaitingConcat(s.queue, [e]);
    assert Waiting([e][1..]) == [];
    assert Waiting([e]) == e.bytes;
  }

  /** Nothing is lost, repeated or reordered by a write. */
  lemma WriteConserves(s: Sock, e: Entry, o: Outcome)
    ensures var (s', verdict) := Write(s, e, o);
      && s'.open == s.open
      && s'.sent + Waiting(s'.queue) == s.sent + Waiting(s.queue) + (if verdict == Refused then [] else e.bytes)
  {
    hide Write, Waiting;
    WriteAnswers(s, e, o);
    PushWaits(s, e);
    Regroup(s.sent, Waiting(s.queue), e.bytes);
    if s.queue == [] {
      OneWaits(s.queue, e);
      if o.Takes? && o.n < |e.bytes| {
        OneWaits(s.queue, e.(bytes := e.bytes[o.n..]));
        assert e.bytes == e.bytes[..o.n] + e.bytes[o.n..];
        Regroup(s.sent, e.bytes[..o.n], e.bytes[o.n..]);
      }
    }
  }

  lemma OneWaits(queue: seq<Entry>, e: Entry)
    requires queue == []
    ensures Waiting(queue) == [] && Waiting([e]) == e.bytes
  {
    assert Waiting([e][1..]) == [];
  }

  /** A flush moves bytes from the queue to the kernel; when it ends the socket the rest is dropped. */
  lemma {:induction false} FlushConserves(s: Sock, os: seq<Outcome>)
    requires s.open
    ensures var s' := Flush(s, os).0;
      if s'.open then s'.sent + Waiting(s'.queue) == s.sent + Waiting(s.queue)
      else s'.queue == [] && s'.sent <= s.sent + Waiting(s.queue)
    decreases |os|
  {
    if s.queue != [] && os != [] {
      var front, rest := s.queue[0], s.queue[1..];
      if os[0].Takes? {
        var n := os[0].n;
        if n >= |front.bytes| {
          FlushConserves(Sock(s.open, rest, s.sent + front.bytes), os[1..]);
          assert s.sent + front.bytes + Waiting(rest) == s.sent + (front.bytes + Waiting(rest));
        } else {
          var left := front.(bytes := front.bytes[n..]);
          assert ([left] + rest)[1..] == rest;
          assert Waiting([left] + rest) == front.bytes[n..] + Waiting(rest);
          assert front.bytes == front.bytes[..n] + front.bytes[n..];
          assert s.sent + front.bytes[..n] + (front.bytes[n..] + Waiting(rest)) == s.sent + (front.bytes + Waiting(rest));
        }
      }
    }
  }

  /**
   Byte-stream conservation: after any run, what the kernel has taken followed by what waits is exactly
   what was accepted, in order; after the end of the socket, what the kernel has taken is a prefix.
   */
  lemma {:induction false} Conservation(s: Sock, run: seq<Action>)
    requires !s.open ==> s.queue == []
    ensures var s', stream := Exec(s, run), s.sent + Waiting(s.queue) + Accepted(s, run);
      if s'.open then s'.sent + Waiting(s'.queue) == stream else s'.queue == [] && s'.sent <= stream
    decreases |run|
  {
    hide Write, Flush, Waiting;
    if run != [] {
      var a, rest := run[0], run[1..];
      var s1 := Step(s, a);
      if s.open {
        match a
        case Send(e, o) => WriteConserves(s, e, o);
        case Writable(os) => FlushConserves(s, os);
        case Ended =>
      }
      Conservation(s1, rest);
      if s1.open {
        assert s1.sent + Waiting(s1.queue) == s.sent + Waiting(s.queue) + Accepts(s, a);
        Regroup(s.sent + Waiting(s.queue), Accepts(s, a), Accepted(s1, rest));
      } else {
        NothingAccepted(s1, rest);
      }
    }
  }

  lemma {:induction false} NothingAccepted(s: Sock, run: seq<Action>)
    requires !s.open
    ensures Accepted(s, run) == [] && Exec(s, run) == s
    decreases |run|
  {
    if run != [] {
      NothingAccepted(s, run[1..]);
    }
  }
}
