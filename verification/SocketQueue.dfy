/**
 The linked message queue of Socket.h and the two places that use it, `write` and the writable branch of
 `ioHandler`, proved to do what SendStream says.
 */
module SocketQueue {
  import opened Wrappers
  import opened SendStream

  class Message {
    var data: seq<Byte>          // what is left to send; the shared buffer itself is never written
    var owner: Option<nat>
    var nextMessage: Message?

    constructor (data: seq<Byte>, owner: Option<nat>)
      ensures this.data == data && this.owner == owner
    {
      this.data, this.owner, nextMessage := data, owner, null;
    }

    ghost function View(): Entry
      reads `data, `owner
    {
      Entry(data, owner)
    }
  }

  ghost function Views(list: seq<Message>): seq<Entry>
    reads list
  {
    if list == [] then [] else [list[0].View()] + Views(list[1..])
  }

  lemma {:induction false} ViewsAppend(list: seq<Message>, m: Message)
    ensures Views(list + [m]) == Views(list) + [m.View()]
  {
    if list == [] {
      assert list + [m] == [m];
      assert Views([m][1..]) == [];
    } else {
      ViewsAppend(list[1..], m);
      assert (list + [m])[1..] == list[1..] + [m];
    }
  }

  ghost predicate Distinct(list: seq<Message>) {
    forall i, j | 0 <= i < j < |list| :: list[i] != list[j]
  }

  ghost predicate Chained(list: seq<Message>)
    reads list
  {
    && (forall i, j | 0 <= i < |list| && j == i + 1 && j < |list| :: list[i].nextMessage == list[j])
    && (list != [] ==> list[|list| - 1].nextMessage == null)
  }

  class Queue {
    var head: Message?
    var tail: Message?
    ghost var list: seq<Message>

    ghost predicate Valid()
      reads this, list
    {
      && Distinct(list) && Chained(list)
      && head == (if list == [] then null else list[0])
      && tail == if list == [] then null else list[|list| - 1]
    }

    ghost function Contents(): seq<Entry>
      reads this, list
    {
      Views(list)
    }

    constructor ()
      ensures Valid() && list == []
    {
      head, tail, list := null, null, [];
    }

    function Empty(): (empty: bool)
      requires Valid()
      reads this, list
      ensures empty <==> Contents() == []
    {
      head == null
    }

    method Pop()
      requires Valid() && list != []
      modifies this
      ensures Valid() && list == old(list[1..]) && Contents() == old(Contents()[1..])
    {
      assert |list| > 1 ==> list[0].nextMessage == list[1];
      var nextMessage := head.nextMessage;
      if nextMessage != null {
        head := nextMessage;
      } else {
        head, tail := null, null;
      }
      list := list[1..];
    }

    method Push(message: Message)
      requires Valid() && message !in list
      modifies this, message`nextMessage, list
      ensures Valid() && list == old(list) + [message]
      ensures Contents() == old(Contents()) + [old(message.View())]
    {
      message.nextMessage := null;
      if tail != null {
        tail.nextMessage := message;
        tail := message;
      } else {
        head := message;
        tail := message;
      }
      list := list + [message];
      ViewsUnchanged(old(list));
      ViewsAppend(old(list), message);
    }
  }

  /** Relinking does not change what the messages hold. */
  twostate lemma {:induction false} ViewsUnchanged(list: seq<Message>)
    requires forall m <- list :: m.data == old(m.data) && m.owner == old(m.owner)
    ensures Views(list) == old(Views(list))
    decreases |list|
  {
    if list != [] {
      ViewsUnchanged(list[1..]);
    }
  }

  /** What `write` tells its caller. */
  function Answer(ok: bool, wasTransferred: bool): Verdict {
    if !ok then Refused else if wasTransferred then Held else Done
  }

  class Socket {
    const messageQueue: Queue
    var open: bool
    var writable: bool           // the UV_WRITABLE bit of the poll state
    ghost var sent: seq<Byte>    // what the kernel has taken

    ghost predicate Valid()
      reads this, messageQueue, messageQueue.list
    {
      && messageQueue.Valid()
      && (open && messageQueue.list != [] ==> writable)      // or the queue would never be flushed
      && (!open ==> messageQueue.list == [])
    }

    ghost function State(): Sock
      reads this, messageQueue, messageQueue.list
    {
      Sock(open, messageQueue.Contents(), sent)
    }

    constructor ()
      ensures Valid() && State() == Sock(true, [], []) && fresh(messageQueue)
    {
      messageQueue := new Queue();
      open, writable, sent := true, false, [];
    }

    /** `outcome` is the kernel's answer if it is asked. A message that waits belongs to the queue. */
    method Write(message: Message, outcome: Outcome) returns (ok: bool, wasTransferred: bool)
      requires Valid() && open && message !in messageQueue.list
      modifies this, message, messageQueue, messageQueue.list
      ensures Valid()
      ensures var (s, verdict) := SendStream.Write(old(State()), old(message.View()), outcome);
        State() == s && ok == (verdict != Refused) && wasTransferred == (verdict == Held)
      ensures Written(old(State()), old(message.View()), outcome, State(), Answer(ok, wasTransferred))
      ensures messageQueue.list == old(messageQueue.list) + if wasTransferred then [message] else []
    {
      WriteAnswers(State(), message.View(), outcome);
      assert old(messageQueue.Contents()) + [] == old(messageQueue.Contents());
      if messageQueue.Empty() {
        match outcome {
          case Takes(n) =>
            if n >= |message.data| {
              sent := sent + message.data;
              return true, false;
            }
            sent := sent + message.data[..n];
            message.data := message.data[n..];
          case WouldBlock =>
          case Fatal =>
            return false, false;
        }
        if !writable {
          writable := true;
        }
      }
      messageQueue.Push(message);
      return true, true;
    }

    /** The front message is settled: its callback is called and it leaves the queue. */
    method SettleFront(cancelled: bool) returns (call: Settled)
      requires messageQueue.Valid() && messageQueue.list != []
      modifies messageQueue
      ensures messageQueue.Valid() && messageQueue.list == old(messageQueue.list[1..])
      ensures messageQueue.Contents() == old(messageQueue.Contents()[1..])
      ensures call == Settled(old(messageQueue.Contents()[0]).owner, cancelled)
    {
      call := Settled(messageQueue.head.owner, cancelled);
      messageQueue.Pop();
    }

    /** `onEnd`: closes the socket and cancels what waits. */
    method OnEnd() returns (calls: seq<Settled>)
      requires messageQueue.Valid()
      modifies this, messageQueue
      ensures Valid()
      ensures var (s, settled) := End(old(State())); State() == s && calls == settled
    {
      calls := [];
      open := false;
      ghost var all := Cancelled(messageQueue.Contents());
      while !messageQueue.Empty()
        invariant messageQueue.Valid() && sent == old(sent) && !open
        invariant calls + Cancelled(messageQueue.Contents()) == all
        decreases |messageQueue.list|
      {
        ghost var before := messageQueue.Contents();
        var call := SettleFront(true);
        assert calls + ([call] + Cancelled(before[1..])) == calls + [call] + Cancelled(before[1..]);
        calls := calls + [call];
      }
    }

    /** The kernel took only the first n bytes of the front message. */
    method Shorten(n: nat)
      requires messageQueue.Valid() && messageQueue.list != [] && n <= |messageQueue.list[0].data|
      modifies messageQueue.list[0]
      ensures messageQueue.Valid()
      ensures var was := old(messageQueue.Contents());
        messageQueue.Contents() == [was[0].(bytes := was[0].bytes[n..])] + was[1..]
    {
      var messagePtr := messageQueue.head;
      assert forall m <- messageQueue.list[1..] :: m != messagePtr;
      messagePtr.data := messagePtr.data[n..];
      ViewsUnchanged(messageQueue.list[1..]);
    }

    /** The loop on a writable socket; `outcomes` are the kernel's answers, one for each send. */
    method Flush(outcomes: seq<Outcome>) returns (calls: seq<Settled>)
      requires Valid() && open
      modifies this, messageQueue, messageQueue.list
      ensures Valid()
      ensures var (s, settled) := SendStream.Flush(old(State()), outcomes); State() == s && calls == settled
      ensures forall k | StopsAt(old(messageQueue.Contents()), outcomes, k) ::
                Flushed(old(State()), outcomes, k, State(), calls)
    {
      hide StopsAt, Flushed;
      FlushAnswersAll(State(), outcomes);
      calls := [];
      if messageQueue.Empty() {
        return;
      }
      var i := 0;
      ghost var result := SendStream.Flush(State(), outcomes);
      assert outcomes[0..] == outcomes && [] + result.1 == result.1;
      while i < |outcomes|
        invariant 0 <= i <= |outcomes| && Valid() && open && messageQueue.list != []
        invariant forall m <- messageQueue.list :: m in old(messageQueue.list)
        invariant Continues(result, State(), outcomes[i..], calls)
        decreases |outcomes| - i
      {
        ghost var before, rest := State(), outcomes[i..];
        assert rest[0] == outcomes[i] && rest[1..] == outcomes[i + 1..];
        var messagePtr := messageQueue.head;
        assert messageQueue.list[0] in old(messageQueue.list);
        match outcomes[i] {
          case Takes(n) =>
            if n >= |messagePtr.data| {
              sent := sent + messagePtr.data;
              var call := SettleFront(false);
              FrontTaken(result, before, rest, calls);
              calls := calls + [call];
              if messageQueue.Empty() {
                writable := false;
                return;
              }
            } else {
              sent := sent + messagePtr.data[..n];
              Shorten(n);
              return;
            }
          case WouldBlock =>
            return;
          case Fatal =>
            var cancelled := OnEnd();
            calls := calls + cancelled;
            return;
        }
        i := i + 1;
      }
    }
  }

  /** What remains to be done leads to the result. */
  ghost predicate Continues(result: (Sock, seq<Settled>), s: Sock, os: seq<Outcome>, calls: seq<Settled>) {
    result.0 == SendStream.Flush(s, os).0 && result.1 == calls + SendStream.Flush(s, os).1
  }

  lemma FrontTaken(result: (Sock, seq<Settled>), s: Sock, os: seq<Outcome>, calls: seq<Settled>)
    requires Continues(result, s, os, calls) && s.queue != [] && os != []
    requires os[0].Takes? && os[0].n >= |s.queue[0].bytes|
    ensures Continues(result, Sock(s.open, s.queue[1..], s.sent + s.queue[0].bytes), os[1..],
                      calls + [Settled(s.queue[0].owner, false)])
  {
    var call := Settled(s.queue[0].owner, false);
    var more := SendStream.Flush(Sock(s.open, s.queue[1..], s.sent + s.queue[0].bytes), os[1..]).1;
    assert calls + ([call] + more) == calls + [call] + more;
  }
}
