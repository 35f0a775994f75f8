/**
 Endpoints at work: what a socket makes of a stream that comes in chunks, and what an application hears
 of the messages its peer sent.
 */
module WsSession {
  import opened NetworkOrder
  import opened Wrappers
  import opened WsStream
  import opened WsProtocol
  import opened WsRoundTrip
  import opened WsDelivery

  // ---------------------------------------------------------------------------------------------
  // Receiving
  // ---------------------------------------------------------------------------------------------

  function Flatten(chunks: seq<seq<byte>>): seq<byte> {
    if chunks == [] then [] else Flatten(chunks[..|chunks| - 1]) + chunks[|chunks| - 1]
  }

  /** One read: the chunk is put between the paddings of the receive buffer and handed to `onData`. */
  method Receive(ws: WebSocket, chunk: seq<byte>)
    requires ws.Valid()
    modifies ws, ws.spill, ws.opCode, ws.mask
    ensures ws.Valid() && ws.Abs() == Run(ws.cfg, old(ws.Abs()), chunk)
  {
    hide Run;
    var start, stop := LongHeader(ws.cfg.server) - 1, LongHeader(ws.cfg.server) - 1 + |chunk|;
    var buf := new byte[stop + POST_PADDING](i => if start <= i < stop then chunk[i - start] else 0);
    assert buf[start..stop] == chunk;
    ws.OnData(buf, start, |chunk|);
  }

  /** Reads one after the other leave the socket as one run over all the bytes. */
  method ReceiveAll(ws: WebSocket, chunks: seq<seq<byte>>)
    requires ws.Valid()
    modifies ws, ws.spill, ws.opCode, ws.mask
    ensures ws.Valid() && ws.Abs() == Run(ws.cfg, old(ws.Abs()), Flatten(chunks))
  {
    hide Run;
    ghost var c := ws.Abs();
    RunNothing(ws.cfg, c);
    assert chunks[..0] == [];
    for i := 0 to |chunks|
      invariant ws.Valid() && ws.Abs() == Run(ws.cfg, c, Flatten(chunks[..i]))
    {
      FlattenNext(chunks, i);
      RunConcat(ws.cfg, c, Flatten(chunks[..i]), chunks[i]);
      Receive(ws, chunks[i]);
    }
    assert chunks[..|chunks|] == chunks;
  }

  lemma FlattenNext(chunks: seq<seq<byte>>, i: nat)
    requires i < |chunks|
    ensures Flatten(chunks[..i + 1]) == Flatten(chunks[..i]) + chunks[i]
  {
    assert chunks[..i + 1][..i] == chunks[..i];
  }

  /**
   Two sockets in the same state that are given the same bytes, cut differently, are in the same state
   afterwards, and their applications have been given the same deliveries.
   */
  method ChunkingIndependence(a: WebSocket, b: WebSocket, chunks: seq<seq<byte>>, others: seq<seq<byte>>)
    requires a.Valid() && b.Valid() && a.cfg == b.cfg && a.Abs() == b.Abs()
    requires a != b && {a.spill, a.opCode, a.mask} !! {b.spill, b.opCode, b.mask}
    requires Flatten(chunks) == Flatten(others)
    modifies a, a.spill, a.opCode, a.mask, b, b.spill, b.opCode, b.mask
    ensures a.Valid() && b.Valid() && a.Abs() == b.Abs() && a.log == b.log
  {
    ReceiveAll(a, chunks);
    ReceiveAll(b, others);
    assert a.log == a.Abs().log && b.log == b.Abs().log;
  }

  // ---------------------------------------------------------------------------------------------
  // From one end to the other
  // ---------------------------------------------------------------------------------------------

  /**
   The round trip: the frames of a well-formed peer, fragments and control frames among them, in any
   chunks. The application hears what they mean, until it closes or a text is not UTF-8.
   */
  method RoundTrip(cfg: Config, frames: seq<Frame>, chunks: seq<seq<byte>>) returns (log: seq<Delivery>)
    requires WellFormed(frames, false) && Flatten(chunks) == EncodeAll(cfg.server, frames)
    ensures log == Heard(cfg, [], Meaning(Admitted(cfg, frames), 0, []))
  {
    var ws := new WebSocket(cfg);
    ReceiveAll(ws, chunks);
    DeliveredInOrder(cfg, Fresh, frames, 0, []);
    log := ws.log;
    assert log == ws.Abs().log;
  }

  /** The frames that any peer reads from the bytes. */
  function ReadAll(bytes: seq<byte>): seq<Wire>
    decreases |bytes|
  {
    match ReadFrame(bytes)
    case None => []
    case Some((wire, n)) => [wire] + ReadAll(bytes[n..])
  }

  function Wires(masked: bool, frames: seq<Frame>): seq<Wire> {
    if frames == [] then [] else [WireOf(masked, frames[0])] + Wires(masked, frames[1..])
  }

  lemma {:induction false} AllAreRead(masked: bool, frames: seq<Frame>)
    requires forall f <- frames :: FrameOk(f)
    ensures ReadAll(EncodeAll(masked, frames)) == Wires(masked, frames)
    decreases |frames|
  {
    hide EncodeFrame, FrameOk, ReadFrame;
    if frames == [] {
      NoFrame();
    } else {
      var first, rest := EncodeFrame(masked, frames[0]), EncodeAll(masked, frames[1..]);
      WireRoundTrip(masked, frames[0], rest);
      assert (first + rest)[|first|..] == rest;
      AllAreRead(masked, frames[1..]);
    }
  }

  lemma NoFrame()
    ensures ReadFrame([]) == None
  {
  }

  /** What a peer puts on the wire, one call of `formatMessage` after the other. */
  method Send(isServer: bool, messages: seq<Frame>) returns (wire: seq<byte>)
    requires forall f <- messages :: FrameOk(f) && f.fin
    ensures wire == EncodeAll(!isServer, messages) && ReadAll(wire) == Wires(!isServer, messages)
  {
    hide ReadFrame, ReadAll, Wires, EncodeFrame;
    AllAreRead(!isServer, messages);
    wire := [];
    assert messages[..0] == [];
    for i := 0 to |messages|
      invariant wire == EncodeAll(!isServer, messages[..i])
    {
      var f := messages[i];
      assert f in messages && f == Frame(true, f.op, f.mask, f.payload);
      var dst := new byte[LongHeader(true) + |f.payload|];
      var length := FormatMessage(isServer, dst, f.payload, f.op, f.mask);
      EncodeNext(!isServer, messages[..i], f);
      assert messages[..i + 1] == messages[..i] + [f];
      wire := wire + dst[..length];
    }
    assert messages[..|messages|] == messages;
  }

  lemma {:induction false} EncodeNext(masked: bool, frames: seq<Frame>, f: Frame)
    requires FrameOk(f) && forall g <- frames :: FrameOk(g)
    ensures EncodeAll(masked, frames + [f]) == EncodeAll(masked, frames) + EncodeFrame(masked, f)
    decreases |frames|
  {
    hide EncodeFrame, FrameOk;
    if frames == [] {
      assert [f][1..] == [] && [] + [f] == [f];
    } else {
      EncodeNext(masked, frames[1..], f);
      assert (frames + [f])[1..] == frames[1..] + [f];
    }
  }

  /** `cut` is the network: it decides in which chunks the bytes come out. */
  method Exchange(cfg: Config, messages: seq<Frame>, cut: seq<byte> -> seq<seq<byte>>) returns (log: seq<Delivery>)
    requires forall f <- messages :: IsWhole(f)
    requires forall wire :: Flatten(cut(wire)) == wire
    ensures log == Heard(cfg, [], SentAs(Admitted(cfg, messages)))
  {
    var wire := Send(!cfg.server, messages);
    OneFramePerMessage(messages);
    OneFramePerMessage(Admitted(cfg, messages));
    log := RoundTrip(cfg, messages, cut(wire));
  }
}
