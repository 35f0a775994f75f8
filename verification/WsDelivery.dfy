/** What a well-formed peer sends is what the application gets. */
module WsDelivery {
  import opened NetworkOrder
  import opened Utf8
  import opened WsStream
  import opened WsUnmask
  import opened WsRoundTrip

  // ---------------------------------------------------------------------------------------------
  // One frame
  // ---------------------------------------------------------------------------------------------

  /** The rules of section 5.2 and 5.5 of RFC 6455 for a single frame. */
  predicate Sendable(f: Frame) {
    FrameOk(f) && (f.op <= 2 || (8 <= f.op <= 10 && f.fin && |f.payload| <= 125))
  }

  /** What the receiver finds in the two flag bytes. */
  lemma FlagsRead(masked: bool, f: Frame)
    requires Sendable(f)
    ensures var a, b := FirstByte(f), SecondByte(masked, |f.payload|);
      && OpCode(a) == f.op && IsFin(a) == f.fin && !Rsv1(a) && !Rsv23(a) && LengthCode(b) == CodeOf(|f.payload|)
  {
    FlagBits(f.fin, f.op);
    CodeReads(|f.payload|);
    CodeBits(CodeOf(|f.payload|), masked);
  }

  /** The receiver reads the header the sender wrote. */
  lemma HeaderReads(masked: bool, f: Frame)
    requires Sendable(f)
    ensures var h := EncodeHeader(masked, f);
      && IsHeader(masked, h) && OpCode(h[0]) == f.op && IsFin(h[0]) == f.fin
      && PayloadLength(h) == |f.payload| && (masked ==> MaskOf(masked, h) == f.mask)
  {
    hide BigEndian, Value, CodeOf, EncodeHeader, FirstByte, SecondByte, OpCode, IsFin, Rsv1, Rsv23, LengthCode,
      ExtendedLength;
    HeaderParts(masked, f);
    FlagsRead(masked, f);
    CodeReads(|f.payload|);
    ExtendedReads(|f.payload|);
  }

  /** A frame that fits is received as it was sent: unmasked, whole, and ended. */
  lemma FrameArrives(cfg: Config, c: Conn, f: Frame)
    requires Sendable(f) && |f.payload| <= cfg.maxPayload && c.mode == Head([])
    requires Fits(c.stack, c.lastFin, f.op)
    ensures Run(cfg, c, EncodeFrame(cfg.server, f)) == EndFrame(cfg, Append(Opened(c, f.op, f.fin), f.payload))
  {
    hide Run, EndFrame, Append, Opened, PayloadLength, IsHeader, EncodeHeader, Fits;
    HeaderReads(cfg.server, f);
    var h := EncodeHeader(cfg.server, f);
    if cfg.server {
      XorTwice(f.payload, f.mask);
      WholeFrame(cfg, c, h, Xor(f.payload, f.mask));
    } else {
      XorNothing(f.payload, 0);
      WholeFrame(cfg, c, h, f.payload);
    }
  }

  // ---------------------------------------------------------------------------------------------
  // A stream of frames
  // ---------------------------------------------------------------------------------------------

  /**
   Section 5.4 of RFC 6455: fragments of one message in order, control frames anywhere between them,
   nothing else. `open` says whether a message has been begun.
   */
  predicate WellFormed(frames: seq<Frame>, open: bool): (w: bool)
    ensures w ==> forall f <- frames :: FrameOk(f)
  {
    frames == [] ||
    var f, rest := frames[0], frames[1..];
    && Sendable(f)
    && if f.op > 2 then WellFormed(rest, open) else (open <==> f.op == 0) && WellFormed(rest, !f.fin)
  }

  /**
   What the frames mean: each message with the opcode of its first fragment and its payload put
   together, each control frame, in the order in which they end; a close frame is the last word.
   */
  function Meaning(frames: seq<Frame>, op: byte, data: seq<byte>): seq<Delivery>
    decreases |frames|
  {
    if frames == [] then []
    else
      var f, rest := frames[0], frames[1..];
      if f.op == CLOSE then [Control(CLOSE, f.payload)]
      else if f.op > 2 then [Control(f.op, f.payload)] + Meaning(rest, op, data)
      else
        var first, all := if f.op == 0 then op else f.op, data + f.payload;
        if f.fin then [Message(first, all)] + Meaning(rest, 0, []) else Meaning(rest, first, all)
  }

  function EncodeAll(masked: bool, frames: seq<Frame>): seq<byte>
    requires forall f <- frames :: FrameOk(f)
  {
    if frames == [] then [] else EncodeFrame(masked, frames[0]) + EncodeAll(masked, frames[1..])
  }

  /** The frames before the first one that is longer than the receiver allows. */
  function Admitted(cfg: Config, frames: seq<Frame>): (admitted: seq<Frame>)
    ensures admitted <= frames
  {
    if frames == [] || |frames[0].payload| > cfg.maxPayload then []
    else [frames[0]] + Admitted(cfg, frames[1..])
  }

  /** A text that is not UTF-8 is not delivered, and nothing is after it. */
  ghost predicate IsInvalidText(d: Delivery) {
    d.Message? && d.op == TEXT && !IsUtf8(d.payload)
  }

  /**
   What the application hears, having been given `log` before: everything up to and including the first
   delivery on which it closes, or up to the first invalid text.
   */
  ghost function Heard(cfg: Config, log: seq<Delivery>, ds: seq<Delivery>): seq<Delivery>
    decreases |ds|
  {
    if ds == [] || IsInvalidText(ds[0]) then []
    else if cfg.closes(log + [ds[0]]) then [ds[0]]
    else [ds[0]] + Heard(cfg, log + [ds[0]], ds[1..])
  }

  /** The receiver between two frames: message `op` is open with `data` received, or none is and `op` is 0. */
  predicate Between(c: Conn, op: byte, data: seq<byte>) {
    && c.mode == Head([]) && c.control == [] && c.data == data
    && if op == 0 then c.stack == [] && c.lastFin && data == [] else c.stack == [op] && (op == TEXT || op == BINARY)
  }

  lemma ControlArrives(cfg: Config, c: Conn, op: byte, data: seq<byte>, f: Frame)
    requires Between(c, op, data) && Sendable(f) && f.op > 2
    ensures Fits(c.stack, c.lastFin, f.op)
    ensures var c', log := EndFrame(cfg, Append(Opened(c, f.op, f.fin), f.payload)), c.log + [Control(f.op, f.payload)];
      if f.op == CLOSE || cfg.closes(log) then c' == Shut(log) else Between(c', op, data) && c'.log == log
  {
    assert [] + f.payload == f.payload;
    assert (c.stack + [f.op])[..|c.stack|] == c.stack;
  }

  lemma DataOpens(c: Conn, op: byte, data: seq<byte>, f: Frame)
    requires Between(c, op, data) && f.op <= 2 && (op != 0 <==> f.op == 0)
    ensures var first := if f.op == 0 then op else f.op;
      Fits(c.stack, c.lastFin, f.op)
      && Append(Opened(c, f.op, f.fin), f.payload) == Conn(Head([]), [first], f.fin, data + f.payload, [], c.log)
      && (first == TEXT || first == BINARY)
  {
    assert [] + [f.op] == [f.op];
  }

  lemma DataEnds(cfg: Config, first: byte, fin: bool, all: seq<byte>, log: seq<Delivery>)
    requires first == TEXT || first == BINARY
    ensures var d := Message(first, all);
      EndFrame(cfg, Conn(Head([]), [first], fin, all, [], log)) ==
      if !fin then Conn(Head([]), [first], false, all, [], log)
      else if IsInvalidText(d) then Shut(log)
      else if cfg.closes(log + [d]) then Shut(log + [d])
      else Conn(Head([]), [], true, [], [], log + [d])
  {
    hide IsUtf8;
  }

  lemma DataArrives(cfg: Config, c: Conn, op: byte, data: seq<byte>, f: Frame)
    requires Between(c, op, data) && f.op <= 2 && (op != 0 <==> f.op == 0)
    ensures Fits(c.stack, c.lastFin, f.op)
    ensures var c' := EndFrame(cfg, Append(Opened(c, f.op, f.fin), f.payload));
      var first, all := if f.op == 0 then op else f.op, data + f.payload;
      var d := Message(first, all);
      if !f.fin then Between(c', first, all) && c'.log == c.log
      else if IsInvalidText(d) then c' == Shut(c.log)
      else if cfg.closes(c.log + [d]) then c' == Shut(c.log + [d])
      else Between(c', 0, []) && c'.log == c.log + [d]
  {
    hide IsInvalidText, EndFrame, Append, Opened, Fits;
    DataOpens(c, op, data, f);
    DataEnds(cfg, if f.op == 0 then op else f.op, f.fin, data + f.payload, c.log);
  }

  /** A frame that is too long closes the connection at its header. */
  lemma LongFrame(cfg: Config, c: Conn, f: Frame, rest: seq<byte>)
    requires Sendable(f) && |f.payload| > cfg.maxPayload && c.mode == Head([])
    ensures Run(cfg, c, EncodeFrame(cfg.server, f) + rest) == Shut(c.log)
  {
    hide Run, PayloadLength, IsHeader, EncodeHeader, Fits, Xor;
    HeaderReads(cfg.server, f);
    var h, body := EncodeHeader(cfg.server, f), if cfg.server then Xor(f.payload, f.mask) else f.payload;
    RefusedFrame(cfg, c, h, body + rest);
    assert h + body + rest == h + (body + rest);
  }

  /**
   Whatever the peer sends, as long as it is well formed, and whenever the application closes: it has heard
   the messages and control frames in order, from any point between two frames.
   */
  lemma {:induction false} DeliveredInOrder(cfg: Config, c: Conn, frames: seq<Frame>, op: byte, data: seq<byte>)
    requires WellFormed(frames, op != 0) && Between(c, op, data)
    ensures Run(cfg, c, EncodeAll(cfg.server, frames)).log
            == c.log + Heard(cfg, c.log, Meaning(Admitted(cfg, frames), op, data))
    decreases |frames|
  {
    hide Run, EndFrame, Append, Opened, IsInvalidText, EncodeFrame, Fits;
    if frames == [] {
      RunNothing(cfg, c);
    } else if |frames[0].payload| > cfg.maxPayload {
      LongFrame(cfg, c, frames[0], EncodeAll(cfg.server, frames[1..]));
    } else {
      var f, rest := frames[0], frames[1..];
      var c', bytes := EndFrame(cfg, Append(Opened(c, f.op, f.fin), f.payload)), EncodeAll(cfg.server, rest);
      RunConcat(cfg, c, EncodeFrame(cfg.server, f), bytes);
      assert Admitted(cfg, frames)[0] == f && Admitted(cfg, frames)[1..] == Admitted(cfg, rest);
      if f.op > 2 {
        ControlArrives(cfg, c, op, data, f);
        HeardFirst(cfg, c.log, Control(f.op, f.payload),
                   if f.op == CLOSE then [] else Meaning(Admitted(cfg, rest), op, data));
      } else {
        DataArrives(cfg, c, op, data, f);
        HeardFirst(cfg, c.log, Message(if f.op == 0 then op else f.op, data + f.payload),
                   Meaning(Admitted(cfg, rest), 0, []));
      }
      FrameArrives(cfg, c, f);
      if c'.mode.Closed? {
        assert c.log + [] == c.log;
        ClosedStays(cfg, c', bytes);
      } else if f.op > 2 {
        DeliveredInOrder(cfg, c', rest, op, data);
      } else if f.fin {
        DeliveredInOrder(cfg, c', rest, 0, []);
      } else {
        DeliveredInOrder(cfg, c', rest, if f.op == 0 then op else f.op, data + f.payload);
      }
    }
  }

  lemma HeardFirst(cfg: Config, log: seq<Delivery>, d: Delivery, ds: seq<Delivery>)
    ensures Heard(cfg, log, [d] + ds) ==
      if IsInvalidText(d) then [] else if cfg.closes(log + [d]) then [d] else [d] + Heard(cfg, log + [d], ds)
    ensures Heard(cfg, log, []) == [] && [d] + [] == [d] && (d.Control? ==> !IsInvalidText(d))
  {
    assert ([d] + ds)[1..] == ds;
  }

  lemma RunNothing(cfg: Config, c: Conn)
    ensures Run(cfg, c, []) == c
  {
  }

  // ---------------------------------------------------------------------------------------------
  // formatMessage sends each message as one final frame
  // ---------------------------------------------------------------------------------------------

  /** A message or a ping or pong in one final frame. */
  predicate IsWhole(f: Frame) {
    Sendable(f) && f.fin && f.op in {TEXT, BINARY, PING, PONG}
  }

  function SentAs(frames: seq<Frame>): seq<Delivery> {
    if frames == [] then []
    else
      var f := frames[0];
      [if f.op == TEXT || f.op == BINARY then Message(f.op, f.payload) else Control(f.op, f.payload)] + SentAs(frames[1..])
  }

  lemma {:induction false} OneFramePerMessage(frames: seq<Frame>)
    requires forall f <- frames :: IsWhole(f)
    ensures WellFormed(frames, false) && Meaning(frames, 0, []) == SentAs(frames)
    decreases |frames|
  {
    if frames != [] {
      OneFramePerMessage(frames[1..]);
      assert IsWhole(frames[0]);
      assert [] + frames[0].payload == frames[0].payload;
    }
  }
}
