/**
 What a WebSocket endpoint does with a byte stream, one byte at a time: header parsing, unmasking,
 the two-deep opcode stack and message reassembly. The chunk-wise parser of WebSocketProtocol.h and
 the reassembly of WebSocket.cpp are proved to refine this machine. permessage-deflate is off.
 */
module WsStream {
  import opened NetworkOrder
  import opened Utf8

  const CONTINUATION: byte := 0
  const TEXT: byte := 1
  const BINARY: byte := 2
  const CLOSE: byte := 8
  const PING: byte := 9
  const PONG: byte := 10

  predicate IsFin(b: byte) { b & 128 != 0 }
  function OpCode(b: byte): byte { b & 15 }
  predicate Rsv1(b: byte) { b & 64 != 0 }
  predicate Rsv23(b: byte) { b & 48 != 0 }
  function LengthCode(b: byte): byte { b & 127 }

  // Header lengths; a server receives four mask bytes more.

  function ShortHeader(server: bool): nat { if server then 6 else 2 }
  function MediumHeader(server: bool): nat { if server then 8 else 4 }
  function LongHeader(server: bool): nat { if server then 14 else 10 }

  function HeaderLength(server: bool, code: byte): nat {
    if code < 126 then ShortHeader(server) else if code == 126 then MediumHeader(server) else LongHeader(server)
  }

  function PayloadLength(h: seq<byte>): nat
    requires |h| >= 2 && (LengthCode(h[1]) == 126 ==> |h| >= 4) && (LengthCode(h[1]) > 126 ==> |h| >= 10)
  {
    var code := LengthCode(h[1]);
    if code < 126 then Value(code) else if code == 126 then BigEndian(h[2..4]) else BigEndian(h[2..10])
  }

  /** The masking key at the end of a complete header; a client receives unmasked frames. */
  function MaskOf(server: bool, h: seq<byte>): (mask: seq<byte>)
    requires |h| >= ShortHeader(server)
    ensures |mask| == 4
  {
    if server then h[|h| - 4..] else [0, 0, 0, 0]
  }

  function Rotate(mask: seq<byte>): (rotated: seq<byte>)
    requires |mask| == 4
    ensures |rotated| == 4
  {
    mask[1..] + [mask[0]]
  }

  /** The header check: reserved bits, opcodes, and control frames that are long or not final. */
  predicate Malformed(h: seq<byte>)
    requires |h| >= 2
  {
    var op := OpCode(h[0]);
    Rsv1(h[0]) || Rsv23(h[0]) || (2 < op < 8) || op > 10 || (op > 2 && (!IsFin(h[0]) || LengthCode(h[1]) > 125))
  }

  datatype Delivery =
    | Message(op: byte, payload: seq<byte>)
    | Control(op: byte, payload: seq<byte>)

  /**
   `maxPayload` is the group's limit; `closes` stands for the application: whether, having been given
   these deliveries, it has closed the socket or started to.
   */
  datatype Config = Config(server: bool, maxPayload: nat, closes: seq<Delivery> -> bool)

  datatype Mode =
    | Head(header: seq<byte>)                      // bytes of a header that is not complete
    | Body(remaining: nat, mask: seq<byte>)        // inside a payload; mask[0] is for the next byte
    | Closed

  /** `data` is the message collected so far, `control` the control frame inside it. */
  datatype Conn = Conn(
    mode: Mode, stack: seq<byte>, lastFin: bool, data: seq<byte>, control: seq<byte>, log: seq<Delivery>)

  const Fresh := Conn(Head([]), [], true, [], [], [])

  function Shut(log: seq<Delivery>): Conn {
    Conn(Closed, [], true, [], [], log)
  }

  ghost function Step(cfg: Config, c: Conn, b: byte): Conn {
    match c.mode
    case Closed => c
    case Head(h) => HeaderByte(cfg, c, h + [b])
    case Body(remaining, mask) =>
      if |mask| != 4 || c.stack == [] then Shut(c.log)
      else
        var c' := Append(c, [b ^ mask[0]]);
        if remaining <= 1 then EndFrame(cfg, c') else c'.(mode := Body(remaining - 1, Rotate(mask)))
  }

  ghost function HeaderByte(cfg: Config, c: Conn, h: seq<byte>): Conn {
    if |h| < ShortHeader(cfg.server) then c.(mode := Head(h))
    else if Malformed(h) then Shut(c.log)
    else if |h| < HeaderLength(cfg.server, LengthCode(h[1])) then c.(mode := Head(h))
    else StartFrame(cfg, c, h)
  }

  /** Whether the opcode fits what has been received: no third level, no new message inside a message. */
  predicate Fits(stack: seq<byte>, lastFin: bool, op: byte) {
    if op != 0 then |stack| < 2 && (lastFin || op >= 2) else stack != []
  }

  ghost function StartFrame(cfg: Config, c: Conn, h: seq<byte>): Conn
    requires |h| >= ShortHeader(cfg.server) && |h| >= HeaderLength(cfg.server, LengthCode(h[1]))
  {
    var op, length := OpCode(h[0]), PayloadLength(h);
    if !Fits(c.stack, c.lastFin, op) || length > cfg.maxPayload then Shut(c.log)
    else
      var c' := c.(stack := if op != 0 then c.stack + [op] else c.stack, lastFin := IsFin(h[0]));
      if length == 0 then EndFrame(cfg, c') else c'.(mode := Body(length, MaskOf(cfg.server, h)))
  }

  function Top(stack: seq<byte>): byte {
    if stack == [] then 0 else stack[|stack| - 1]
  }

  predicate IsData(op: byte) { op < 3 }

  /** Payload bytes of the current frame. */
  function Append(c: Conn, bytes: seq<byte>): Conn {
    if IsData(Top(c.stack)) then c.(data := c.data + bytes) else c.(control := c.control + bytes)
  }

  ghost function EndFrame(cfg: Config, c: Conn): Conn {
    var idle := c.(mode := Head([]));
    if !c.lastFin then idle
    else
      var done := Complete(cfg, idle, Top(c.stack));
      if done.mode.Closed? || c.stack == [] then done else done.(stack := c.stack[..|c.stack| - 1])
  }

  /** The last fragment of a message, or a control frame, is complete. */
  ghost function Complete(cfg: Config, c: Conn, op: byte): Conn {
    if IsData(op) then
      if op == TEXT && !IsUtf8(c.data) then Shut(c.log)
      else Deliver(cfg, c.(data := []), Message(op, c.data))
    else if op == CLOSE then Shut(c.log + [Control(op, c.control)])
    else if op == PING || op == PONG then Deliver(cfg, c.(control := []), Control(op, c.control))
    else c.(control := [])
  }

  function Deliver(cfg: Config, c: Conn, d: Delivery): Conn {
    var log := c.log + [d];
    if cfg.closes(log) then Shut(log) else c.(log := log)
  }

  ghost function Run(cfg: Config, c: Conn, bytes: seq<byte>): Conn
    decreases |bytes|
  {
    if bytes == [] then c else Run(cfg, Step(cfg, c, bytes[0]), bytes[1..])
  }

  // ---------------------------------------------------------------------------------------------
  // Runs in larger steps
  // ---------------------------------------------------------------------------------------------

  lemma {:induction false} RunConcat(cfg: Config, c: Conn, a: seq<byte>, b: seq<byte>)
    ensures Run(cfg, c, a + b) == Run(cfg, Run(cfg, c, a), b)
    decreases |a|
  {
    if a == [] {
      assert a + b == b;
    } else {
      RunConcat(cfg, Step(cfg, c, a[0]), a[1..], b);
      assert (a + b)[1..] == a[1..] + b;
    }
  }

  lemma {:induction false} ClosedStays(cfg: Config, c: Conn, bytes: seq<byte>)
    requires c.mode.Closed?
    ensures Run(cfg, c, bytes) == c
    decreases |bytes|
  {
    if bytes != [] {
      ClosedStays(cfg, c, bytes[1..]);
    }
  }

  /** A header that the endpoint keeps for later: not complete, and not rejected so far. */
  predicate Partial(server: bool, h: seq<byte>) {
    |h| < ShortHeader(server) || (!Malformed(h) && |h| < HeaderLength(server, LengthCode(h[1])))
  }

  lemma {:induction false} PartialHeader(cfg: Config, c: Conn, h: seq<byte>)
    requires c.mode == Head([]) && Partial(cfg.server, h)
    ensures Run(cfg, c, h) == c.(mode := Head(h))
    decreases |h|
  {
    if h != [] {
      var init, last := h[..|h| - 1], h[|h| - 1];
      assert h == init + [last];
      PartialHeader(cfg, c, init);
      RunConcat(cfg, c, init, [last]);
      RunOne(cfg, c.(mode := Head(init)), last);
    }
  }

  lemma RunOne(cfg: Config, c: Conn, b: byte)
    ensures Run(cfg, c, [b]) == Step(cfg, c, b)
  {
    assert [b][1..] == [];
    assert Run(cfg, Step(cfg, c, b), []) == Step(cfg, c, b);
  }

  /** A rejected header closes the connection, whatever follows. */
  lemma MalformedHeader(cfg: Config, c: Conn, h: seq<byte>)
    requires c.mode == Head([]) && |h| >= ShortHeader(cfg.server) && Malformed(h)
    ensures Run(cfg, c, h) == Shut(c.log)
  {
    var n := ShortHeader(cfg.server);
    var first := h[..n - 1];
    PartialHeader(cfg, c, first);
    RunConcat(cfg, c, first, [h[n - 1]]);
    RunOne(cfg, c.(mode := Head(first)), h[n - 1]);
    assert first + [h[n - 1]] == h[..n];
    RunConcat(cfg, c, h[..n], h[n..]);
    assert h == h[..n] + h[n..];
    ClosedStays(cfg, Shut(c.log), h[n..]);
  }

  /** The bits a receiver without extensions must not accept: sections 5.2 and 5.5 of RFC 6455. */
  predicate IsReserved(a: byte, b: byte) {
    || a & 0x70 != 0                                                 // a reserved bit
    || a & 0x0F !in {0x0, 0x1, 0x2, 0x8, 0x9, 0xA}                   // a reserved opcode
    || (a & 0x08 != 0 && (a & 0x80 == 0 || b & 0x7F > 125))          // a control frame in fragments, or long
  }

  lemma ReservedIsMalformed(h: seq<byte>)
    requires |h| >= 2
    ensures Malformed(h) <==> IsReserved(h[0], h[1])
  {
  }

  /**
   These bits close the connection whatever follows, and a header without them starts its frame as soon as it
   is complete.
   */
  lemma ReservedBitsClose(cfg: Config, c: Conn, h: seq<byte>)
    requires c.mode == Head([]) && |h| >= ShortHeader(cfg.server)
    ensures IsReserved(h[0], h[1]) ==> Run(cfg, c, h) == Shut(c.log)
    ensures !IsReserved(h[0], h[1]) && |h| == HeaderLength(cfg.server, h[1] & 0x7F) ==> Run(cfg, c, h) == StartFrame(cfg, c, h)
    ensures !IsReserved(h[0], h[1]) && |h| < HeaderLength(cfg.server, h[1] & 0x7F) ==> Run(cfg, c, h) == c.(mode := Head(h))
  {
    hide Run, Malformed, StartFrame, IsReserved;
    ReservedIsMalformed(h);
    if Malformed(h) {
      MalformedHeader(cfg, c, h);
    } else if |h| == HeaderLength(cfg.server, h[1] & 0x7F) {
      CompleteHeader(cfg, c, h);
    } else if |h| < HeaderLength(cfg.server, h[1] & 0x7F) {
      PartialHeader(cfg, c, h);
    }
  }

  /** A complete header starts its frame. */
  lemma CompleteHeader(cfg: Config, c: Conn, h: seq<byte>)
    requires c.mode == Head([]) && |h| >= ShortHeader(cfg.server) && !Malformed(h)
    requires |h| == HeaderLength(cfg.server, LengthCode(h[1]))
    ensures Run(cfg, c, h) == StartFrame(cfg, c, h)
  {
    var first, last := h[..|h| - 1], h[|h| - 1];
    assert h == first + [last];
    assert Partial(cfg.server, first);
    PartialHeader(cfg, c, first);
    RunConcat(cfg, c, first, [last]);
    RunOne(cfg, c.(mode := Head(first)), last);
    LastHeaderByte(cfg, c, first, last);
  }

  lemma LastHeaderByte(cfg: Config, c: Conn, first: seq<byte>, last: byte)
    requires c.mode == Head([])
    requires var h := first + [last];
      |h| >= ShortHeader(cfg.server) && !Malformed(h) && |h| == HeaderLength(cfg.server, LengthCode(h[1]))
    ensures Step(cfg, c.(mode := Head(first)), last) == StartFrame(cfg, c, first + [last])
  {
    SameStart(cfg, c.(mode := Head(first)), c, first + [last]);
  }

  /** The start of a frame does not depend on the mode either. */
  lemma SameStart(cfg: Config, a: Conn, b: Conn, h: seq<byte>)
    requires |h| >= ShortHeader(cfg.server) && |h| >= HeaderLength(cfg.server, LengthCode(h[1]))
    requires a.(mode := b.mode) == b
    ensures StartFrame(cfg, a, h) == StartFrame(cfg, b, h)
  {
  }

  /** Masking: byte i is combined with mask[i mod 4]. */
  function Xor(bytes: seq<byte>, mask: seq<byte>): (masked: seq<byte>)
    requires |mask| == 4
    ensures |masked| == |bytes|
  {
    seq(|bytes|, i requires 0 <= i < |bytes| => bytes[i] ^ mask[i % 4])
  }

  function RotateBy(mask: seq<byte>, n: nat): (rotated: seq<byte>)
    requires |mask| == 4
    ensures |rotated| == 4
  {
    seq(4, i => mask[(i + n) % 4])
  }

  lemma AppendTwice(c: Conn, a: seq<byte>, b: seq<byte>)
    ensures Append(Append(c, a), b) == Append(c, a + b)
  {
    assert c.data + a + b == c.data + (a + b);
    assert c.control + a + b == c.control + (a + b);
  }

  lemma AppendNothing(c: Conn)
    ensures Append(c, []) == c
  {
    assert c.data + [] == c.data && c.control + [] == c.control;
  }

  lemma RotatedMask(mask: seq<byte>, i: nat, n: nat)
    requires |mask| == 4
    ensures RotateBy(mask, n)[i % 4] == mask[(i + n) % 4]
    ensures Rotate(mask)[i % 4] == mask[(i + 1) % 4]
  {
    assert (i % 4 + n) % 4 == (i + n) % 4;
    var k := i % 4;
    assert k == 0 || k == 1 || k == 2 || k == 3;
  }

  lemma RotateFirst(mask: seq<byte>, n: nat)
    requires |mask| == 4 && n > 0
    ensures RotateBy(mask, n) == RotateBy(Rotate(mask), n - 1)
  {
    forall k | 0 <= k < 4
      ensures RotateBy(mask, n)[k] == RotateBy(Rotate(mask), n - 1)[k]
    {
      RotatedMask(mask, k + n - 1, 0);
    }
  }

  lemma NoRotation(mask: seq<byte>)
    requires |mask| == 4
    ensures RotateBy(mask, 0) == mask
  {
  }

  lemma XorConcat(a: seq<byte>, b: seq<byte>, mask: seq<byte>)
    requires |mask| == 4
    ensures Xor(a + b, mask) == Xor(a, mask) + Xor(b, RotateBy(mask, |a|))
  {
    var whole, parts := Xor(a + b, mask), Xor(a, mask) + Xor(b, RotateBy(mask, |a|));
    forall i | 0 <= i < |a| + |b|
      ensures whole[i] == parts[i]
    {
      if i >= |a| {
        RotatedMask(mask, i - |a|, |a|);
      }
    }
  }

  lemma XorCons(b: byte, rest: seq<byte>, mask: seq<byte>)
    requires |mask| == 4
    ensures Xor([b] + rest, mask) == [b ^ mask[0]] + Xor(rest, Rotate(mask))
  {
    XorConcat([b], rest, mask);
    RotateFirst(mask, 1);
    NoRotation(Rotate(mask));
    assert Xor([b], mask) == [b ^ mask[0]];
  }

  ghost function Received(c: Conn, bytes: seq<byte>): Conn
    requires c.mode.Body? && |c.mode.mask| == 4 && |bytes| < c.mode.remaining
  {
    Append(c, Xor(bytes, c.mode.mask))
    .(mode := Body(c.mode.remaining - |bytes|, RotateBy(c.mode.mask, |bytes|)))
  }

  /** One payload byte inside a frame. */
  lemma BodyStep(cfg: Config, c: Conn, b: byte)
    requires c.mode.Body? && |c.mode.mask| == 4 && c.stack != [] && c.mode.remaining > 1
    ensures var c' := Step(cfg, c, b);
      && c' == Append(c, [b ^ c.mode.mask[0]]).(mode := Body(c.mode.remaining - 1, Rotate(c.mode.mask)))
      && c'.mode.Body? && |c'.mode.mask| == 4 && c'.stack != [] && c'.mode.remaining == c.mode.remaining - 1
  {
  }

  lemma ReceivedCons(cfg: Config, c: Conn, b: byte, rest: seq<byte>)
    requires c.mode.Body? && |c.mode.mask| == 4 && c.stack != [] && 1 + |rest| < c.mode.remaining
    ensures var c' := Step(cfg, c, b);
      && c'.mode.Body? && |c'.mode.mask| == 4 && c'.stack != [] && c'.mode.remaining == c.mode.remaining - 1
      && Received(c', rest) == Received(c, [b] + rest)
  {
    BodyStep(cfg, c, b);
    hide Step;
    var mask := c.mode.mask;
    XorCons(b, rest, mask);
    var one, more := [b ^ mask[0]], Xor(rest, Rotate(mask));
    AppendTwice(c, one, more);
    AppendMode(Append(c, one), more, Body(c.mode.remaining - 1, Rotate(mask)));
    RotateFirst(mask, 1 + |rest|);
  }

  lemma ReceivedNothing(c: Conn)
    requires c.mode.Body? && |c.mode.mask| == 4 && 0 < c.mode.remaining
    ensures Received(c, []) == c
  {
    assert Xor([], c.mode.mask) == [];
    NoRotation(c.mode.mask);
    AppendNothing(c);
  }

  /** A run of payload bytes that does not finish the frame. */
  lemma {:induction false} BodyRun(cfg: Config, c: Conn, bytes: seq<byte>)
    requires c.mode.Body? && |c.mode.mask| == 4 && c.stack != [] && |bytes| < c.mode.remaining
    ensures Run(cfg, c, bytes) == Received(c, bytes)
    decreases |bytes|
  {
    hide Received, Step;
    if bytes == [] {
      ReceivedNothing(c);
    } else {
      ReceivedCons(cfg, c, bytes[0], bytes[1..]);
      BodyRun(cfg, Step(cfg, c, bytes[0]), bytes[1..]);
      assert bytes == [bytes[0]] + bytes[1..];
    }
  }

  lemma LastStep(cfg: Config, c: Conn, b: byte)
    requires c.mode.Body? && |c.mode.mask| == 4 && c.stack != [] && c.mode.remaining == 1
    ensures Step(cfg, c, b) == EndFrame(cfg, Append(c, [b ^ c.mode.mask[0]]))
  {
  }

  lemma AppendMode(c: Conn, bytes: seq<byte>, mode: Mode)
    ensures Append(c.(mode := mode), bytes) == Append(c, bytes).(mode := mode)
  {
  }

  lemma XorLast(first: seq<byte>, last: byte, mask: seq<byte>)
    requires |mask| == 4
    ensures Xor(first + [last], mask) == Xor(first, mask) + [last ^ RotateBy(mask, |first|)[0]]
  {
    XorConcat(first, [last], mask);
    assert Xor([last], RotateBy(mask, |first|)) == [last ^ RotateBy(mask, |first|)[0]];
  }

  lemma EndForgetsMode(cfg: Config, c: Conn, mode: Mode)
    ensures EndFrame(cfg, c.(mode := mode)) == EndFrame(cfg, c)
  {
    assert c.(mode := mode).(mode := Head([])) == c.(mode := Head([]));
  }

  /** The rest of a payload. */
  lemma BodyEnd(cfg: Config, c: Conn, bytes: seq<byte>)
    requires c.mode.Body? && |c.mode.mask| == 4 && c.stack != [] && |bytes| == c.mode.remaining > 0
    ensures Run(cfg, c, bytes) == EndFrame(cfg, Append(c, Xor(bytes, c.mode.mask)))
  {
    var mask, first, last := c.mode.mask, bytes[..|bytes| - 1], bytes[|bytes| - 1];
    assert bytes == first + [last];
    BodyRun(cfg, c, first);
    RunConcat(cfg, c, first, [last]);
    var c1 := Received(c, first);
    RunOne(cfg, c1, last);
    LastStep(cfg, c1, last);
    XorLast(first, last, mask);
    var unmasked := [last ^ RotateBy(mask, |first|)[0]];
    AppendTwice(c, Xor(first, mask), unmasked);
    AppendMode(Append(c, Xor(first, mask)), unmasked, c1.mode);
    EndForgetsMode(cfg, Append(c, Xor(bytes, mask)), c1.mode);
  }

  // ---------------------------------------------------------------------------------------------
  // Whole frames
  // ---------------------------------------------------------------------------------------------

  predicate IsHeader(server: bool, h: seq<byte>) {
    |h| >= ShortHeader(server) && !Malformed(h) && |h| == HeaderLength(server, LengthCode(h[1]))
  }

  /** The state when a header has been accepted. */
  function Opened(c: Conn, op: byte, fin: bool): Conn {
    c.(stack := if op != 0 then c.stack + [op] else c.stack, lastFin := fin)
  }

  function OpenedBy(c: Conn, h: seq<byte>): Conn
    requires |h| > 0
  {
    Opened(c, OpCode(h[0]), IsFin(h[0]))
  }

  predicate Accepted(cfg: Config, c: Conn, h: seq<byte>)
    requires IsHeader(cfg.server, h)
  {
    Fits(c.stack, c.lastFin, OpCode(h[0])) && PayloadLength(h) <= cfg.maxPayload
  }

  /** An accepted header is that of a data frame or of a short, final control frame. */
  lemma ControlIsShort(server: bool, h: seq<byte>)
    requires IsHeader(server, h)
    ensures IsData(OpCode(h[0])) || (IsFin(h[0]) && PayloadLength(h) <= 125)
  {
  }

  lemma OpenedStack(c: Conn, h: seq<byte>)
    requires |h| > 0 && Fits(c.stack, c.lastFin, OpCode(h[0]))
    ensures OpenedBy(c, h).stack != []
  {
  }

  lemma RefusedFrame(cfg: Config, c: Conn, h: seq<byte>, rest: seq<byte>)
    requires c.mode == Head([]) && IsHeader(cfg.server, h) && !Accepted(cfg, c, h)
    ensures Run(cfg, c, h + rest) == Shut(c.log)
  {
    CompleteHeader(cfg, c, h);
    RunConcat(cfg, c, h, rest);
    ClosedStays(cfg, Shut(c.log), rest);
  }

  /** A frame whose payload is all there. */
  lemma WholeFrame(cfg: Config, c: Conn, h: seq<byte>, payload: seq<byte>)
    requires c.mode == Head([]) && IsHeader(cfg.server, h) && Accepted(cfg, c, h)
    requires |payload| == PayloadLength(h)
    ensures Run(cfg, c, h + payload) ==
            EndFrame(cfg, Append(OpenedBy(c, h), Xor(payload, MaskOf(cfg.server, h))))
  {
    var mask := MaskOf(cfg.server, h);
    CompleteHeader(cfg, c, h);
    RunConcat(cfg, c, h, payload);
    if payload == [] {
      assert Xor(payload, mask) == [];
      AppendNothing(OpenedBy(c, h));
    } else {
      OpenedStack(c, h);
      var inside := OpenedBy(c, h).(mode := Body(|payload|, mask));
      BodyEnd(cfg, inside, payload);
      EndForgetsMode(cfg, Append(OpenedBy(c, h), Xor(payload, mask)), inside.mode);
      AppendMode(OpenedBy(c, h), Xor(payload, mask), inside.mode);
    }
  }

  /** A frame whose payload has only begun. */
  lemma FrameBegun(cfg: Config, c: Conn, h: seq<byte>, part: seq<byte>)
    requires c.mode == Head([]) && IsHeader(cfg.server, h) && Accepted(cfg, c, h)
    requires |part| < PayloadLength(h)
    ensures Run(cfg, c, h + part) ==
            Received(OpenedBy(c, h).(mode := Body(PayloadLength(h), MaskOf(cfg.server, h))), part)
  {
    CompleteHeader(cfg, c, h);
    RunConcat(cfg, c, h, part);
    OpenedStack(c, h);
    BodyRun(cfg, OpenedBy(c, h).(mode := Body(PayloadLength(h), MaskOf(cfg.server, h))), part);
  }

  /** The state after a fragment: the payload bytes are added; at the end of a message it is delivered. */
  ghost function Handled(cfg: Config, c: Conn, data: seq<byte>, remaining: nat, fin: bool): Conn {
    var c' := Append(c, data);
    if remaining > 0 || !fin then c' else Complete(cfg, c', Top(c.stack))
  }

  function Popped(c: Conn, fin: bool): Conn {
    if c.mode.Closed? || !fin || c.stack == [] then c else c.(stack := c.stack[..|c.stack| - 1])
  }

  lemma EndIsHandled(cfg: Config, c: Conn, data: seq<byte>)
    requires c.mode == Head([])
    ensures EndFrame(cfg, Append(c, data)) == Popped(Handled(cfg, c, data, 0, c.lastFin), c.lastFin)
  {
  }

  lemma PartIsHandled(cfg: Config, c: Conn, mask: seq<byte>, length: nat, part: seq<byte>)
    requires |mask| == 4 && |part| < length
    ensures var left := length - |part|;
      Received(c.(mode := Body(length, mask)), part)
      == Append(c, Xor(part, mask)).(mode := Body(left, RotateBy(mask, |part|)))
  {
    AppendMode(c, Xor(part, mask), Body(length, mask));
  }

  /** Nothing that follows matters to a closed connection. */
  lemma ClosedThenMore(cfg: Config, c: Conn, bytes: seq<byte>, more: seq<byte>)
    requires Run(cfg, c, bytes).mode.Closed?
    ensures Run(cfg, c, bytes + more) == Run(cfg, c, bytes)
  {
    RunConcat(cfg, c, bytes, more);
    ClosedStays(cfg, Run(cfg, c, bytes), more);
  }

  /** The rest of a payload, handled as one fragment. */
  lemma RestIsHandled(cfg: Config, c: Conn, mask: seq<byte>, bytes: seq<byte>)
    requires c.mode == Head([]) && c.stack != [] && |mask| == 4 && bytes != []
    ensures Run(cfg, c.(mode := Body(|bytes|, mask)), bytes)
         == Popped(Handled(cfg, c, Xor(bytes, mask), 0, c.lastFin), c.lastFin)
  {
    var inside := c.(mode := Body(|bytes|, mask));
    BodyEnd(cfg, inside, bytes);
    AppendMode(c, Xor(bytes, mask), inside.mode);
    EndForgetsMode(cfg, Append(c, Xor(bytes, mask)), inside.mode);
    EndIsHandled(cfg, c, Xor(bytes, mask));
  }

  /** A piece from the middle of a payload, handled as one fragment. */
  lemma PieceIsHandled(cfg: Config, c: Conn, mask: seq<byte>, length: nat, piece: seq<byte>)
    requires c.mode == Head([]) && c.stack != [] && |mask| == 4 && |piece| < length
    ensures var left := length - |piece|;
      Run(cfg, c.(mode := Body(length, mask)), piece)
      == Append(c, Xor(piece, mask)).(mode := Body(left, RotateBy(mask, |piece|)))
  {
    BodyRun(cfg, c.(mode := Body(length, mask)), piece);
    PartIsHandled(cfg, c, mask, length, piece);
  }
}
