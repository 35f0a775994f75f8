/**
 The chunk-wise parser `consume` of WebSocketProtocol.h on its receive buffer, and the reassembly
 `handleFragment` of WebSocket.cpp, proved to do what WsStream does byte by byte.
 */
module WsProtocol {
  import opened NetworkOrder
  import opened Utf8
  import opened WsStream
  import opened WsUnmask

  const MAX_CONTROL := 125
  const POST_PADDING := 4

  class WebSocket {
    const cfg: Config
    var wantsHead: bool
    var spillLength: nat
    var opStack: int
    var lastFin: bool
    const spill: array<byte>
    const opCode: array<byte>
    var remainingBytes: nat
    const mask: array<byte>
    var fragmentBuffer: seq<byte>
    var controlTipLength: nat
    var closed: bool
    var log: seq<Delivery>          // the calls made to the application's handlers

    /** The stack and the reassembly buffer; these predicates name the fields they read. */
    ghost predicate CoreShape()
      reads `opStack, `fragmentBuffer, `controlTipLength
    {
      opCode.Length == 2 && -1 <= opStack <= 1 && controlTipLength <= |fragmentBuffer|
    }

    ghost predicate MaskShape() {
      mask.Length == if cfg.server then 4 else 1
    }

    ghost predicate Shape()
      reads `opStack, `fragmentBuffer, `controlTipLength, `spillLength
    {
      CoreShape() && MaskShape() && spill.Length == LongHeader(cfg.server) - 1 && spillLength <= spill.Length
    }

    ghost function Stack(): seq<byte>
      requires CoreShape()
      reads `opStack, `fragmentBuffer, `controlTipLength, opCode
    {
      opCode[..opStack + 1]
    }

    ghost function MaskBytes(): (m: seq<byte>)
      requires MaskShape()
      reads mask
      ensures |m| == 4
    {
      if cfg.server then mask[..] else [0, 0, 0, 0]
    }

    /** The reassembly invariant: the buffer is the pending data followed by the control bytes. */
    ghost function Core(mode: Mode): Conn
      requires CoreShape()
      reads `opStack, `lastFin, `fragmentBuffer, `controlTipLength, `log, opCode
    {
      var n := |fragmentBuffer| - controlTipLength;
      Conn(mode, Stack(), lastFin, fragmentBuffer[..n], fragmentBuffer[n..], log)
    }

    /** What the receiver is, as a state of the byte-wise machine. */
    ghost function Abs(): Conn
      requires Shape()
      reads this, spill, opCode, mask
    {
      if closed then Shut(log)
      else Core(if wantsHead then Head(spill[..spillLength]) else Body(remainingBytes, MaskBytes()))
    }

    /** Between frames only data opcodes wait on the stack and no control bytes are left. */
    ghost predicate BetweenFrames()
      requires Shape()
      reads this, opCode
    {
      wantsHead && !closed && controlTipLength == 0 && forall op <- Stack() :: IsData(op)
    }

    /** Some payload of the frame on top of the stack is still to be handled; a control frame is short. */
    ghost predicate InPayload(remaining: nat)
      requires CoreShape()
      reads `opStack, `lastFin, `fragmentBuffer, `controlTipLength, `closed, opCode
    {
      && !closed && opStack >= 0 && (forall op <- opCode[..opStack] :: IsData(op))
      && if IsData(opCode[opStack]) then controlTipLength == 0
         else lastFin && controlTipLength + remaining <= MAX_CONTROL
    }

    ghost predicate InsideFrame()
      requires Shape()
      reads this, opCode
    {
      !wantsHead && spillLength == 0 && remainingBytes > 0 && InPayload(remainingBytes)
    }

    ghost predicate Valid()
      reads this, spill, opCode
    {
      Shape() && (closed || InsideFrame() || (BetweenFrames() && Partial(cfg.server, spill[..spillLength])))
    }

    constructor (cfg: Config)
      ensures Valid() && this.cfg == cfg && Abs() == Fresh
      ensures fresh(spill) && fresh(opCode) && fresh(mask)
    {
      this.cfg := cfg;
      wantsHead, spillLength, opStack, lastFin := true, 0, -1, true;
      spill := new byte[LongHeader(cfg.server) - 1];
      opCode := new byte[2];
      mask := new byte[if cfg.server then 4 else 1];
      remainingBytes, fragmentBuffer, controlTipLength := 0, [], 0;
      closed, log := false, [];
    }

    /** `forceClose`, and what the application's own `close` amounts to for the parser. */
    method ForceClose()
      modifies this`closed
      ensures closed
    {
      closed := true;
    }

    /** Calls the application's handler; true when it has closed the socket. */
    method Handler(d: Delivery) returns (stop: bool)
      modifies this`closed, this`log
      ensures log == old(log) + [d] && stop == cfg.closes(log) && closed == (old(closed) || stop)
    {
      log := log + [d];
      stop := cfg.closes(log);
      if stop {
        closed := true;
      }
    }

    method HandleFragment(data: seq<byte>, remaining: nat, op: byte, fin: bool) returns (stop: bool)
      requires Shape() && InPayload(|data| + remaining) && op == opCode[opStack] && fin == lastFin
      modifies this`fragmentBuffer, this`controlTipLength, this`log, this`closed
      ensures Shape() && closed == stop
      ensures stop ==> Shut(log) == old(Handled(cfg, Core(Head([])), data, remaining, fin))
      ensures !stop ==> Core(Head([])) == old(Handled(cfg, Core(Head([])), data, remaining, fin))
      ensures remaining > 0 ==> !stop && InPayload(remaining) && Core(Head([])) == Append(old(Core(Head([]))), data)
      ensures !stop && remaining == 0 ==> controlTipLength == 0
    {
      hide Complete;
      if op < 3 {
        stop := DataFragment(data, remaining, op, fin);
      } else {
        stop := ControlFragment(data, remaining, op, fin);
      }
    }

    /** A whole message: text is validated, then the application gets it. `c` is the state with it pending. */
    method DataMessage(op: byte, payload: seq<byte>, ghost c: Conn) returns (stop: bool)
      requires !closed && IsData(op) && c.mode == Head([]) && c.data == payload && c.log == log
      modifies this`closed, this`log
      ensures var d := Complete(cfg, c, op);
        && log == d.log && stop == closed == (d == Shut(log)) && (!stop ==> d == c.(data := [], log := log))
    {
      hide IsUtf8;
      if op == TEXT {
        var valid := IsValidUtf8(payload);
        if !valid {
          ForceClose();
          return true;
        }
      }
      stop := Handler(Message(op, payload));
    }

    /** Without control bytes the whole buffer is pending data. */
    lemma WholeBuffer()
      requires CoreShape() && controlTipLength == 0 && opStack >= 0
      ensures Core(Head([])) == Conn(Head([]), Stack(), lastFin, fragmentBuffer, [], log)
      ensures Top(Stack()) == opCode[opStack]
    {
    }

    method DataFragment(data: seq<byte>, remaining: nat, op: byte, fin: bool) returns (stop: bool)
      requires Shape() && !closed && opStack >= 0 && op == opCode[opStack]
      requires IsData(op) && controlTipLength == 0
      modifies this`fragmentBuffer, this`log, this`closed
      ensures Shape() && closed == stop
      ensures stop ==> Shut(log) == old(Handled(cfg, Core(Head([])), data, remaining, fin))
      ensures !stop ==> Core(Head([])) == old(Handled(cfg, Core(Head([])), data, remaining, fin))
    {
      hide Complete, Core;
      WholeBuffer();
      ghost var c := Append(Core(Head([])), data);
      assert c == Conn(Head([]), Stack(), lastFin, fragmentBuffer + data, [], log);
      if remaining == 0 && fin && |fragmentBuffer| == 0 {
        assert [] + data == data;
        stop := DataMessage(op, data, c);
      } else {
        fragmentBuffer := fragmentBuffer + data;
        if remaining == 0 && fin {
          stop := DataMessage(op, fragmentBuffer, c);
          if stop {
            return true;
          }
          fragmentBuffer := [];
        }
        stop := false;
      }
      WholeBuffer();
    }

    /** A whole control frame: a close frame ends the connection, ping and pong go to the application. */
    method ControlFrame(op: byte, bytes: seq<byte>) returns (stop: bool)
      requires !closed
      modifies this`closed, this`log
      ensures log == if op == CLOSE || op == PING || op == PONG then old(log) + [Control(op, bytes)] else old(log)
      ensures stop == closed == (op == CLOSE || ((op == PING || op == PONG) && cfg.closes(log)))
    {
      if op == CLOSE {
        log, closed := log + [Control(op, bytes)], true;
        return true;
      } else if op == PING {
        stop := Handler(Control(op, bytes));
      } else if op == PONG {
        stop := Handler(Control(op, bytes));
      } else {
        stop := false;
      }
    }

    method ControlFragment(data: seq<byte>, remaining: nat, op: byte, fin: bool) returns (stop: bool)
      requires Shape() && !closed && opStack >= 0 && op == opCode[opStack]
      requires !IsData(op) && fin && controlTipLength + |data| + remaining <= MAX_CONTROL
      modifies this`fragmentBuffer, this`controlTipLength, this`log, this`closed
      ensures Shape() && closed == stop
      ensures stop ==> Shut(log) == old(Handled(cfg, Core(Head([])), data, remaining, fin))
      ensures !stop ==> Core(Head([])) == old(Handled(cfg, Core(Head([])), data, remaining, fin))
      ensures !stop ==> controlTipLength == if remaining > 0 then old(controlTipLength) + |data| else 0
    {
      if remaining == 0 && fin && controlTipLength == 0 {
        assert [] + data == data;
        stop := ControlFrame(op, data);
      } else {
        AppendControl(data);
        if remaining == 0 && fin {
          stop := ControlFrame(op, fragmentBuffer[|fragmentBuffer| - controlTipLength..]);
          if stop {
            return true;
          }
          DropControl();
        }
        return false;
      }
    }

    method AppendControl(data: seq<byte>)
      requires CoreShape()
      modifies `fragmentBuffer, `controlTipLength
      ensures CoreShape() && controlTipLength == old(controlTipLength) + |data|
      ensures Core(Head([])) == old(Core(Head([])).(control := Core(Head([])).control + data))
    {
      ghost var n := |fragmentBuffer| - controlTipLength;
      assert (fragmentBuffer + data)[..n] == fragmentBuffer[..n];
      assert (fragmentBuffer + data)[n..] == fragmentBuffer[n..] + data;
      fragmentBuffer := fragmentBuffer + data;
      controlTipLength := controlTipLength + |data|;
    }

    method DropControl()
      requires CoreShape()
      modifies `fragmentBuffer, `controlTipLength
      ensures CoreShape() && controlTipLength == 0
      ensures Core(Head([])) == old(Core(Head([])).(control := []))
    {
      fragmentBuffer := fragmentBuffer[..|fragmentBuffer| - controlTipLength];
      controlTipLength := 0;
      assert fragmentBuffer[..|fragmentBuffer|] == fragmentBuffer;
    }

    /** Opcode and length of a complete header are checked and the frame is opened. */
    method OpenFrame(op: byte, fin: bool, payLength: nat) returns (refused: bool)
      requires Shape() && BetweenFrames()
      requires IsData(op) || (fin && payLength <= MAX_CONTROL)
      modifies this`opStack, this`lastFin, this`closed, opCode
      ensures Shape() && refused == closed == !(old(Fits(Stack(), lastFin, op)) && payLength <= cfg.maxPayload)
      ensures !refused ==> InPayload(payLength) && Core(Head([])) == old(Opened(Core(Head([])), op, fin))
    {
      if op != 0 {
        if opStack == 1 || (!lastFin && op < 2) {
          ForceClose();
          return true;
        }
        ghost var below := Stack();
        opStack := opStack + 1;
        opCode[opStack] := op;
        assert opCode[..opStack] == below;
        assert Stack() == below + [op];
      } else if opStack == -1 {
        ForceClose();
        return true;
      } else {
        assert opCode[opStack] in Stack();
        assert forall op <- opCode[..opStack] :: op in Stack();
      }
      lastFin := fin;
      if payLength > cfg.maxPayload {
        ForceClose();
        return true;
      }
      return false;
    }

    /** The last payload byte has been handled; a final frame leaves the stack. */
    method CloseFrame(fin: bool)
      requires Shape() && InPayload(0) && wantsHead && controlTipLength == 0 && fin == lastFin
      modifies this`opStack
      ensures Shape() && BetweenFrames()
      ensures Core(Head([])) == old(Popped(Core(Head([])), fin))
    {
      if fin {
        opStack := opStack - 1;
      } else {
        assert Stack() == opCode[..opStack] + [opCode[opStack]];
      }
    }

    /** A payload that is all there, unmasked to the left over its own mask. */
    method UnmaskWhole(buf: array<byte>, src: nat, headerLength: nat, payLength: nat) returns (payload: seq<byte>)
      requires headerLength >= ShortHeader(cfg.server) && src + headerLength + payLength + POST_PADDING <= buf.Length
      modifies buf
      ensures payload == Xor(old(buf[src + headerLength..src + headerLength + payLength]),
                             MaskOf(cfg.server, old(buf[src..src + headerLength])))
      ensures buf[src..src + 2] == old(buf[src..src + 2])
      ensures buf[src + headerLength + payLength..] == old(buf[src + headerLength + payLength..])
    {
      hide Xor;
      var start := src + headerLength;
      if cfg.server {
        assert buf[src..start][headerLength - 4..] == buf[start - 4..start];
        UnmaskImprecise(buf, start - 4, start, buf[start - 4..start], payLength);
        payload := buf[start - 4..start - 4 + payLength];
      } else {
        payload := buf[start..start + payLength];
        XorNothing(payload, 0);
      }
    }

    method CopyMask(buf: array<byte>, start: nat)
      requires mask.Length == 4 && buf != mask && start + 4 <= buf.Length
      modifies mask
      ensures mask[..] == buf[start..start + 4]
    {
      forall i | 0 <= i < 4 {
        mask[i] := buf[start + i];
      }
    }

    /** The beginning of a payload, unmasked over its header; the mask is kept, turned to the next byte. */
    method UnmaskPart(buf: array<byte>, src: nat, headerLength: nat, part: nat) returns (payload: seq<byte>)
      requires headerLength >= ShortHeader(cfg.server) && src + headerLength + part + POST_PADDING <= buf.Length
      requires Shape() && buf != mask
      modifies buf, mask
      ensures var h := old(buf[src..src + headerLength]);
        && payload == Xor(old(buf[src + headerLength..src + headerLength + part]), MaskOf(cfg.server, h))
        && MaskBytes() == RotateBy(MaskOf(cfg.server, h), part)
    {
      hide Xor, RotateBy;
      var start := src + headerLength;
      if cfg.server {
        assert buf[src..start][headerLength - 4..] == buf[start - 4..start];
        CopyMask(buf, start - 4);
        UnmaskImprecise(buf, src, start, mask[..], part);
        RotateMask(4 - part % 4, mask, part);
        payload := buf[src..src + part];
      } else {
        payload := buf[start..start + part];
        XorNothing(payload, part);
      }
    }

    /** The payload of an opened frame is all there. */
    method ConsumeWhole(buf: array<byte>, src: nat, headerLength: nat, payLength: nat) returns (stop: bool)
      requires headerLength >= ShortHeader(cfg.server) && src + headerLength + payLength + POST_PADDING <= buf.Length
      requires Shape() && InPayload(payLength) && wantsHead && lastFin == IsFin(buf[src])
      requires buf != spill && buf != opCode && buf != mask
      modifies this, buf
      ensures Shape()
      ensures var payload := old(buf[src + headerLength..src + headerLength + payLength]);
        var whole := Xor(payload, MaskOf(cfg.server, old(buf[src..src + headerLength])));
        (if stop then Shut(log) else Core(Head([]))) == EndFrame(cfg, Append(old(Core(Head([]))), whole))
      ensures if stop then closed else BetweenFrames() && spillLength == 0
      ensures buf[src + headerLength + payLength..] == old(buf[src + headerLength + payLength..])
    {
      hide Handled, Append, EndFrame, Xor;
      var payload := UnmaskWhole(buf, src, headerLength, payLength);
      assert buf[src] == buf[src..src + 2][0];
      EndIsHandled(cfg, Core(Head([])), payload);
      stop := HandleFragment(payload, 0, opCode[opStack], IsFin(buf[src]));
      if !stop {
        CloseFrame(IsFin(buf[src]));
        spillLength := 0;
      }
    }

    method HandleBegun(buf: array<byte>, src: nat, headerLength: nat, payLength: nat, part: nat)
      requires headerLength >= ShortHeader(cfg.server) && src + headerLength + part + POST_PADDING <= buf.Length
      requires part < payLength && Shape() && InPayload(payLength) && lastFin == IsFin(buf[src])
      requires buf != spill && buf != opCode && buf != mask
      modifies this, mask, buf
      ensures Shape() && InsideFrame() && remainingBytes == payLength - part
      ensures var mask0 := MaskOf(cfg.server, old(buf[src..src + headerLength]));
        && Core(Head([])) == Append(old(Core(Head([]))), Xor(old(buf[src + headerLength..src + headerLength + part]), mask0))
        && MaskBytes() == RotateBy(mask0, part)
    {
      hide Append, Handled, Xor, RotateBy;
      spillLength, wantsHead, remainingBytes := 0, false, payLength - part;
      var fin := IsFin(buf[src]);
      var payload := UnmaskPart(buf, src, headerLength, part);
      var stop := HandleFragment(payload, remainingBytes, opCode[opStack], fin);
    }

    /** Only `part` bytes of the payload of an opened frame are there. */
    method ConsumePart(buf: array<byte>, src: nat, headerLength: nat, payLength: nat, part: nat)
      requires headerLength >= ShortHeader(cfg.server) && src + headerLength + part + POST_PADDING <= buf.Length
      requires part < payLength && Shape() && InPayload(payLength) && lastFin == IsFin(buf[src])
      requires buf != spill && buf != opCode && buf != mask
      modifies this, mask, buf
      ensures Valid()
      ensures var body := Body(payLength, MaskOf(cfg.server, old(buf[src..src + headerLength])));
        Abs() == Received(old(Core(body)), old(buf[src + headerLength..src + headerLength + part]))
    {
      hide Append, Xor, RotateBy, Received;
      ghost var mask0, masked := MaskOf(cfg.server, buf[src..src + headerLength]), buf[src + headerLength..src + headerLength + part];
      PartIsHandled(cfg, Core(Head([])), mask0, payLength, masked);
      HandleBegun(buf, src, headerLength, payLength, part);
      AbsInside();
    }

    /** The whole payload of an opened frame is in the chunk. */
    method ConsumeFrame(buf: array<byte>, src: nat, headerLength: nat, payLength: nat, ghost c: Conn)
      returns (stop: bool)
      requires headerLength >= ShortHeader(cfg.server) && src + headerLength + payLength + POST_PADDING <= buf.Length
      requires buf != spill && buf != opCode && buf != mask
      requires var h := buf[src..src + headerLength];
        && IsHeader(cfg.server, h) && payLength == PayloadLength(h) && c.mode == Head([]) && Accepted(cfg, c, h)
        && Shape() && InPayload(payLength) && wantsHead && Core(Head([])) == OpenedBy(c, h)
      modifies this, buf
      ensures Shape() && if stop then closed else BetweenFrames() && spillLength == 0
      ensures var end := src + headerLength + payLength;
        && (if stop then Shut(log) else Core(Head([]))) == Run(cfg, c, old(buf[src..end]))
        && buf[end..] == old(buf[end..])
    {
      hide Append, EndFrame, Xor, Run, IsHeader, Accepted;
      ghost var end := src + headerLength + payLength;
      HeaderAndRest(buf[..], src, headerLength, headerLength + payLength, payLength);
      WholeFrame(cfg, c, buf[src..src + headerLength], buf[src + headerLength..end]);
      stop := ConsumeWhole(buf, src, headerLength, payLength);
    }

    /** The chunk ends inside the payload of an opened frame. */
    method ConsumeBegun(buf: array<byte>, src: nat, length: nat, headerLength: nat, payLength: nat, ghost c: Conn)
      requires ShortHeader(cfg.server) <= headerLength <= length < headerLength + payLength
      requires src + length + POST_PADDING <= buf.Length
      requires buf != spill && buf != opCode && buf != mask
      requires var h := buf[src..src + headerLength];
        && IsHeader(cfg.server, h) && payLength == PayloadLength(h) && c.mode == Head([]) && Accepted(cfg, c, h)
        && Shape() && InPayload(payLength) && Core(Head([])) == OpenedBy(c, h)
      modifies this, mask, buf
      ensures Valid() && Abs() == Run(cfg, c, old(buf[src..src + length]))
    {
      hide Append, Run, Received, IsHeader, Accepted;
      HeaderAndRest(buf[..], src, headerLength, length, payLength);
      FrameBegun(cfg, c, buf[src..src + headerLength], buf[src + headerLength..src + length]);
      ConsumePart(buf, src, headerLength, payLength, length - headerLength);
    }

    /** The frame has been opened: `c` was the state before it. */
    method ConsumePayload(buf: array<byte>, src: nat, length: nat, headerLength: nat, payLength: nat, ghost c: Conn)
      returns (stop: bool, next: nat, left: nat)
      requires ShortHeader(cfg.server) <= headerLength <= length && src + length + POST_PADDING <= buf.Length
      requires buf != spill && buf != opCode && buf != mask
      requires var h := buf[src..src + headerLength];
        && IsHeader(cfg.server, h) && payLength == PayloadLength(h) && c.mode == Head([]) && Accepted(cfg, c, h)
        && Shape() && InPayload(payLength) && wantsHead && Core(Head([])) == OpenedBy(c, h)
      modifies this, mask, buf
      ensures Shape()
      ensures stop ==> Valid() && Abs() == Run(cfg, c, old(buf[src..src + length]))
      ensures !stop ==> BetweenFrames() && spillLength == 0
      ensures !stop ==> src < next && next + left == src + length
      ensures !stop ==> Core(Head([])) == Run(cfg, c, old(buf[src..next]))
      ensures !stop ==> buf[next..] == old(buf[next..])
    {
      hide Run;
      HeaderAndRest(buf[..], src, headerLength, length, payLength);
      if payLength + headerLength <= length {
        next, left := src + payLength + headerLength, length - (payLength + headerLength);
        ghost var frame, more := buf[src..next], buf[next..src + length];
        stop := ConsumeFrame(buf, src, headerLength, payLength, c);
        if stop {
          ClosedThenMore(cfg, c, frame, more);
        }
      } else {
        ConsumeBegun(buf, src, length, headerLength, payLength, c);
        return true, src, length;
      }
    }

    /**
     A complete, well-formed header at `src`. Either the chunk is used up or the connection is closed
     (`stop`), or the frame is done and the next one starts at `next`, where the buffer is untouched.
     */
    method ConsumeMessage(buf: array<byte>, src: nat, length: nat, headerLength: nat, payLength: nat)
      returns (stop: bool, next: nat, left: nat)
      requires Shape() && BetweenFrames() && buf != spill && buf != opCode && buf != mask
      requires ShortHeader(cfg.server) <= headerLength <= length && src + length + POST_PADDING <= buf.Length
      requires IsHeader(cfg.server, buf[src..src + headerLength])
      requires payLength == PayloadLength(buf[src..src + headerLength])
      modifies this, opCode, mask, buf
      ensures Shape()
      ensures stop ==> Valid() && Abs() == Run(cfg, old(Core(Head([]))), old(buf[src..src + length]))
      ensures !stop ==> BetweenFrames() && spillLength == 0
      ensures !stop ==> src < next && next + left == src + length
      ensures !stop ==> Core(Head([])) == Run(cfg, old(Core(Head([]))), old(buf[src..next]))
      ensures !stop ==> buf[next..] == old(buf[next..])
    {
      hide Run;
      ghost var h, c := buf[src..src + headerLength], Core(Head([]));
      ControlIsShort(cfg.server, h);
      assert buf[src] == h[0];
      var refused := OpenFrame(OpCode(buf[src]), IsFin(buf[src]), payLength);
      if refused {
        HeaderAndRest(buf[..], src, headerLength, length, payLength);
        RefusedFrame(cfg, c, h, buf[src + headerLength..src + length]);
        return true, src, length;
      }
      stop, next, left := ConsumePayload(buf, src, length, headerLength, payLength, c);
    }

    /** The rest of a payload, unmasked in place: nothing behind it is touched. */
    method UnmaskRest(buf: array<byte>, src: nat) returns (payload: seq<byte>)
      requires Shape() && buf != mask && src + remainingBytes <= buf.Length
      modifies buf
      ensures payload == Xor(old(buf[src..src + remainingBytes]), MaskBytes())
      ensures buf[src + remainingBytes..] == old(buf[src + remainingBytes..])
    {
      hide Xor;
      if cfg.server {
        UnmaskExactly(buf, src, remainingBytes, mask[..]);
        payload := buf[src..src + remainingBytes];
      } else {
        payload := buf[src..src + remainingBytes];
        XorNothing(payload, 0);
      }
    }

    /** A piece of a payload, unmasked in place; whole groups, so into the padding. */
    method UnmaskPiece(buf: array<byte>, src: nat, length: nat) returns (payload: seq<byte>)
      requires Shape() && buf != mask && src + length + POST_PADDING <= buf.Length
      modifies buf
      ensures payload == Xor(old(buf[src..src + length]), MaskBytes())
    {
      if cfg.server {
        ghost var was := buf[..];
        var end := src + (length / 4 + 1) * 4;
        UnmaskInplace(buf, src, end, mask[..]);
        XorPrefix(was, src, end, buf[..], src, end, length, mask[..]);
        payload := buf[src..src + length];
      } else {
        payload := buf[src..src + length];
        XorNothing(payload, 0);
      }
    }

    /** The mask is kept turned to the next byte. */
    method TurnMask(length: nat)
      requires Shape()
      modifies mask
      ensures MaskBytes() == old(RotateBy(MaskBytes(), length))
    {
      if cfg.server && length % 4 != 0 {
        RotateMask(4 - length % 4, mask, length);
      } else if cfg.server {
        Rotated(mask[..], mask[..], 0, length);
      } else {
        XorNothing([], length);
      }
    }

    method HandleRest(buf: array<byte>, src: nat) returns (stop: bool)
      requires Shape() && InsideFrame() && src + remainingBytes <= buf.Length
      requires buf != spill && buf != opCode && buf != mask
      modifies this, buf
      ensures Shape() && remainingBytes == old(remainingBytes)
      ensures if stop then closed else BetweenFrames() && spillLength == 0
      ensures var payload := old(Xor(buf[src..src + remainingBytes], MaskBytes()));
        (if stop then Shut(log) else Core(Head([])))
        == old(Popped(Handled(cfg, Core(Head([])), payload, 0, lastFin), lastFin))
      ensures buf[src + remainingBytes..] == old(buf[src + remainingBytes..])
    {
      hide Handled, Append, Xor;
      var payload := UnmaskRest(buf, src);
      stop := HandleFragment(payload, 0, opCode[opStack], lastFin);
      if !stop {
        wantsHead := true;
        CloseFrame(lastFin);
      }
    }

    /** The chunk has the rest of the payload. */
    method ContinueToEnd(buf: array<byte>, src: nat) returns (stop: bool)
      requires Shape() && InsideFrame() && src + remainingBytes <= buf.Length
      requires buf != spill && buf != opCode && buf != mask
      modifies this, buf
      ensures Shape() && remainingBytes == old(remainingBytes)
      ensures if stop then closed else BetweenFrames() && spillLength == 0
      ensures (if stop then Shut(log) else Core(Head([]))) == Run(cfg, old(Abs()), old(buf[src..src + remainingBytes]))
      ensures buf[src + remainingBytes..] == old(buf[src + remainingBytes..])
    {
      hide Handled, Append, Popped, Xor, Run;
      AbsInside();
      RestIsHandled(cfg, Core(Head([])), MaskBytes(), buf[src..src + remainingBytes]);
      stop := HandleRest(buf, src);
    }

    lemma AbsInside()
      requires Shape() && InsideFrame()
      ensures Abs() == Core(Head([])).(mode := Body(remainingBytes, MaskBytes()))
      ensures Core(Head([])).stack != []
    {
    }

    method HandlePiece(buf: array<byte>, src: nat, length: nat)
      requires Shape() && InsideFrame() && length < remainingBytes && src + length + POST_PADDING <= buf.Length
      requires buf != spill && buf != opCode && buf != mask
      modifies this, mask, buf
      ensures Shape() && InsideFrame() && remainingBytes == old(remainingBytes) - length
      ensures MaskBytes() == old(RotateBy(MaskBytes(), length))
      ensures var payload := old(Xor(buf[src..src + length], MaskBytes()));
        Core(Head([])) == Append(old(Core(Head([]))), payload)
    {
      hide Append, Handled, Xor, RotateBy;
      var payload := UnmaskPiece(buf, src, length);
      remainingBytes := remainingBytes - length;
      var stop := HandleFragment(payload, remainingBytes, opCode[opStack], lastFin);
      TurnMask(length);
    }

    /** The chunk ends inside the payload. */
    method ContinuePiece(buf: array<byte>, src: nat, length: nat)
      requires Shape() && InsideFrame() && length < remainingBytes && src + length + POST_PADDING <= buf.Length
      requires buf != spill && buf != opCode && buf != mask
      modifies this, mask, buf
      ensures Valid() && Abs() == Run(cfg, old(Abs()), old(buf[src..src + length]))
    {
      hide Append, Xor, RotateBy, Run;
      AbsInside();
      PieceIsHandled(cfg, Core(Head([])), MaskBytes(), remainingBytes, buf[src..src + length]);
      HandlePiece(buf, src, length);
      AbsInside();
    }

    /** The payload bytes of a frame begun in an earlier chunk. `more` when the frame is done. */
    method ConsumeContinuation(buf: array<byte>, src: nat, length: nat) returns (more: bool, next: nat, left: nat)
      requires Shape() && InsideFrame() && src + length + POST_PADDING <= buf.Length
      requires buf != spill && buf != opCode && buf != mask
      modifies this, mask, buf
      ensures Shape()
      ensures !more ==> Valid() && Abs() == Run(cfg, old(Abs()), old(buf[src..src + length]))
      ensures more ==> BetweenFrames() && spillLength == 0 && src < next && next + left == src + length
      ensures more ==> Core(Head([])) == Run(cfg, old(Abs()), old(buf[src..next]))
      ensures more ==> buf[next..] == old(buf[next..])
    {
      hide Run;
      if remainingBytes <= length {
        next, left := src + remainingBytes, length - remainingBytes;
        ghost var c, bytes, rest := Abs(), buf[src..next], buf[next..src + length];
        assert buf[src..src + length] == bytes + rest;
        var stop := ContinueToEnd(buf, src);
        if stop {
          ClosedThenMore(cfg, c, bytes, rest);
        }
        more := !stop;
      } else {
        ContinuePiece(buf, src, length);
        return false, src, length;
      }
    }

    /** Copies the kept header bytes in front of the chunk. */
    method LoadSpill(buf: array<byte>, start: nat)
      requires Shape() && buf != spill && start + spillLength <= buf.Length
      modifies buf
      ensures buf[start..start + spillLength] == spill[..spillLength]
      ensures forall i :: start + spillLength <= i < buf.Length ==> buf[i] == old(buf[i])
    {
      forall i | 0 <= i < spillLength {
        buf[start + i] := spill[i];
      }
    }

    /** Keeps an incomplete header for the next chunk. */
    method SaveSpill(buf: array<byte>, start: nat, count: nat)
      requires buf != spill && start + count <= buf.Length && count <= spill.Length
      modifies spill, `spillLength
      ensures spill[..count] == buf[start..start + count] && spillLength == count
    {
      forall i | 0 <= i < count {
        spill[i] := buf[start + i];
      }
      spillLength := count;
    }

    /** One turn of the parsing loop: reject a header, wait for more of it, or consume its frame. */
    method ParseFrame(buf: array<byte>, s: nat, n: nat) returns (stop: bool, wait: bool, next: nat, left: nat)
      requires Shape() && BetweenFrames() && n >= ShortHeader(cfg.server)
      requires buf != spill && buf != opCode && buf != mask && s + n + POST_PADDING <= buf.Length
      modifies this, opCode, mask, buf
      ensures Shape()
      ensures stop ==> Valid() && Abs() == Run(cfg, old(Core(Head([]))), old(buf[s..s + n]))
      ensures !stop && wait ==> Partial(cfg.server, buf[s..s + n]) && buf[..] == old(buf[..])
      ensures !stop && wait ==> BetweenFrames() && Core(Head([])) == old(Core(Head([])))
      ensures !stop && !wait ==> BetweenFrames() && spillLength == 0 && s < next && next + left == s + n
      ensures !stop && !wait ==> Core(Head([])) == Run(cfg, old(Core(Head([]))), old(buf[s..next]))
      ensures !stop && !wait ==> buf[next..] == old(buf[next..])
    {
      hide Run, IsHeader, PayloadLength, BigEndian, Malformed;
      ghost var rest := buf[s..s + n];
      var first, code := buf[s..s + 2], LengthCode(buf[s + 1]);
      assert rest[..2] == first;
      FirstTwo(rest);
      wait := false;
      if Malformed(first) {
        MalformedHeader(cfg, Core(Head([])), rest);
        ForceClose();
        return true, false, s, n;
      }
      if n >= HeaderLength(cfg.server, code) {
        CompleteAt(buf[..], s, n);
      }
      if code < 126 {
        stop, next, left := ConsumeMessage(buf, s, n, ShortHeader(cfg.server), Value(code));
      } else if code == 126 {
        if n < MediumHeader(cfg.server) {
          return false, true, s, n;
        }
        stop, next, left := ConsumeMessage(buf, s, n, MediumHeader(cfg.server), BigEndian(buf[s + 2..s + 4]));
      } else {
        if n < LongHeader(cfg.server) {
          return false, true, s, n;
        }
        stop, next, left := ConsumeMessage(buf, s, n, LongHeader(cfg.server), BigEndian(buf[s + 2..s + 10]));
      }
    }

    /** `parseNext`: the frames of a chunk that starts at a frame boundary. */
    method ParseNext(buf: array<byte>, src: nat, length: nat)
      requires Shape() && BetweenFrames() && (length > 0 || spillLength == 0)
      requires buf != spill && buf != opCode && buf != mask && src + length + POST_PADDING <= buf.Length
      modifies this, spill, opCode, mask, buf
      ensures Valid() && Abs() == Run(cfg, old(Core(Head([]))), old(buf[src..src + length]))
    {
      hide Run, IsHeader, PayloadLength, BigEndian, Malformed;
      ghost var target := Run(cfg, Core(Head([])), buf[src..src + length]);
      var s: nat, n: nat := src, length;
      while n >= ShortHeader(cfg.server)
        invariant Shape() && BetweenFrames() && (n > 0 || spillLength == 0) && s + n == src + length
        invariant target == Run(cfg, Core(Head([])), buf[s..s + n])
        invariant n < ShortHeader(cfg.server) ==> Partial(cfg.server, buf[s..s + n])
        decreases n
      {
        ghost var c, before := Core(Head([])), buf[..];
        var stop, wait, next, left := ParseFrame(buf, s, n);
        if stop {
          return;
        }
        if wait {
          break;
        }
        NextPart(cfg, c, before, buf[..], s, next, left);
        s, n := next, left;
      }
      ghost var rest, c := buf[s..s + n], Core(Head([]));
      PartialHeader(cfg, c, rest);
      if n != 0 {
        SaveSpill(buf, s, n);
      }
      assert spill[..spillLength] == rest;
    }

    /** A complete header at `s`, as the slices that `consumeMessage` looks at. */
    lemma CompleteAt(buf: seq<byte>, s: nat, n: nat)
      requires n >= ShortHeader(cfg.server) && s + n <= |buf| && !Malformed(buf[s..s + 2])
      requires n >= HeaderLength(cfg.server, LengthCode(buf[s + 1]))
      ensures var code := LengthCode(buf[s + 1]);
        var h := buf[s..s + HeaderLength(cfg.server, code)];
        && IsHeader(cfg.server, h)
        && PayloadLength(h) == if code < 126 then Value(code)
             else if code == 126 then BigEndian(buf[s + 2..s + 4]) else BigEndian(buf[s + 2..s + 10])
    {
      hide BigEndian;
      var h := buf[s..s + HeaderLength(cfg.server, LengthCode(buf[s + 1]))];
      if |h| >= 4 {
        SubSlice(buf, s, s + |h|, 2, 4);
      }
      if |h| >= 10 {
        SubSlice(buf, s, s + |h|, 2, 10);
      }
    }

    /**
     One chunk of the stream, anywhere in the receive buffer that leaves room for a kept header in front
     and for whole groups of four behind.
     */
    method Consume(buf: array<byte>, start: nat, length: nat)
      requires Valid() && !closed && buf != spill && buf != opCode && buf != mask
      requires start >= LongHeader(cfg.server) - 1 && start + length + POST_PADDING <= buf.Length
      modifies this, spill, opCode, mask, buf
      ensures Valid() && Abs() == Run(cfg, old(Abs()), old(buf[start..start + length]))
    {
      hide Run;
      ghost var c, chunk := Abs(), buf[start..start + length];
      var s: nat, n: nat := start, length;
      if spillLength != 0 {
        s, n := s - spillLength, n + spillLength;
        LoadSpill(buf, s);
      }
      ghost var before := buf[..];
      assert buf[start..start + length] == chunk;
      assert buf[s..s + n] == buf[s..start] + chunk == spill[..spillLength] + chunk;
      if wantsHead {
        PartialHeader(cfg, Core(Head([])), spill[..spillLength]);
        RunConcat(cfg, Core(Head([])), spill[..spillLength], chunk);
        ParseNext(buf, s, n);
      } else {
        var more, next, left := ConsumeContinuation(buf, s, n);
        if more {
          NextPart(cfg, c, before, buf[..], s, next, left);
          ParseNext(buf, next, left);
        }
      }
    }

    /** `onData`: a socket that is closed or shutting down no longer parses. */
    method OnData(buf: array<byte>, start: nat, length: nat)
      requires Valid() && buf != spill && buf != opCode && buf != mask
      requires start >= LongHeader(cfg.server) - 1 && start + length + POST_PADDING <= buf.Length
      modifies this, spill, opCode, mask, buf
      ensures Valid() && Abs() == Run(cfg, old(Abs()), old(buf[start..start + length]))
    {
      if !closed {
        Consume(buf, start, length);
      } else {
        ClosedStays(cfg, Abs(), buf[start..start + length]);
      }
    }
  }

  lemma SubSlice<T>(a: seq<T>, i: nat, j: nat, p: nat, q: nat)
    requires i <= j <= |a| && p <= q <= j - i
    ensures a[i..j][p..q] == a[i + p..i + q]
  {
    var left, right := a[i..j][p..q], a[i + p..i + q];
    forall k | 0 <= k < q - p
      ensures left[k] == right[k]
    {
      assert left[k] == a[i..j][p + k];
    }
    assert left == right;
  }

  lemma FirstTwo(h: seq<byte>)
    requires |h| >= 2
    ensures Malformed(h[..2]) == Malformed(h)
  {
  }

  /** The first part of a chunk has been processed and the buffer behind it has not changed. */
  lemma NextPart(cfg: Config, c: Conn, before: seq<byte>, after: seq<byte>, s: nat, next: nat, left: nat)
    requires |before| == |after| && s <= next && next + left <= |before| && before[next..] == after[next..]
    ensures Run(cfg, c, before[s..next + left])
         == Run(cfg, Run(cfg, c, before[s..next]), after[next..next + left])
  {
    hide Run;
    RunConcat(cfg, c, before[s..next], before[next..next + left]);
    assert before[s..next + left] == before[s..next] + before[next..next + left];
    SameSlice(before, after, next, next + left);
  }

  lemma SameSlice<T>(a: seq<T>, b: seq<T>, from: nat, to: nat)
    requires |a| == |b| && from <= to <= |a| && a[from..] == b[from..]
    ensures a[from..to] == b[from..to]
  {
    forall i | from <= i < to
      ensures a[i] == b[i]
    {
      assert a[i] == a[from..][i - from] && b[i] == b[from..][i - from];
    }
  }

  /** A header and the payload, or the part of it that is there, as slices of the buffer. */
  lemma HeaderAndRest(buf: seq<byte>, src: nat, headerLength: nat, length: nat, payLength: nat)
    requires headerLength <= length && src + length <= |buf|
    ensures var h, chunk := buf[src..src + headerLength], buf[src..src + length];
      && chunk == h + chunk[headerLength..]
      && chunk[headerLength..] == buf[src + headerLength..src + length]
      && (payLength <= length - headerLength ==>
            var end := src + headerLength + payLength;
            && buf[src..end] == h + buf[src + headerLength..end]
            && chunk == buf[src..end] + buf[end..src + length])
  {
  }
}
