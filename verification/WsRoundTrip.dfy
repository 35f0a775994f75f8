/** What the sender writes: frames as bytes, and `formatMessage`. */
module WsRoundTrip {
  import opened NetworkOrder
  import opened Wrappers
  import opened WsStream
  import opened WsUnmask

  // ---------------------------------------------------------------------------------------------
  // Frames as bytes, section 5.2 of RFC 6455
  // ---------------------------------------------------------------------------------------------

  datatype Frame = Frame(fin: bool, op: byte, mask: seq<byte>, payload: seq<byte>)

  const LARGEST: nat := 0x1_0000_0000_0000_0000

  predicate FrameOk(f: Frame) {
    f.op < 16 && |f.mask| == 4 && |f.payload| < LARGEST
  }

  function CodeOf(length: nat): byte {
    if length < 126 then ToByte(length) else if length < 65536 then 126 else 127
  }

  function ExtendedLength(length: nat): seq<byte> {
    if length < 126 then [] else if length < 65536 then NetworkBytes(length, 2) else NetworkBytes(length, 8)
  }

  function Flags(fin: bool): byte { if fin then 128 else 0 }

  function FirstByte(f: Frame): byte { Flags(f.fin) | f.op }

  function SecondByte(masked: bool, length: nat): byte { CodeOf(length) | Flags(masked) }

  function EncodeHeader(masked: bool, f: Frame): seq<byte>
    requires FrameOk(f)
  {
    var start := [FirstByte(f), SecondByte(masked, |f.payload|)] + ExtendedLength(|f.payload|);
    if masked then start + f.mask else start
  }

  function EncodeFrame(masked: bool, f: Frame): seq<byte>
    requires FrameOk(f)
  {
    EncodeHeader(masked, f) + if masked then Xor(f.payload, f.mask) else f.payload
  }

  // ---------------------------------------------------------------------------------------------
  // Reading a frame as section 5.2 of RFC 6455 lays it out
  // ---------------------------------------------------------------------------------------------

  /** A frame as any peer reads it: whether it is masked is said on the wire. */
  datatype Wire = Wire(fin: bool, rsv: byte, op: byte, masked: bool, key: seq<byte>, payload: seq<byte>)

  /** The first frame of the bytes and how many of them it takes; nothing if they do not hold a whole frame. */
  function ReadFrame(bytes: seq<byte>): (r: Option<(Wire, nat)>)
    ensures r.Some? ==> 2 <= r.value.1 <= |bytes|
  {
    if |bytes| < 2 then None
    else
      var masked, code := bytes[1] & 0x80 != 0, bytes[1] & 0x7F;
      var keyAt := if code < 126 then 2 else if code == 126 then 4 else 10;
      var start := keyAt + if masked then 4 else 0;
      if |bytes| < start then None
      else
        var length := if code < 126 then Value(code) else BigEndian(bytes[2..keyAt]);
        if |bytes| < start + length then None
        else
          var key, data := bytes[keyAt..start], bytes[start..start + length];
          Some((Wire(bytes[0] & 0x80 != 0, bytes[0] & 0x70, bytes[0] & 0x0F, masked, key,
                     if masked then Xor(data, key) else data),
                start + length))
  }

  /** The frame as the peer is to read it. */
  function WireOf(masked: bool, f: Frame): Wire {
    Wire(f.fin, 0, f.op, masked, if masked then f.mask else [], f.payload)
  }

  lemma FlagBits(fin: bool, op: byte)
    requires op < 16
    ensures var b := Flags(fin) | op; OpCode(b) == op && IsFin(b) == fin && !Rsv1(b) && !Rsv23(b)
  {
  }

  lemma CodeBits(code: byte, masked: bool)
    requires code < 128
    ensures LengthCode(code | Flags(masked)) == code
  {
  }

  lemma CodeReads(length: nat)
    ensures var code := CodeOf(length);
      && code < 128 && (code < 126 <==> length < 126) && (code == 126 <==> 126 <= length < 65536)
      && (code <= 125 <==> length <= 125) && (length < 126 ==> Value(code) == length)
  {
    if length < 126 {
      ByteRoundTrip(length);
      SmallValue(ToByte(length));
      hide Value, ToByte;
    }
  }

  lemma ExtendedReads(length: nat)
    requires length < LARGEST
    ensures length >= 126 ==> BigEndian(ExtendedLength(length)) == length
    ensures |ExtendedLength(length)| == if length < 126 then 0 else if length < 65536 then 2 else 8
  {
    assert Power256(8) == LARGEST by {
      assert Power256(4) == 0x1_0000_0000;
    }
    if length >= 65536 {
      BigEndianBytes(length, 8);
    } else if length >= 126 {
      assert Power256(2) == 65536;
      BigEndianBytes(length, 2);
    }
  }

  lemma Parts<T>(start: seq<T>, middle: seq<T>, end: seq<T>)
    ensures var s := start + middle + end; var n := |start| + |middle|;
      && s[..|start|] == start && s[|start|..n] == middle && s[n..] == end && |s| == n + |end|
  {
  }

  lemma HeaderParts(masked: bool, f: Frame)
    requires FrameOk(f)
    ensures var h, extended := EncodeHeader(masked, f), ExtendedLength(|f.payload|);
      && |h| == 2 + |extended| + (if masked then 4 else 0)
      && h[0] == FirstByte(f) && h[1] == SecondByte(masked, |f.payload|)
      && h[2..2 + |extended|] == extended && (masked ==> h[|h| - 4..] == f.mask)
  {
    hide FirstByte, SecondByte, ExtendedLength;
    var h, extended := EncodeHeader(masked, f), ExtendedLength(|f.payload|);
    var start, end := [FirstByte(f), SecondByte(masked, |f.payload|)], if masked then f.mask else [];
    assert h == start + extended + end;
    Parts(start, extended, end);
    assert h[0] == h[..2][0] && h[1] == h[..2][1];
  }

  lemma XorTwice(bytes: seq<byte>, mask: seq<byte>)
    requires |mask| == 4
    ensures Xor(Xor(bytes, mask), mask) == bytes
  {
    var once := Xor(bytes, mask);
    var twice := Xor(once, mask);
    forall i | 0 <= i < |bytes|
      ensures twice[i] == bytes[i]
    {
      XorCancels(bytes[i], mask[i % 4]);
    }
  }

  lemma XorCancels(b: byte, m: byte)
    ensures (b ^ m) ^ m == b
  {
  }

  lemma WireBits(fin: bool, op: byte, code: byte, masked: bool)
    requires op < 16 && code < 128
    ensures var a, b := Flags(fin) | op, code | Flags(masked);
      && (a & 0x80 != 0 <==> fin) && a & 0x70 == 0 && a & 0x0F == op
      && (b & 0x80 != 0 <==> masked) && b & 0x7F == code
  {
  }

  lemma FrontOf(start: seq<byte>, rest: seq<byte>, i: nat, j: nat)
    requires i <= j <= |start|
    ensures (start + rest)[i..j] == start[i..j] && (i < j ==> (start + rest)[i] == start[i])
  {
  }

  lemma MiddleOf(start: seq<byte>, middle: seq<byte>, rest: seq<byte>)
    ensures (start + middle + rest)[|start|..|start| + |middle|] == middle
  {
  }

  lemma FrameBits(masked: bool, f: Frame)
    requires FrameOk(f)
    ensures var a, b := FirstByte(f), SecondByte(masked, |f.payload|);
      && (a & 0x80 != 0 <==> f.fin) && a & 0x70 == 0 && a & 0x0F == f.op
      && (b & 0x80 != 0 <==> masked) && b & 0x7F == CodeOf(|f.payload|)
  {
    hide CodeOf, Value, Flags, FirstByte, SecondByte;
    CodeReads(|f.payload|);
    WireBits(f.fin, f.op, CodeOf(|f.payload|), masked);
    BytesOf(masked, f);
  }

  lemma BytesOf(masked: bool, f: Frame)
    ensures FirstByte(f) == Flags(f.fin) | f.op && SecondByte(masked, |f.payload|) == CodeOf(|f.payload|) | Flags(masked)
  {
  }

  /** The parts of an encoded frame, with more bytes behind it. */
  lemma FrameParts(masked: bool, f: Frame, rest: seq<byte>)
    requires FrameOk(f)
    ensures var bytes, keyAt := EncodeFrame(masked, f) + rest, 2 + |ExtendedLength(|f.payload|)|;
      var start := keyAt + if masked then 4 else 0;
      && start + |f.payload| == |EncodeFrame(masked, f)| <= |bytes|
      && bytes[0] == FirstByte(f) && bytes[1] == SecondByte(masked, |f.payload|)
      && bytes[2..keyAt] == ExtendedLength(|f.payload|) && bytes[keyAt..start] == (if masked then f.mask else [])
      && bytes[start..start + |f.payload|] == if masked then Xor(f.payload, f.mask) else f.payload
  {
    hide EncodeHeader, ExtendedLength, FirstByte, SecondByte;
    var h, data := EncodeHeader(masked, f), if masked then Xor(f.payload, f.mask) else f.payload;
    var bytes, keyAt := EncodeFrame(masked, f) + rest, 2 + |ExtendedLength(|f.payload|)|;
    assert bytes == h + (data + rest) && bytes == h + data + rest;
    HeaderParts(masked, f);
    FrontOf(h, data + rest, 0, 1);
    FrontOf(h, data + rest, 1, 2);
    FrontOf(h, data + rest, 2, keyAt);
    FrontOf(h, data + rest, keyAt, |h|);
    MiddleOf(h, data, rest);
  }

  /** Where the reader finds key and payload. */
  lemma ReadParts(bytes: seq<byte>, masked: bool, keyAt: nat, length: nat)
    requires |bytes| >= keyAt >= 2 && (masked <==> bytes[1] & 0x80 != 0)
    requires var code := bytes[1] & 0x7F;
      keyAt == (if code < 126 then 2 else if code == 126 then 4 else 10)
      && length == if code < 126 then Value(code) else BigEndian(bytes[2..keyAt])
    requires |bytes| >= keyAt + (if masked then 4 else 0) + length
    ensures var start := keyAt + if masked then 4 else 0;
      var key, data := bytes[keyAt..start], bytes[start..start + length];
      ReadFrame(bytes) == Some((Wire(bytes[0] & 0x80 != 0, bytes[0] & 0x70, bytes[0] & 0x0F, masked, key,
                                     if masked then Xor(data, key) else data),
                                start + length))
  {
    hide BigEndian, Value, Xor;
  }

  /** Section 5.2 asks for the shortest form of the length. */
  function ShortestHeader(length: nat): nat {
    if length <= 125 then 2 else if length <= 0xFFFF then 4 else 10
  }

  lemma LengthOnWire(length: nat)
    requires length < LARGEST
    ensures var code, extended := CodeOf(length), ExtendedLength(length);
      && |extended| == (if code < 126 then 0 else if code == 126 then 2 else 8)
      && (length == if code < 126 then Value(code) else BigEndian(extended))
      && 2 + |extended| == ShortestHeader(length)
  {
    CodeReads(length);
    ExtendedReads(length);
  }

  /** What the sender encodes, masked or not, any peer reads: flags, key and payload. */
  lemma WireRoundTrip(masked: bool, f: Frame, rest: seq<byte>)
    requires FrameOk(f)
    ensures ReadFrame(EncodeFrame(masked, f) + rest) == Some((WireOf(masked, f), |EncodeFrame(masked, f)|))
    ensures |EncodeFrame(masked, f)| == ShortestHeader(|f.payload|) + (if masked then 4 else 0) + |f.payload|
  {
    hide EncodeFrame, ExtendedLength, CodeOf, BigEndian, Value, FirstByte, SecondByte, Xor, ReadFrame;
    FrameParts(masked, f, rest);
    FrameBits(masked, f);
    LengthOnWire(|f.payload|);
    ReadParts(EncodeFrame(masked, f) + rest, masked, 2 + |ExtendedLength(|f.payload|)|, |f.payload|);
    if masked {
      XorTwice(f.payload, f.mask);
    }
  }

  // ---------------------------------------------------------------------------------------------
  // formatMessage
  // ---------------------------------------------------------------------------------------------

  /** The length code and, for long payloads, the extended length behind it. */
  method FormatLength(dst: array<byte>, reportedLength: nat) returns (headerLength: nat)
    requires reportedLength < LARGEST && dst.Length >= LongHeader(false)
    modifies dst
    ensures dst[1] == CodeOf(reportedLength) && headerLength == 2 + |ExtendedLength(reportedLength)| <= LongHeader(false)
    ensures dst[2..headerLength] == ExtendedLength(reportedLength)
    ensures forall i :: headerLength <= i < dst.Length ==> dst[i] == old(dst[i])
  {
    if reportedLength < 126 {
      headerLength := 2;
      dst[1] := ToByte(reportedLength);
    } else if reportedLength < 65536 {
      headerLength := 4;
      dst[1] := 126;
      Store(dst, 2, NetworkBytes(reportedLength, 2));
    } else {
      headerLength := 10;
      dst[1] := 127;
      Store(dst, 2, NetworkBytes(reportedLength, 8));
    }
  }

  /** The two flag bytes in front of the extended length. */
  method FormatFlags(masked: bool, dst: array<byte>, headerLength: nat, op: byte)
    requires 2 <= headerLength <= dst.Length
    modifies dst
    ensures dst[0] == Flags(true) | op && dst[1] == old(dst[1]) | Flags(masked)
    ensures forall i :: 2 <= i < dst.Length ==> dst[i] == old(dst[i])
  {
    dst[0] := 128;
    dst[0] := dst[0] | op;
    if masked {
      dst[1] := dst[1] | 0x80;
    }
    OrNothing(dst[1]);
  }

  method FormatHeader(masked: bool, dst: array<byte>, f: Frame) returns (headerLength: nat)
    requires FrameOk(f) && f.fin && dst.Length >= LongHeader(masked)
    modifies dst
    ensures headerLength <= LongHeader(masked) && dst[..headerLength] == EncodeHeader(masked, f)
    ensures forall i :: headerLength <= i < dst.Length ==> dst[i] == old(dst[i])
  {
    hide CodeOf, ExtendedLength, Flags, EncodeHeader;
    headerLength := FormatLength(dst, |f.payload|);
    FormatFlags(masked, dst, headerLength, f.op);
    ghost var lengthEnd := headerLength;
    if masked {
      Store(dst, headerLength, f.mask);
      headerLength := headerLength + 4;
    }
    HeaderDone(dst[..], lengthEnd, masked, f);
  }

  lemma HeaderDone(dst: seq<byte>, n: nat, masked: bool, f: Frame)
    requires FrameOk(f) && 2 <= n <= (if masked then |dst| - 4 else |dst|)
    requires dst[0] == FirstByte(f) && dst[1] == SecondByte(masked, |f.payload|)
    requires dst[2..n] == ExtendedLength(|f.payload|) && (masked ==> dst[n..n + 4] == f.mask)
    ensures dst[..if masked then n + 4 else n] == EncodeHeader(masked, f)
  {
    hide ExtendedLength, FirstByte, SecondByte;
    var start := [FirstByte(f), SecondByte(masked, |f.payload|)];
    assert dst[..2] == start;
    assert dst[..n] == dst[..2] + dst[2..n];
    if masked {
      assert dst[..n + 4] == dst[..n] + dst[n..n + 4];
    }
  }

  lemma OrNothing(b: byte)
    ensures b | 0 == b
  {
  }

  method Store(dst: array<byte>, at: nat, bytes: seq<byte>)
    requires at + |bytes| <= dst.Length
    modifies dst
    ensures dst[at..at + |bytes|] == bytes
    ensures forall i :: 0 <= i < at || at + |bytes| <= i < dst.Length ==> dst[i] == old(dst[i])
  {
    forall i | 0 <= i < |bytes| {
      dst[at + i] := bytes[i];
    }
  }

  /** A client masks what it sends, a server does not; `mask` is the random key. */
  method FormatMessage(isServer: bool, dst: array<byte>, src: seq<byte>, op: byte, mask: seq<byte>)
    returns (messageLength: nat)
    requires op < 16 && |mask| == 4 && |src| < LARGEST && dst.Length >= LongHeader(true) + |src|
    modifies dst
    ensures messageLength <= dst.Length
    ensures dst[..messageLength] == EncodeFrame(!isServer, Frame(true, op, mask, src))
    ensures ReadFrame(dst[..messageLength]) ==
            Some((Wire(true, 0, op, !isServer, if isServer then [] else mask, src), messageLength))
    ensures messageLength == ShortestHeader(|src|) + (if isServer then 0 else 4) + |src|
  {
    hide EncodeHeader, ReadFrame;
    ghost var f := Frame(true, op, mask, src);
    var headerLength := FormatHeader(!isServer, dst, Frame(true, op, mask, src));
    messageLength := headerLength + |src|;
    Store(dst, headerLength, src);
    if !isServer {
      MaskPayload(dst, headerLength, messageLength, mask);
    }
    assert dst[..headerLength] == EncodeHeader(!isServer, f);
    assert dst[..messageLength] == dst[..headerLength] + dst[headerLength..messageLength];
    WireRoundTrip(!isServer, f, []);
    assert dst[..messageLength] + [] == dst[..messageLength];
  }

  /** Byte by byte, so that nothing behind the payload is touched. */
  method MaskPayload(dst: array<byte>, from: nat, stop: nat, mask: seq<byte>)
    requires |mask| == 4 && from <= stop <= dst.Length
    modifies dst
    ensures dst[from..stop] == Xor(old(dst[from..stop]), mask)
    ensures forall k :: 0 <= k < from || stop <= k < dst.Length ==> dst[k] == old(dst[k])
  {
    var start, i := from, 0;
    while start != stop
      invariant from <= start <= stop && i == start - from
      invariant forall k :: from <= k < start ==> dst[k] == old(dst[k]) ^ mask[(k - from) % 4]
      invariant forall k :: 0 <= k < from || start <= k < dst.Length ==> dst[k] == old(dst[k])
    {
      dst[start] := dst[start] ^ mask[i % 4];
      start, i := start + 1, i + 1;
    }
    ghost var was := old(dst[from..stop]);
    forall k | 0 <= k < stop - from
      ensures dst[from..stop][k] == Xor(was, mask)[k]
    {
      assert dst[from + k] == was[k] ^ mask[k % 4];
    }
  }
}
