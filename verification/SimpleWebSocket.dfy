/** The simpler WebSocket codec of ws_proto.hpp: `PackMsg` cuts a message into fragments, `ParseMsg` puts it together. */
module SimpleWebSocket {
  import opened NetworkOrder
  import opened Wrappers
  import S = WsStream
  import R = WsRoundTrip

  const FRAME: byte := 0
  const TEXT: byte := 1
  const BINARY: byte := 2
  const PING: byte := 9
  const PONG: byte := 10

  const DEFAULT_MAX: nat := 1024 * 1024
  const TWO_BYTES_MAX: nat := 65535
  const HEAD_SIZE: nat := 2

  type Key = key: seq<byte> | |key| == 4 witness [0, 0, 0, 0]

  datatype Fragment = Fragment(fin: bool, op: byte, key: Key, payload: seq<byte>)

  /** Close frames and unknown opcodes end the connection. */
  predicate CheckOpCode(op: byte) {
    op == FRAME || op == TEXT || op == BINARY || op == PING || op == PONG
  }

  function Flag(on: bool): byte { if on then 128 else 0 }

  predicate HasMask(b: byte) { b & 128 != 0 }

  function CodeOf(length: nat): byte {
    if length < 126 then ToByte(length) else if length < TWO_BYTES_MAX then 126 else 127
  }

  function LengthBytes(length: nat): seq<byte> {
    if length < 126 then [] else if length < TWO_BYTES_MAX then NetworkBytes(length, 2) else NetworkBytes(length, 8)
  }

  function FirstByte(f: Fragment): byte { Flag(f.fin) | f.op }

  function SecondByte(masked: bool, length: nat): byte { CodeOf(length) | Flag(masked) }

  function Head(masked: bool, f: Fragment): seq<byte> {
    [FirstByte(f), SecondByte(masked, |f.payload|)] + LengthBytes(|f.payload|)
  }

  /** A fragment on the wire. */
  function Encode(masked: bool, f: Fragment): seq<byte> {
    Head(masked, f) + if masked then f.key + S.Xor(f.payload, f.key) else f.payload
  }

  function EncodeAll(masked: bool, fs: seq<Fragment>): seq<byte> {
    if fs == [] then [] else Encode(masked, fs[0]) + EncodeAll(masked, fs[1..])
  }

  /** The fragments of a message: all but the last as long as allowed, all but the first with opcode 0. */
  function Fragments(op: byte, payload: seq<byte>, max: nat, keys: nat -> Key, i: nat): (fs: seq<Fragment>)
    requires max > 0
    ensures fs != []
    decreases |payload|
  {
    var n := if |payload| < max then |payload| else max;
    var f := Fragment(|payload| <= max, if i == 0 then op else FRAME, keys(i), payload[..n]);
    if |payload| == n then [f] else [f] + Fragments(op, payload[n..], max, keys, i + 1)
  }

  // ---------------------------------------------------------------------------------------------
  // ParseMsg as a function of its caches
  // ---------------------------------------------------------------------------------------------

  datatype Parser = Parser(pkg: seq<byte>, data: seq<byte>, log: seq<(seq<byte>, byte)>)

  function KeyLength(code: byte): nat {
    if code < 126 then 0 else if code == 126 then 2 else 8
  }

  function DataLength(pkg: seq<byte>): nat
    requires |pkg| >= HEAD_SIZE && |pkg| >= HEAD_SIZE + KeyLength(S.LengthCode(pkg[1]))
  {
    var code := S.LengthCode(pkg[1]);
    if code < 126 then Value(code) else BigEndian(pkg[HEAD_SIZE..HEAD_SIZE + KeyLength(code)])
  }

  function HeadLength(pkg: seq<byte>): nat
    requires |pkg| >= HEAD_SIZE
  {
    HEAD_SIZE + KeyLength(S.LengthCode(pkg[1])) + if HasMask(pkg[1]) then 4 else 0
  }

  function Unmasked(pkg: seq<byte>): seq<byte>
    requires |pkg| >= HEAD_SIZE && |pkg| >= HeadLength(pkg) && |pkg| >= HeadLength(pkg) + DataLength(pkg)
  {
    var head := HeadLength(pkg);
    var data := pkg[head..head + DataLength(pkg)];
    if HasMask(pkg[1]) then S.Xor(data, pkg[head - 4..head]) else data
  }

  function Closed(p: Parser): Parser { Parser([], [], p.log) }

  datatype Verdict = Bad | More | Frame

  /** What the front of the cache is: a reason to close, too little, or a frame. */
  function Look(limit: nat, pkg: seq<byte>): (v: Verdict)
    ensures v.Frame? ==> |pkg| >= HEAD_SIZE && |pkg| >= HeadLength(pkg) && |pkg| >= HeadLength(pkg) + DataLength(pkg)
  {
    if |pkg| < HEAD_SIZE || !CheckOpCode(S.OpCode(pkg[0])) then Bad
    else if |pkg| < HEAD_SIZE + KeyLength(S.LengthCode(pkg[1])) then More
    else if DataLength(pkg) > limit then Bad
    else if |pkg| < HeadLength(pkg) + DataLength(pkg) then More
    else Frame
  }

  /** The effect of one frame. */
  function Take(p: Parser): Parser
    requires |p.pkg| >= HEAD_SIZE && |p.pkg| >= HeadLength(p.pkg) && |p.pkg| >= HeadLength(p.pkg) + DataLength(p.pkg)
  {
    var all := p.data + Unmasked(p.pkg);
    var rest := p.pkg[HeadLength(p.pkg) + DataLength(p.pkg)..];
    if S.IsFin(p.pkg[0]) then Parser(rest, [], p.log + [(all, S.OpCode(p.pkg[0]))]) else Parser(rest, all, p.log)
  }

  /** The loop of `ParseMsg`: 0 when the cache is used up, -1 to wait for more, -2 after a fault. */
  function Parse(limit: nat, p: Parser): (int, Parser)
    decreases |p.pkg|
  {
    match Look(limit, p.pkg)
    case Bad => (-2, Closed(p))
    case More => (-1, p)
    case Frame =>
      var p' := Take(p);
      if p'.pkg == [] then (0, p') else Parse(limit, p')
  }

  lemma ParseFront(limit: nat, p: Parser)
    ensures Look(limit, p.pkg) == Bad ==> Parse(limit, p) == (-2, Closed(p))
    ensures Look(limit, p.pkg) == More ==> Parse(limit, p) == (-1, p)
    ensures Look(limit, p.pkg) == Frame ==>
              Parse(limit, p) == if Take(p).pkg == [] then (0, Take(p)) else Parse(limit, Take(p))
  {
  }

  class Proto {
    const limit: nat
    var pkgCache: seq<byte>
    var dataCache: seq<byte>
    var log: seq<(seq<byte>, byte)>      // the calls of the callback

    ghost function State(): Parser
      reads this
    {
      Parser(pkgCache, dataCache, log)
    }

    constructor (limit: nat)
      ensures this.limit == limit && State() == Parser([], [], [])
    {
      this.limit := limit;
      pkgCache, dataCache, log := [], [], [];
    }

    method CloseClear() returns (status: int)
      modifies this
      ensures status == -2 && State() == Closed(old(State()))
    {
      pkgCache, dataCache := [], [];
      return -2;
    }

    /** Unmasks the payload of the first frame inside the cache. */
    method UnmaskFront(head: nat, dataLen: nat)
      requires 4 <= head <= head + dataLen <= |pkgCache|
      modifies `pkgCache
      ensures |pkgCache| == old(|pkgCache|) && pkgCache[..head] == old(pkgCache[..head])
      ensures pkgCache[head..head + dataLen] == S.Xor(old(pkgCache[head..head + dataLen]), old(pkgCache[head - 4..head]))
      ensures pkgCache[head + dataLen..] == old(pkgCache[head + dataLen..])
    {
      var cMask := pkgCache[head - 4..head];
      var i := 0;
      while i < dataLen
        invariant 0 <= i <= dataLen && |pkgCache| == old(|pkgCache|)
        invariant forall k | head <= k < head + i :: pkgCache[k] == old(pkgCache)[k] ^ cMask[(k - head) % 4]
        invariant forall k | 0 <= k < head || head + i <= k < |pkgCache| :: pkgCache[k] == old(pkgCache)[k]
      {
        pkgCache := pkgCache[head + i := pkgCache[head + i] ^ cMask[i % 4]];
        i := i + 1;
      }
    }

    /** The payload of the first frame goes to the data cache, and with the last fragment to the callback. */
    method TakeFrame(totalHeadLen: nat, dataLen: nat)
      requires |pkgCache| >= HEAD_SIZE && totalHeadLen == HeadLength(pkgCache)
      requires |pkgCache| >= totalHeadLen + dataLen && dataLen == DataLength(pkgCache)
      modifies `pkgCache, `dataCache, `log
      ensures State() == old(Take(State())) && |pkgCache| < old(|pkgCache|)
    {
      hide S.Xor, Value, BigEndian;
      var first, second := pkgCache[0], pkgCache[1];
      if HasMask(second) {
        UnmaskFront(totalHeadLen, dataLen);
      }
      dataCache := dataCache + pkgCache[totalHeadLen..totalHeadLen + dataLen];
      if S.IsFin(first) {
        log := log + [(dataCache, S.OpCode(first))];
        dataCache := [];
      }
      pkgCache := pkgCache[totalHeadLen + dataLen..];
    }

    method ParseMsg(rawMsg: seq<byte>) returns (status: int)
      modifies this
      ensures (status, State()) == Parse(limit, old(State().(pkg := pkgCache + rawMsg)))
    {
      hide Parse, Take, Value, BigEndian, CheckOpCode, S.OpCode, S.LengthCode;
      pkgCache := pkgCache + rawMsg;
      ghost var result := Parse(limit, State());
      while true
        invariant result == Parse(limit, State())
        decreases |pkgCache|
      {
        ParseFront(limit, State());
        if |pkgCache| < HEAD_SIZE {
          status := CloseClear();
          return;
        }
        var first, second := pkgCache[0], pkgCache[1];
        if !CheckOpCode(S.OpCode(first)) {
          status := CloseClear();
          return;
        }
        var code := S.LengthCode(second);
        var keyLen := 0;
        var dataLen := 0;
        if code < 126 {
          dataLen := Value(code);
        } else {
          keyLen := if code == 126 then 2 else 8;
          if |pkgCache| < keyLen + HEAD_SIZE {
            return -1;
          }
          dataLen := BigEndian(pkgCache[HEAD_SIZE..HEAD_SIZE + keyLen]);
        }
        if dataLen > limit {
          status := CloseClear();
          return;
        }
        var totalHeadLen := HEAD_SIZE + keyLen + if HasMask(second) then 4 else 0;
        if |pkgCache| < totalHeadLen + dataLen {
          return -1;
        }
        TakeFrame(totalHeadLen, dataLen);
        if pkgCache == [] {
          return 0;
        }
      }
    }
  }

  // ---------------------------------------------------------------------------------------------
  // PackMsg
  // ---------------------------------------------------------------------------------------------

  function EncodeEach(masked: bool, fs: seq<Fragment>): seq<seq<byte>> {
    if fs == [] then [] else [Encode(masked, fs[0])] + EncodeEach(masked, fs[1..])
  }

  /** Masks part of the caller's buffer in place. */
  method MaskInPlace(raw: array<byte>, pos: nat, dataLen: nat, cMask: Key)
    requires pos + dataLen <= raw.Length
    modifies raw
    ensures raw[pos..pos + dataLen] == S.Xor(old(raw[pos..pos + dataLen]), cMask)
    ensures raw[pos + dataLen..] == old(raw[pos + dataLen..])
  {
    var i := 0;
    while i < dataLen
      invariant 0 <= i <= dataLen
      invariant forall k | pos <= k < pos + i :: raw[k] == old(raw[k]) ^ cMask[(k - pos) % 4]
      invariant forall k | 0 <= k < pos || pos + i <= k < raw.Length :: raw[k] == old(raw[k])
    {
      raw[pos + i] := raw[pos + i] ^ cMask[i % 4];
      i := i + 1;
    }
  }

  /** The packages of a message; `keys` are the random masks, one for each package. */
  method PackMsg(isServer: bool, op: byte, rawMsg: array<byte>, dataMaxSize: nat, keys: nat -> Key)
    returns (res: seq<seq<byte>>)
    requires dataMaxSize > 0
    modifies rawMsg
    ensures res == EncodeEach(!isServer, Fragments(op, old(rawMsg[..]), dataMaxSize, keys, 0))
  {
    hide Encode, EncodeEach, Fragments;
    var pos: nat, len, first := 0, rawMsg.Length, true;
    var i := 0;
    res := [];
    ghost var all := EncodeEach(!isServer, Fragments(op, rawMsg[..], dataMaxSize, keys, 0));
    assert rawMsg[0..] == rawMsg[..] && [] + all == all;
    while true
      invariant 0 <= len && pos + len == rawMsg.Length && (first <==> i == 0) && 0 <= i
      invariant all == res + EncodeEach(!isServer, Fragments(op, rawMsg[pos..], dataMaxSize, keys, i))
      decreases len
    {
      ghost var rest, before := rawMsg[pos..], res;
      var fin := len <= dataMaxSize;
      var opCode := if first then op else FRAME;
      var dataLen := if len < dataMaxSize then len else dataMaxSize;
      assert rawMsg[pos..pos + dataLen] == rest[..dataLen];
      var pkg := PackOne(isServer, rawMsg, pos, dataLen, fin, opCode, keys(i));
      FirstFragment(isServer, op, rest, dataMaxSize, keys, i);
      ghost var more := if len == dataLen then [] else EncodeEach(!isServer, Fragments(op, rest[dataLen..], dataMaxSize, keys, i + 1));
      assert all == before + ([pkg] + more) == before + [pkg] + more;
      res := res + [pkg];
      assert rawMsg[pos + dataLen..] == rest[dataLen..];
      pos := pos + dataLen;
      len := len - dataLen;
      if len <= 0 {
        assert res + [] == res;
        return;
      }
      assert all == res + EncodeEach(!isServer, Fragments(op, rest[dataLen..], dataMaxSize, keys, i + 1));
      first := false;
      i := i + 1;
    }
  }

  lemma FirstFragment(isServer: bool, op: byte, rest: seq<byte>, max: nat, keys: nat -> Key, i: nat)
    requires max > 0
    ensures var n := if |rest| < max then |rest| else max;
      var f := Fragment(|rest| <= max, if i == 0 then op else FRAME, keys(i), rest[..n]);
      EncodeEach(!isServer, Fragments(op, rest, max, keys, i)) == [Encode(!isServer, f)] +
        (if |rest| == n then [] else EncodeEach(!isServer, Fragments(op, rest[n..], max, keys, i + 1)))
  {
    hide Encode;
    var fs := Fragments(op, rest, max, keys, i);
    assert fs == [fs[0]] + fs[1..];
  }

  method PackHead(masked: bool, fin: bool, op: byte, dataLen: nat) returns (head: seq<byte>)
    ensures forall f: Fragment :: f.fin == fin && f.op == op && |f.payload| == dataLen ==> head == Head(masked, f)
  {
    hide NetworkBytes, ToByte, Flag;
    var payloadLen: byte;
    var lengthBytes: seq<byte> := [];
    if dataLen < 126 {
      payloadLen := ToByte(dataLen);
    } else if dataLen < TWO_BYTES_MAX {
      payloadLen := 126;
      lengthBytes := NetworkBytes(dataLen, 2);
    } else {
      payloadLen := 127;
      lengthBytes := NetworkBytes(dataLen, 8);
    }
    head := [Flag(fin) | op, payloadLen | Flag(masked)] + lengthBytes;
  }

  /** One package: head, length, mask, and the masked data. */
  method PackOne(isServer: bool, raw: array<byte>, pos: nat, dataLen: nat, fin: bool, op: byte, cMask: Key)
    returns (pkg: seq<byte>)
    requires pos + dataLen <= raw.Length
    modifies raw
    ensures pkg == Encode(!isServer, Fragment(fin, op, cMask, old(raw[pos..pos + dataLen])))
    ensures raw[pos + dataLen..] == old(raw[pos + dataLen..])
  {
    hide S.Xor, Head;
    ghost var f := Fragment(fin, op, cMask, raw[pos..pos + dataLen]);
    var head := PackHead(!isServer, fin, op, dataLen);
    assert head == Head(!isServer, f);
    if isServer {
      pkg := head + raw[pos..pos + dataLen];
    } else {
      MaskInPlace(raw, pos, dataLen, cMask);
      pkg := head + (cMask + raw[pos..pos + dataLen]);
    }
  }

  // ---------------------------------------------------------------------------------------------
  // What ParseMsg makes of a fragment
  // ---------------------------------------------------------------------------------------------

  predicate Acceptable(limit: nat, f: Fragment) {
    CheckOpCode(f.op) && |f.payload| <= limit && |f.payload| < 0x1_0000_0000_0000_0000
  }

  lemma FlagsRead(f: Fragment)
    requires CheckOpCode(f.op)
    ensures S.OpCode(FirstByte(f)) == f.op && S.IsFin(FirstByte(f)) == f.fin
  {
  }

  lemma CodeBits(code: byte, masked: bool)
    requires code < 128
    ensures S.LengthCode(code | Flag(masked)) == code && HasMask(code | Flag(masked)) == masked
  {
  }

  lemma LengthReads(length: nat)
    requires length < 0x1_0000_0000_0000_0000
    ensures CodeOf(length) < 128 && KeyLength(CodeOf(length)) == |LengthBytes(length)|
    ensures if CodeOf(length) < 126 then Value(CodeOf(length)) == length else BigEndian(LengthBytes(length)) == length
  {
    if length < 126 {
      ByteRoundTrip(length);
      SmallValue(ToByte(length));
      hide Value, ToByte;
    } else if length < TWO_BYTES_MAX {
      assert Power256(2) == 65536;
      BigEndianBytes(length, 2);
    } else {
      assert Power256(4) == 0x1_0000_0000;
      assert Power256(8) == 0x1_0000_0000_0000_0000;
      BigEndianBytes(length, 8);
    }
  }

  ghost predicate StartsLike(pkg: seq<byte>, e: seq<byte>) {
    forall i | 0 <= i < |pkg| && i < |e| :: pkg[i] == e[i]
  }

  lemma SameSlice(pkg: seq<byte>, e: seq<byte>, i: nat, j: nat)
    requires StartsLike(pkg, e) && i <= j <= |pkg| && j <= |e|
    ensures pkg[i..j] == e[i..j]
  {
  }

  /** The parts of a fragment on the wire. */
  lemma EncodeParts(masked: bool, f: Fragment)
    ensures var e, n := Encode(masked, f), HEAD_SIZE + |LengthBytes(|f.payload|)|;
      && |e| == n + (if masked then 4 else 0) + |f.payload|
      && e[0] == FirstByte(f) && e[1] == SecondByte(masked, |f.payload|)
      && e[HEAD_SIZE..n] == LengthBytes(|f.payload|)
      && (masked ==> e[n..n + 4] == f.key && e[n + 4..] == S.Xor(f.payload, f.key))
      && (!masked ==> e[n..] == f.payload)
  {
    hide FirstByte, SecondByte, LengthBytes, S.Xor;
    var start := [FirstByte(f), SecondByte(masked, |f.payload|)];
    var middle, end := LengthBytes(|f.payload|), if masked then f.key + S.Xor(f.payload, f.key) else f.payload;
    var e := Encode(masked, f);
    assert e == start + middle + end;
    R.Parts(start, middle, end);
    assert e[0] == e[..2][0] && e[1] == e[..2][1];
    if masked {
      var n := HEAD_SIZE + |middle|;
      assert e[n..n + 4] == end[..4] == f.key;
      assert e[n + 4..] == end[4..] == S.Xor(f.payload, f.key);
    }
  }

  /** A cache that begins like a fragment: too little as long as the fragment is not complete. */
  lemma FrontIsFragment(limit: nat, masked: bool, f: Fragment, pkg: seq<byte>)
    requires Acceptable(limit, f) && |pkg| >= HEAD_SIZE && StartsLike(pkg, Encode(masked, f))
    ensures var e := Encode(masked, f);
      if |pkg| < |e| then Look(limit, pkg) == More
      else Look(limit, pkg) == Frame && HeadLength(pkg) + DataLength(pkg) == |e| && Unmasked(pkg) == f.payload
           && S.OpCode(pkg[0]) == f.op && S.IsFin(pkg[0]) == f.fin
  {
    hide Encode, FirstByte, SecondByte, LengthBytes, CodeOf, CheckOpCode, Value, BigEndian, S.OpCode, S.IsFin, S.LengthCode, HasMask;
    var e, code, n := Encode(masked, f), CodeOf(|f.payload|), HEAD_SIZE + |LengthBytes(|f.payload|)|;
    EncodeParts(masked, f);
    FlagsRead(f);
    LengthReads(|f.payload|);
    SecondBits(masked, |f.payload|);
    assert pkg[0] == e[0] && pkg[1] == e[1];
    if |pkg| >= n {
      SameSlice(pkg, e, HEAD_SIZE, n);
      assert DataLength(pkg) == |f.payload|;
      if |pkg| >= |e| {
        if masked {
          SameSlice(pkg, e, n, n + 4);
          SameSlice(pkg, e, n + 4, |e|);
          assert e[n + 4..|e|] == e[n + 4..];
          R.XorTwice(f.payload, f.key);
        } else {
          SameSlice(pkg, e, n, |e|);
          assert e[n..|e|] == e[n..];
        }
      }
    }
  }

  lemma SecondBits(masked: bool, length: nat)
    requires length < 0x1_0000_0000_0000_0000
    ensures S.LengthCode(SecondByte(masked, length)) == CodeOf(length) && HasMask(SecondByte(masked, length)) == masked
  {
    LengthReads(length);
    CodeBits(CodeOf(length), masked);
  }

  /** A package on the wire is a frame of section 5.2 of RFC 6455, whoever reads it: no reserved bit is set. */
  lemma PackageIsFrame(masked: bool, f: Fragment, rest: seq<byte>)
    requires CheckOpCode(f.op) && |f.payload| < 0x1_0000_0000_0000_0000
    ensures R.ReadFrame(Encode(masked, f) + rest) ==
            Some((R.Wire(f.fin, 0, f.op, masked, if masked then f.key else [], f.payload), |Encode(masked, f)|))
  {
    hide Encode, FirstByte, SecondByte, LengthBytes, CodeOf, CheckOpCode, Value, BigEndian, S.Xor, R.ReadFrame;
    var e, n := Encode(masked, f), HEAD_SIZE + |LengthBytes(|f.payload|)|;
    var start := if masked then n + 4 else n;
    EncodeParts(masked, f);
    PackageBits(masked, f);
    LengthReads(|f.payload|);
    R.FrontOf(e, rest, 0, 1);
    R.FrontOf(e, rest, 1, 2);
    R.FrontOf(e, rest, HEAD_SIZE, n);
    R.FrontOf(e, rest, n, start);
    R.FrontOf(e, rest, start, |e|);
    assert e[start..|e|] == e[start..];
    R.ReadParts(e + rest, masked, n, |f.payload|);
    if masked {
      R.XorTwice(f.payload, f.key);
    }
  }

  lemma PackageBits(masked: bool, f: Fragment)
    requires CheckOpCode(f.op) && |f.payload| < 0x1_0000_0000_0000_0000
    ensures var a, b := FirstByte(f), SecondByte(masked, |f.payload|);
      && (a & 0x80 != 0 <==> f.fin) && a & 0x70 == 0 && a & 0x0F == f.op
      && (b & 0x80 != 0 <==> masked) && b & 0x7F == CodeOf(|f.payload|)
  {
    hide CodeOf, Value;
    LengthReads(|f.payload|);
    R.WireBits(f.fin, f.op, CodeOf(|f.payload|), masked);
  }

  /**
   What `ParseMsg` refuses, on the bits: fewer than two bytes, an opcode other than 0, 1, 2, 9 and 10 (so also a
   close frame), and a length above the limit, as soon as it can be read. It looks at no reserved bit.
   */
  lemma Refused(limit: nat, p: Parser)
    ensures var refused :=
        || |p.pkg| < 2 || p.pkg[0] & 0x0F !in {0, 1, 2, 9, 10}
        || (|p.pkg| >= HEAD_SIZE + KeyLength(p.pkg[1] & 0x7F) && DataLength(p.pkg) > limit);
      && (refused ==> Parse(limit, p) == (-2, Closed(p)))
      && (!refused ==> Look(limit, p.pkg) != Bad)
  {
    hide DataLength, HeadLength;
    ParseFront(limit, p);
  }

  // ---------------------------------------------------------------------------------------------
  // Streams of fragments, cut anywhere
  // ---------------------------------------------------------------------------------------------

  ghost predicate AllAcceptable(limit: nat, fs: seq<Fragment>) {
    forall f <- fs :: Acceptable(limit, f)
  }

  /** A fragment has been received. */
  function Got(p: Parser, f: Fragment): Parser {
    var all := p.data + f.payload;
    if f.fin then p.(data := [], log := p.log + [(all, f.op)]) else p.(data := all)
  }

  function GotAll(p: Parser, fs: seq<Fragment>): Parser
    decreases |fs|
  {
    if fs == [] then p else GotAll(Got(p, fs[0]), fs[1..])
  }

  /** Of the first m bytes of the stream, how many lie behind the last complete fragment. */
  function Leftover(masked: bool, fs: seq<Fragment>, m: nat): nat
    decreases |fs|
  {
    if fs == [] || m < |Encode(masked, fs[0])| then m
    else Leftover(masked, fs[1..], m - |Encode(masked, fs[0])|)
  }

  /** The fragments that are not complete in the first m bytes. */
  function Missing(masked: bool, fs: seq<Fragment>, m: nat): seq<Fragment>
    decreases |fs|
  {
    if fs == [] || m < |Encode(masked, fs[0])| then fs
    else Missing(masked, fs[1..], m - |Encode(masked, fs[0])|)
  }

  /** The parser when the first m bytes have been worked off. */
  function Advance(masked: bool, p: Parser, fs: seq<Fragment>, m: nat): Parser
    requires m <= |EncodeAll(masked, fs)|
    decreases |fs|
  {
    if fs == [] || m < |Encode(masked, fs[0])| then p.(pkg := EncodeAll(masked, fs)[..m])
    else Advance(masked, Got(p, fs[0]), fs[1..], m - |Encode(masked, fs[0])|)
  }

  /**
   One call of `ParseMsg` on a well-formed stream: everything complete is received, and a leftover is kept
   - unless it is a single byte, which closes the connection.
   */
  lemma {:induction false} ParsePrefix(limit: nat, masked: bool, p: Parser, fs: seq<Fragment>, m: nat)
    requires AllAcceptable(limit, fs) && 0 < m <= |EncodeAll(masked, fs)| && p.pkg == EncodeAll(masked, fs)[..m]
    ensures var left, p' := Leftover(masked, fs, m), Advance(masked, p, fs, m);
      Parse(limit, p) == if left == 1 then (-2, Closed(p')) else if left == 0 then (0, p') else (-1, p')
    decreases |fs|
  {
    hide Parse, Take, Look, Acceptable, Encode;
    var e, rest := Encode(masked, fs[0]), EncodeAll(masked, fs[1..]);
    assert EncodeAll(masked, fs) == e + rest;
    assert Acceptable(limit, fs[0]);
    ParseFront(limit, p);
    if m == 1 {
      OneByte(limit, p.pkg);
      HasHead(masked, fs[0]);
    } else {
      assert StartsLike(p.pkg, e);
      FrontIsFragment(limit, masked, fs[0], p.pkg);
      if m >= |e| {
        var n := m - |e|;
        TakeIsGot(p, fs[0], |e|);
        assert p.pkg[|e|..] == rest[..n];
        var p1 := Got(p, fs[0]).(pkg := rest[..n]);
        AdvanceForgets(masked, p1, Got(p, fs[0]), fs[1..], n);
        if n > 0 {
          ParsePrefix(limit, masked, p1, fs[1..], n);
        } else {
          NothingLeft(masked, p1, fs[1..]);
        }
      }
    }
  }

  lemma OneByte(limit: nat, pkg: seq<byte>)
    requires |pkg| == 1
    ensures Look(limit, pkg) == Bad
  {
  }

  lemma HasHead(masked: bool, f: Fragment)
    ensures |Encode(masked, f)| >= HEAD_SIZE
  {
  }

  lemma NothingLeft(masked: bool, p: Parser, fs: seq<Fragment>)
    ensures Leftover(masked, fs, 0) == 0 && Missing(masked, fs, 0) == fs && Advance(masked, p, fs, 0) == p.(pkg := [])
  {
    if fs != [] {
      HasHead(masked, fs[0]);
    }
  }

  lemma TakeIsGot(p: Parser, f: Fragment, n: nat)
    requires |p.pkg| >= HEAD_SIZE && |p.pkg| >= HeadLength(p.pkg) && |p.pkg| >= HeadLength(p.pkg) + DataLength(p.pkg)
    requires HeadLength(p.pkg) + DataLength(p.pkg) == n && Unmasked(p.pkg) == f.payload
    requires S.OpCode(p.pkg[0]) == f.op && S.IsFin(p.pkg[0]) == f.fin
    ensures Take(p) == Got(p, f).(pkg := p.pkg[n..])
  {
    hide Unmasked, HeadLength, DataLength, S.OpCode, S.IsFin;
  }

  /** What is in the cache before does not matter for where the parser ends up. */
  lemma {:induction false} AdvanceForgets(masked: bool, p: Parser, q: Parser, fs: seq<Fragment>, m: nat)
    requires m <= |EncodeAll(masked, fs)| && p.(pkg := []) == q.(pkg := [])
    ensures Advance(masked, p, fs, m) == Advance(masked, q, fs, m)
    decreases |fs|
  {
    hide Encode;
    if fs != [] && m >= |Encode(masked, fs[0])| {
      AdvanceForgets(masked, Got(p, fs[0]), Got(q, fs[0]), fs[1..], m - |Encode(masked, fs[0])|);
    }
  }

  /** Consecutive calls of `ParseMsg`. */
  function Calls(limit: nat, p: Parser, chunks: seq<seq<byte>>): Parser
    decreases |chunks|
  {
    if chunks == [] then p else Calls(limit, Parse(limit, p.(pkg := p.pkg + chunks[0])).1, chunks[1..])
  }

  function Flatten(chunks: seq<seq<byte>>): seq<byte> {
    if chunks == [] then [] else chunks[0] + Flatten(chunks[1..])
  }

  /** No call is empty, and none leaves a single byte; m bytes have come before. */
  predicate WellCut(masked: bool, fs: seq<Fragment>, m: nat, chunks: seq<seq<byte>>)
    decreases |chunks|
  {
    chunks == [] ||
    (chunks[0] != [] && Leftover(masked, fs, m + |chunks[0]|) != 1
     && WellCut(masked, Missing(masked, fs, m + |chunks[0]|), Leftover(masked, fs, m + |chunks[0]|), chunks[1..]))
  }

  /** The bytes not yet worked off are the beginning of what is missing. */
  lemma {:induction false} AdvanceState(masked: bool, p: Parser, fs: seq<Fragment>, m: nat)
    requires m <= |EncodeAll(masked, fs)|
    ensures var left, rest, p' := Leftover(masked, fs, m), Missing(masked, fs, m), Advance(masked, p, fs, m);
      && left <= |EncodeAll(masked, rest)| && p'.pkg == EncodeAll(masked, rest)[..left]
      && EncodeAll(masked, fs)[m..] == EncodeAll(masked, rest)[left..]
      && GotAll(p', rest).(pkg := []) == GotAll(p, fs).(pkg := [])
      && (forall f <- rest :: f in fs) && (rest != [] ==> left < |Encode(masked, rest[0])|) && (rest == [] ==> left == 0)
    decreases |fs|
  {
    hide Encode;
    if fs == [] || m < |Encode(masked, fs[0])| {
      GotForgets(Advance(masked, p, fs, m), p, fs);
    } else {
      var e, rest := Encode(masked, fs[0]), EncodeAll(masked, fs[1..]);
      AdvanceState(masked, Got(p, fs[0]), fs[1..], m - |e|);
      assert EncodeAll(masked, fs) == e + rest;
      assert (e + rest)[m..] == rest[m - |e|..];
    }
  }

  lemma {:induction false} GotForgets(p: Parser, q: Parser, fs: seq<Fragment>)
    requires p.(pkg := []) == q.(pkg := [])
    ensures GotAll(p, fs).(pkg := []) == GotAll(q, fs).(pkg := [])
    decreases |fs|
  {
    if fs != [] {
      GotForgets(Got(p, fs[0]), Got(q, fs[0]), fs[1..]);
    }
  }

  /** A whole stream, well cut, is received fragment by fragment. */
  lemma {:induction false} StreamReceived(limit: nat, masked: bool, p: Parser, fs: seq<Fragment>, m: nat,
                                          chunks: seq<seq<byte>>)
    requires AllAcceptable(limit, fs) && WellCut(masked, fs, m, chunks)
    requires m <= |EncodeAll(masked, fs)| && p.pkg == EncodeAll(masked, fs)[..m]
    requires p.pkg + Flatten(chunks) == EncodeAll(masked, fs)
    requires Missing(masked, fs, m) == fs && Leftover(masked, fs, m) == m
    ensures Calls(limit, p, chunks) == GotAll(p, fs).(pkg := [])
    decreases |chunks|
  {
    hide Parse, Encode, Acceptable, EncodeAll, Leftover, Missing, Advance;
    var all := EncodeAll(masked, fs);
    if chunks == [] {
      assert p.pkg + [] == p.pkg;
      assert all[..m] == all ==> m == |all|;
      AllReceived(masked, p, fs, m);
    } else {
      var c, n := chunks[0], m + |chunks[0]|;
      assert p.pkg + (c + Flatten(chunks[1..])) == p.pkg + c + Flatten(chunks[1..]);
      assert p.pkg + c == all[..n];
      var p0 := p.(pkg := p.pkg + c);
      ParsePrefix(limit, masked, p0, fs, n);
      AdvanceState(masked, p0, fs, n);
      var left, rest, p1 := Leftover(masked, fs, n), Missing(masked, fs, n), Advance(masked, p0, fs, n);
      assert Flatten(chunks[1..]) == all[n..];
      var restAll := EncodeAll(masked, rest);
      assert restAll == restAll[..left] + restAll[left..];
      MissingIsMissing(masked, rest, left);
      StreamReceived(limit, masked, p1, rest, left, chunks[1..]);
      GotForgets(p0, p, fs);
    }
  }

  lemma MissingIsMissing(masked: bool, fs: seq<Fragment>, m: nat)
    requires if fs == [] then m == 0 else m < |Encode(masked, fs[0])|
    ensures Missing(masked, fs, m) == fs && Leftover(masked, fs, m) == m
  {
  }

  /** If nothing of the stream is missing there are no more fragments. */
  lemma AllReceived(masked: bool, p: Parser, fs: seq<Fragment>, m: nat)
    requires m == |EncodeAll(masked, fs)| && p.pkg == EncodeAll(masked, fs)[..m] && Missing(masked, fs, m) == fs
    requires Leftover(masked, fs, m) == m
    ensures fs == [] && p.pkg == []
  {
    if fs != [] {
      AdvanceState(masked, p, fs, m);
      WholeIsThere(masked, fs);
    }
  }

  lemma WholeIsThere(masked: bool, fs: seq<Fragment>)
    requires fs != []
    ensures |EncodeAll(masked, fs)| >= |Encode(masked, fs[0])|
  {
  }

  // ---------------------------------------------------------------------------------------------
  // The round trip
  // ---------------------------------------------------------------------------------------------

  /** The fragments of a message put together: the payload once, with the opcode if there is one fragment. */
  lemma {:induction false} FragmentsMean(p: Parser, op: byte, payload: seq<byte>, max: nat, keys: nat -> Key, i: nat)
    requires max > 0
    ensures GotAll(p, Fragments(op, payload, max, keys, i)) ==
      p.(data := [], log := p.log + [(p.data + payload, if i == 0 && |payload| <= max then op else FRAME)])
    decreases |payload|
  {
    var n := if |payload| < max then |payload| else max;
    var f := Fragment(|payload| <= max, if i == 0 then op else FRAME, keys(i), payload[..n]);
    if |payload| == n {
      assert [f][1..] == [] && payload[..n] == payload;
    } else {
      var more := Fragments(op, payload[n..], max, keys, i + 1);
      assert ([f] + more)[1..] == more;
      FragmentsMean(Got(p, f), op, payload[n..], max, keys, i + 1);
      assert p.data + payload[..n] + payload[n..] == p.data + payload;
    }
  }

  lemma {:induction false} FragmentsAcceptable(limit: nat, op: byte, payload: seq<byte>, max: nat, keys: nat -> Key, i: nat)
    requires 0 < max <= limit <= DEFAULT_MAX && CheckOpCode(op)
    ensures AllAcceptable(limit, Fragments(op, payload, max, keys, i))
    decreases |payload|
  {
    var n := if |payload| < max then |payload| else max;
    if |payload| != n {
      FragmentsAcceptable(limit, op, payload[n..], max, keys, i + 1);
    }
  }

  lemma {:induction false} PackagesAreStream(masked: bool, fs: seq<Fragment>)
    ensures Flatten(EncodeEach(masked, fs)) == EncodeAll(masked, fs)
  {
    hide Encode;
    if fs != [] {
      PackagesAreStream(masked, fs[1..]);
      assert EncodeEach(masked, fs)[1..] == EncodeEach(masked, fs[1..]);
    }
  }

  /**
   Every payload, packed with any fragment size up to the limit, is delivered exactly once, however the
   packages are cut, as long as no call leaves a single byte.
   */
  lemma RoundTrip(limit: nat, isServer: bool, op: byte, payload: seq<byte>, max: nat, keys: nat -> Key,
                  chunks: seq<seq<byte>>)
    requires 0 < max <= limit <= DEFAULT_MAX && CheckOpCode(op)
    requires var fs := Fragments(op, payload, max, keys, 0);
      Flatten(chunks) == Flatten(EncodeEach(!isServer, fs)) && WellCut(!isServer, fs, 0, chunks)
    ensures Calls(limit, Parser([], [], []), chunks) ==
      Parser([], [], [(payload, if |payload| <= max then op else FRAME)])
  {
    hide Calls, WellCut, EncodeEach, EncodeAll, Fragments, GotAll;
    var fs, p := Fragments(op, payload, max, keys, 0), Parser([], [], []);
    FragmentsAcceptable(limit, op, payload, max, keys, 0);
    PackagesAreStream(!isServer, fs);
    NothingLeft(!isServer, p, fs);
    assert [] + Flatten(chunks) == Flatten(chunks);
    StreamReceived(limit, !isServer, p, fs, 0, chunks);
    FragmentsMean(p, op, payload, max, keys, 0);
    assert [] + payload == payload;
  }
}
