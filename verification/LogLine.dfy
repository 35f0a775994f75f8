/** The log record of eddid_nano_logger.h: tagged values in a buffer that starts on the stack and grows. */
module LogLine {
  import opened NetworkOrder
  import opened Wrappers

  const DEFAULT_STACK_BUFFER_SIZE: nat := 512
  const STACK_BUFFER: nat := 224
  const HEADER: nat := 45
  const STRING_ID: byte := 12

  /** A number of one of the eleven arithmetic types, as its bytes, or a C string without its terminator. */
  datatype Value = Number(id: byte, bytes: seq<byte>) | Text(chars: seq<byte>)

  /** The sizes of bool, int8, uint8, uint32, uint64, int32, int64, double, float, int16 and uint16. */
  function SizeOf(id: byte): nat {
    match id
    case 0 => 1
    case 1 => 1
    case 2 => 1
    case 3 => 4
    case 4 => 8
    case 5 => 4
    case 6 => 8
    case 7 => 8
    case 8 => 4
    case 9 => 2
    case 10 => 2
    case _ => 0
  }

  predicate IsNumber(id: byte) { id <= 10 }

  /** What can be written; text may be null or empty, and holds no zero byte. */
  predicate Supported(v: Option<Value>) {
    match v
    case None => true
    case Some(Number(id, bytes)) => IsNumber(id) && |bytes| == SizeOf(id)
    case Some(Text(chars)) => 0 !in chars
  }

  /** Null and empty strings leave no trace. */
  predicate IsDropped(v: Option<Value>) {
    v.None? || (v.value.Text? && v.value.chars == [])
  }

  function EncodeOne(v: Value): seq<byte> {
    match v
    case Number(id, bytes) => [id] + bytes
    case Text(chars) => [STRING_ID] + chars + [0]
  }

  predicate Storable(v: Value) {
    Supported(Some(v)) && !IsDropped(Some(v))
  }

  predicate AllStorable(vs: seq<Value>) {
    forall v <- vs :: Storable(v)
  }

  /** The values written that leave a trace. */
  function Kept(vs: seq<Option<Value>>): seq<Value> {
    if vs == [] then []
    else Kept(vs[..|vs| - 1]) + if IsDropped(vs[|vs| - 1]) then [] else [vs[|vs| - 1].value]
  }

  /** The bytes are the encodings of the values, one after the other. */
  ghost predicate Encodes(bytes: seq<byte>, vs: seq<Value>) {
    AllStorable(vs) && bytes == Concat(vs)
  }

  function Concat(vs: seq<Value>): seq<byte> {
    if vs == [] then [] else EncodeOne(vs[0]) + Concat(vs[1..])
  }

  lemma {:induction false} ConcatAppend(vs: seq<Value>, v: Value)
    ensures Concat(vs + [v]) == Concat(vs) + EncodeOne(v)
  {
    hide EncodeOne;
    if vs == [] {
      assert [v][1..] == [] && vs + [v] == [v];
    } else {
      ConcatAppend(vs[1..], v);
      assert (vs + [v])[1..] == vs[1..] + [v];
      assert EncodeOne(vs[0]) + (Concat(vs[1..]) + EncodeOne(v)) == EncodeOne(vs[0]) + Concat(vs[1..]) + EncodeOne(v);
    }
  }

  class Line {
    var bufferSize: nat
    var used: nat
    const stackBuffer: array<byte>
    var headBuffer: array?<byte>

    function Active(): array<byte>
      reads this
    {
      if headBuffer == null then stackBuffer else headBuffer
    }

    ghost predicate Valid()
      reads this
    {
      stackBuffer.Length == STACK_BUFFER && used <= bufferSize == Active().Length
    }

    ghost function Bytes(): seq<byte>
      requires Valid()
      reads this, Active()
    {
      Active()[..used]
    }

    /** `header` is the timestamp, the process, the thread, the place in the source and the level. */
    constructor (header: seq<byte>)
      requires |header| == HEADER
      ensures Valid() && Bytes() == header && fresh(stackBuffer) && headBuffer == null
    {
      bufferSize, used := STACK_BUFFER, HEADER;
      stackBuffer := new byte[STACK_BUFFER](i => if 0 <= i < |header| then header[i] else 0);
      headBuffer := null;
    }

    /** Room for `size` more bytes; growing keeps those already written. */
    method ResizeBuffer(size: nat)
      requires Valid()
      modifies this
      ensures Valid() && used == old(used) && used + size <= bufferSize && Bytes() == old(Bytes())
      ensures old(bufferSize) <= bufferSize
      ensures (Active() == old(Active()) && bufferSize == old(bufferSize)) || fresh(Active())
      ensures old(used) + size <= old(bufferSize) ==> Active() == old(Active())
    {
      var reqSize := used + size;
      if reqSize <= bufferSize {
        return;
      }
      if headBuffer == null {
        bufferSize := Max(DEFAULT_STACK_BUFFER_SIZE, reqSize);
        var grown := new byte[bufferSize](_ => 0);
        Copy(stackBuffer, grown, used);
        headBuffer := grown;
      } else {
        bufferSize := Max(bufferSize * 2, reqSize);
        var tmp := new byte[bufferSize](_ => 0);
        Copy(headBuffer, tmp, used);
        headBuffer := tmp;
      }
    }

    /** Writes at the end of what is used. */
    method Put(bytes: seq<byte>)
      requires Valid() && used + |bytes| <= bufferSize
      modifies `used, Active()
      ensures Valid() && Bytes() == old(Bytes()) + bytes
    {
      var buf := Active();
      forall i | 0 <= i < |bytes| {
        buf[used + i] := bytes[i];
      }
      used := used + |bytes|;
    }

    method Encode(id: byte, bytes: seq<byte>)
      requires Valid()
      modifies this, Active()
      ensures Valid() && Bytes() == old(Bytes()) + ([id] + bytes) && (Active() == old(Active()) || fresh(Active()))
    {
      ResizeBuffer(|bytes| + 1);
      Put([id]);
      Put(bytes);
      assert old(Bytes()) + [id] + bytes == old(Bytes()) + ([id] + bytes);
    }

    method EncodeStr(chars: seq<byte>)
      requires Valid()
      modifies this, Active()
      ensures Valid() && (Active() == old(Active()) || fresh(Active()))
      ensures Bytes() == old(Bytes()) + if chars == [] then [] else [STRING_ID] + chars + [0]
    {
      var len := |chars|;
      if len == 0 {
        return;
      }
      ResizeBuffer(1 + len + 1);
      Put([STRING_ID]);
      Put(chars + [0]);
      assert old(Bytes()) + [STRING_ID] + (chars + [0]) == old(Bytes()) + ([STRING_ID] + chars + [0]);
    }

    /** `operator<<`. */
    method Write(v: Option<Value>)
      requires Valid() && Supported(v)
      modifies this, Active()
      ensures Valid() && (Active() == old(Active()) || fresh(Active()))
      ensures Bytes() == old(Bytes()) + if IsDropped(v) then [] else EncodeOne(v.value)
    {
      match v
      case None =>
      case Some(Number(id, bytes)) => Encode(id, bytes);
      case Some(Text(chars)) => EncodeStr(chars);
    }
  }

  function Max(a: nat, b: nat): nat {
    if a > b then a else b
  }

  method Copy(from: array<byte>, to: array<byte>, count: nat)
    requires from != to && count <= from.Length && count <= to.Length
    modifies to
    ensures to[..count] == from[..count]
  {
    forall i | 0 <= i < count {
      to[i] := from[i];
    }
  }

  // ---------------------------------------------------------------------------------------------
  // Decoding
  // ---------------------------------------------------------------------------------------------

  lemma SliceOfSlice(bytes: seq<byte>, start: nat, mid: nat, end: nat)
    requires start <= mid <= end <= |bytes|
    ensures bytes[start..end][..mid - start] == bytes[start..mid]
    ensures bytes[start..end][mid - start..] == bytes[mid..end]
  {}

  lemma Append(a: seq<byte>, b: seq<byte>)
    ensures (a + b)[..|a|] == a && (a + b)[|a|..] == b
  {}

  /** A non-empty record begins with the encoding of its first value and goes on with the others. */
  lemma FirstValue(bytes: seq<byte>, start: nat, end: nat, vs: seq<Value>)
    requires start < end <= |bytes| && Encodes(bytes[start..end], vs)
    ensures vs != [] && Storable(vs[0]) && start + |EncodeOne(vs[0])| <= end
    ensures bytes[start..start + |EncodeOne(vs[0])|] == EncodeOne(vs[0])
    ensures Encodes(bytes[start + |EncodeOne(vs[0])|..end], vs[1..])
  {
    hide EncodeOne, Storable;
    var a, b := EncodeOne(vs[0]), Concat(vs[1..]);
    assert vs[0] in vs;
    Append(a, b);
    SliceOfSlice(bytes, start, start + |a|, end);
  }

  lemma {:induction false} NoValues(vs: seq<Value>)
    requires Concat(vs) == []
    ensures vs == []
  {}

  lemma TextBytes(bytes: seq<byte>, start: nat, chars: seq<byte>)
    requires start + |chars| + 2 <= |bytes| && bytes[start..start + |chars| + 2] == [STRING_ID] + chars + [0]
    ensures bytes[start] == STRING_ID && bytes[start + |chars| + 1] == 0
    ensures forall k | 0 <= k < |chars| :: bytes[start + 1..][k] == chars[k]
  {
    var e := bytes[start..start + |chars| + 2];
    assert e[0] == bytes[start] && e[|chars| + 1] == bytes[start + |chars| + 1];
    forall k | 0 <= k < |chars| ensures bytes[start + 1..][k] == chars[k] {
      assert e[k + 1] == bytes[start + 1 + k] == chars[k];
    }
  }

  lemma NumberBytes(bytes: seq<byte>, start: nat, id: byte, digits: seq<byte>)
    requires start + 1 + |digits| <= |bytes| && bytes[start..start + 1 + |digits|] == [id] + digits
    ensures bytes[start] == id && bytes[start + 1..start + 1 + |digits|] == digits
  {
    var e := bytes[start..start + 1 + |digits|];
    assert e[0] == id && e[1..] == digits && e[1..] == bytes[start + 1..start + 1 + |digits|];
  }

  /** The loop of `Decode0` for strings: up to the terminator, and past it. */
  method DecodeString(buf: array<byte>, start: nat, ghost chars: seq<byte>) returns (text: seq<byte>, next: nat)
    requires start + |chars| < buf.Length && buf[start + |chars|] == 0 && 0 !in chars
    requires forall k | 0 <= k < |chars| :: buf[start..][k] == chars[k]
    ensures text == chars && next == start + |chars| + 1
  {
    text := [];
    var p := start;
    assert |chars| > 0 ==> buf[start..][0] == chars[0];
    while buf[p] != 0
      invariant start <= p <= start + |chars| && text == chars[..p - start]
      invariant p < start + |chars| ==> buf[p] == chars[p - start] && chars[p - start] in chars
      decreases start + |chars| - p
    {
      assert p + 1 < start + |chars| ==> buf[start..][p + 1 - start] == chars[p + 1 - start];
      text := text + [buf[p]];
      p := p + 1;
    }
    next := p + 1;
  }

  /** One case of the switch: the tag at `start` tells how much to read. */
  method DecodeOne(buf: array<byte>, start: nat, ghost v: Value) returns (value: Value, next: nat)
    requires Storable(v) && start + |EncodeOne(v)| <= buf.Length
    requires buf[start..start + |EncodeOne(v)|] == EncodeOne(v)
    ensures value == v && next == start + |EncodeOne(v)|
  {
    ghost var bytes := buf[..];
    assert bytes[start..start + |EncodeOne(v)|] == EncodeOne(v);
    if v.Number? {
      NumberBytes(bytes, start, v.id, v.bytes);
    } else {
      TextBytes(bytes, start, v.chars);
    }
    var id := buf[start];
    if IsNumber(id) {
      next := start + 1 + SizeOf(id);
      value := Number(id, buf[start + 1..next]);
      assert buf[start + 1..next] == bytes[start + 1..next];
    } else {
      assert buf[start + 1..] == bytes[start + 1..];
      var text;
      text, next := DecodeString(buf, start + 1, v.chars);
      value := Text(text);
    }
  }

  /** `Decode`: what the stream holds after `os` once the rest of the record is written to it. */
  method Decode(os: seq<Value>, buf: array<byte>, start: nat, end: nat, ghost vs: seq<Value>) returns (out: seq<Value>)
    requires start <= end <= buf.Length && Encodes(buf[start..end], vs)
    ensures out == os + vs
    decreases end - start
  {
    hide EncodeOne, Storable, AllStorable;
    if start == end {
      NoValues(vs);
      return os;
    }
    assert buf[start..end] == buf[..][start..end];
    FirstValue(buf[..], start, end, vs);
    assert buf[start..start + |EncodeOne(vs[0])|] == buf[..][start..start + |EncodeOne(vs[0])|];
    var value, next := DecodeOne(buf, start, vs[0]);
    assert buf[next..end] == buf[..][next..end];
    NotEmpty(vs[0]);
    out := Decode(os + [value], buf, next, end, vs[1..]);
    assert os + [vs[0]] + vs[1..] == os + ([vs[0]] + vs[1..]) == os + vs;
  }

  lemma NotEmpty(v: Value)
    ensures |EncodeOne(v)| > 0
  {}

  // ---------------------------------------------------------------------------------------------
  // Round trip
  // ---------------------------------------------------------------------------------------------

  lemma KeptStorable(vs: seq<Option<Value>>)
    requires forall v <- vs :: Supported(v)
    ensures AllStorable(Kept(vs))
  {
    if vs != [] {
      assert vs[|vs| - 1] in vs;
      KeptStorable(vs[..|vs| - 1]);
    }
  }

  lemma KeptMore(vs: seq<Option<Value>>, v: Option<Value>, header: seq<byte>)
    ensures header + Concat(Kept(vs + [v])) == header + Concat(Kept(vs)) + if IsDropped(v) then [] else EncodeOne(v.value)
  {
    hide EncodeOne, Concat;
    assert (vs + [v])[..|vs|] == vs;
    if !IsDropped(v) {
      ConcatAppend(Kept(vs), v.value);
      assert header + (Concat(Kept(vs)) + EncodeOne(v.value)) == header + Concat(Kept(vs)) + EncodeOne(v.value);
    } else {
      assert Kept(vs) + [] == Kept(vs);
    }
  }

  /** A line of log: every value written with `operator<<`, one after the other. */
  method WriteAll(line: Line, header: seq<byte>, vs: seq<Option<Value>>)
    requires line.Valid() && line.Bytes() == header && forall v <- vs :: Supported(v)
    modifies line, line.Active()
    ensures line.Valid() && line.Bytes() == header + Concat(Kept(vs))
    ensures line.Active() == old(line.Active()) || fresh(line.Active())
  {
    hide Concat, EncodeOne, Kept, IsDropped, Supported;
    NothingKept(header);
    assert vs[..0] == [];
    for i := 0 to |vs|
      invariant line.Valid() && line.Bytes() == header + Concat(Kept(vs[..i]))
      invariant line.Active() == old(line.Active()) || fresh(line.Active())
    {
      assert vs[i] in vs && vs[..i + 1] == vs[..i] + [vs[i]];
      KeptMore(vs[..i], vs[i], header);
      line.Write(vs[i]);
    }
    assert vs[..|vs|] == vs;
  }

  lemma NothingKept(header: seq<byte>)
    ensures header + Concat(Kept([])) == header
  {}

  /** Everything written comes back, in order, without the null and empty strings. */
  method RoundTrip(header: seq<byte>, vs: seq<Option<Value>>) returns (out: seq<Value>)
    requires |header| == HEADER && forall v <- vs :: Supported(v)
    ensures out == Kept(vs)
  {
    hide Concat, EncodeOne, Kept, IsDropped, Supported, AllStorable;
    var line := new Line(header);
    WriteAll(line, header, vs);
    KeptStorable(vs);
    var buf := line.Active();
    assert line.Bytes() == buf[..line.used];
    Append(header, Concat(Kept(vs)));
    assert buf[HEADER..line.used] == buf[..line.used][HEADER..];
    out := Decode([], buf, HEADER, line.used, Kept(vs));
    assert [] + Kept(vs) == Kept(vs);
  }
}
