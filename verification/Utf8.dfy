/** UTF-8 validation, `isValidUtf8` of WebSocketProtocol.h, against sections 3 and 4 of RFC 3629. */
module Utf8 {
  import opened NetworkOrder

  /** A Unicode scalar value: a code point that is not a surrogate. */
  predicate IsScalar(c: bv32) {
    c < 0xD800 || 0xE000 <= c < 0x11_0000
  }

  /** The table of section 3 of RFC 3629. */
  function Encode(c: bv32): seq<byte>
    requires IsScalar(c)
  {
    if c < 0x80 then [c as byte]
    else if c < 0x800 then [(0xC0 | (c >> 6)) as byte, Tail(c)]
    else if c < 0x1_0000 then [(0xE0 | (c >> 12)) as byte, Tail(c >> 6), Tail(c)]
    else [(0xF0 | (c >> 18)) as byte, Tail(c >> 12), Tail(c >> 6), Tail(c)]
  }

  /** A continuation byte with the low six bits of c. */
  function Tail(c: bv32): byte {
    (0x80 | (c & 0x3F)) as byte
  }

  ghost predicate AllScalars(cs: seq<bv32>) {
    forall c <- cs :: IsScalar(c)
  }

  ghost function EncodeAll(cs: seq<bv32>): seq<byte>
    requires AllScalars(cs)
  {
    if cs == [] then [] else Encode(cs[0]) + EncodeAll(cs[1..])
  }

  /** The bytes are the encodings of some scalar values, one after the other. */
  ghost predicate IsUtf8(s: seq<byte>) {
    exists cs :: AllScalars(cs) && EncodeAll(cs) == s
  }

  /** How many bytes the tests of the validator accept at the start; 0 if they reject. */
  function Accepts(s: seq<byte>): nat
    requires s != []
  {
    if s[0] & 0x80 == 0 then 1
    else if s[0] & 0x60 == 0x40 then
      if |s| < 2 || s[1] & 0xC0 != 0x80 || s[0] & 0xFE == 0xC0 then 0 else 2
    else if s[0] & 0xF0 == 0xE0 then
      if |s| < 3 || s[1] & 0xC0 != 0x80 || s[2] & 0xC0 != 0x80
         || (s[0] == 0xE0 && s[1] & 0xE0 == 0x80) || (s[0] == 0xED && s[1] & 0xE0 == 0xA0) then 0 else 3
    else if s[0] & 0xF8 == 0xF0 then
      if |s| < 4 || s[1] & 0xC0 != 0x80 || s[2] & 0xC0 != 0x80 || s[3] & 0xC0 != 0x80
         || (s[0] == 0xF0 && s[1] & 0xF0 == 0x80) || (s[0] == 0xF4 && s[1] > 0x8F) || s[0] > 0xF4 then 0 else 4
    else 0
  }

  // ---------------------------------------------------------------------------------------------
  // One sequence: accepted exactly when it is the encoding of a scalar value
  // ---------------------------------------------------------------------------------------------

  lemma EncodingIsAccepted(c: bv32, rest: seq<byte>)
    requires IsScalar(c)
    ensures Accepts(Encode(c) + rest) == |Encode(c)|
  {
    if c < 0x80 {
    } else if c < 0x800 {
    } else if c < 0x1_0000 {
    } else {
    }
  }

  function Decode2(a: byte, b: byte): bv32 {
    ((a & 0x1F) as bv32 << 6) | (b & 0x3F) as bv32
  }

  function Decode3(a: byte, b: byte, c: byte): bv32 {
    ((a & 0x0F) as bv32 << 12) | ((b & 0x3F) as bv32 << 6) | (c & 0x3F) as bv32
  }

  function Decode4(a: byte, b: byte, c: byte, d: byte): bv32 {
    ((a & 0x07) as bv32 << 18) | ((b & 0x3F) as bv32 << 12) | ((c & 0x3F) as bv32 << 6) | (d & 0x3F) as bv32
  }

  /** The scalar value whose encoding the validator has accepted. */
  function Decode(s: seq<byte>): bv32
    requires s != [] && Accepts(s) > 0
  {
    match Accepts(s)
    case 1 => s[0] as bv32
    case 2 => Decode2(s[0], s[1])
    case 3 => Decode3(s[0], s[1], s[2])
    case _ => Decode4(s[0], s[1], s[2], s[3])
  }

  predicate IsTail(b: byte) {
    b & 0xC0 == 0x80
  }

  lemma TwoBytes(a: byte, b: byte)
    requires a & 0x80 != 0 && a & 0x60 == 0x40 && IsTail(b) && a & 0xFE != 0xC0
    ensures var c := Decode2(a, b); 0x80 <= c < 0x800 && (0xC0 | (c >> 6)) as byte == a && Tail(c) == b
  {
  }

  lemma ThreeBytes(a: byte, b: byte, d: byte)
    requires a & 0xF0 == 0xE0 && IsTail(b) && IsTail(d)
    requires !(a == 0xE0 && b & 0xE0 == 0x80) && !(a == 0xED && b & 0xE0 == 0xA0)
    ensures var c := Decode3(a, b, d);
      0x800 <= c < 0x1_0000 && IsScalar(c) && (0xE0 | (c >> 12)) as byte == a && Tail(c >> 6) == b && Tail(c) == d
  {
  }

  lemma FourBytes(a: byte, b: byte, d: byte, e: byte)
    requires a & 0xF8 == 0xF0 && IsTail(b) && IsTail(d) && IsTail(e)
    requires !(a == 0xF0 && b & 0xF0 == 0x80) && !(a == 0xF4 && b > 0x8F) && !(a > 0xF4)
    ensures var c := Decode4(a, b, d, e);
      0x1_0000 <= c < 0x11_0000 && (0xF0 | (c >> 18)) as byte == a
      && Tail(c >> 12) == b && Tail(c >> 6) == d && Tail(c) == e
  {
  }

  lemma OneByte(a: byte)
    requires a & 0x80 == 0
    ensures a as bv32 < 0x80 && (a as bv32) as byte == a
  {
  }

  lemma EncodeTwo(a: byte, b: byte)
    requires a & 0x80 != 0 && a & 0x60 == 0x40 && IsTail(b) && a & 0xFE != 0xC0
    ensures IsScalar(Decode2(a, b)) && Encode(Decode2(a, b)) == [a, b]
  {
    TwoBytes(a, b);
  }

  lemma EncodeThree(a: byte, b: byte, d: byte)
    requires a & 0xF0 == 0xE0 && IsTail(b) && IsTail(d)
    requires !(a == 0xE0 && b & 0xE0 == 0x80) && !(a == 0xED && b & 0xE0 == 0xA0)
    ensures IsScalar(Decode3(a, b, d)) && Encode(Decode3(a, b, d)) == [a, b, d]
  {
    ThreeBytes(a, b, d);
  }

  lemma EncodeFour(a: byte, b: byte, d: byte, e: byte)
    requires a & 0xF8 == 0xF0 && IsTail(b) && IsTail(d) && IsTail(e)
    requires !(a == 0xF0 && b & 0xF0 == 0x80) && !(a == 0xF4 && b > 0x8F) && !(a > 0xF4)
    ensures IsScalar(Decode4(a, b, d, e)) && Encode(Decode4(a, b, d, e)) == [a, b, d, e]
  {
    FourBytes(a, b, d, e);
  }

  lemma AcceptedIsEncoding(s: seq<byte>)
    requires s != [] && Accepts(s) > 0
    ensures Accepts(s) <= |s| && IsScalar(Decode(s)) && Encode(Decode(s)) == s[..Accepts(s)]
  {
    if s[0] & 0x80 == 0 {
      OneByte(s[0]);
    } else if s[0] & 0x60 == 0x40 {
      EncodeTwo(s[0], s[1]);
    } else if s[0] & 0xF0 == 0xE0 {
      EncodeThree(s[0], s[1], s[2]);
    } else {
      EncodeFour(s[0], s[1], s[2], s[3]);
    }
  }

  // ---------------------------------------------------------------------------------------------
  // Sequences of sequences
  // ---------------------------------------------------------------------------------------------

  lemma EmptyIsUtf8()
    ensures IsUtf8([])
  {
    assert EncodeAll([]) == [];
  }

  lemma PrependScalar(c: bv32, rest: seq<byte>)
    requires IsScalar(c) && IsUtf8(rest)
    ensures IsUtf8(Encode(c) + rest)
  {
    var cs :| AllScalars(cs) && EncodeAll(cs) == rest;
    var all := [c] + cs;
    assert all[1..] == cs && all[0] == c;
    assert EncodeAll(all) == Encode(c) + rest;
  }

  lemma SplitScalar(s: seq<byte>) returns (c: bv32, rest: seq<byte>)
    requires s != [] && IsUtf8(s)
    ensures IsScalar(c) && IsUtf8(rest) && s == Encode(c) + rest
  {
    var cs :| AllScalars(cs) && EncodeAll(cs) == s;
    c, rest := cs[0], EncodeAll(cs[1..]);
    assert AllScalars(cs[1..]);
  }

  /** A string is UTF-8 exactly when the validator accepts a sequence and the rest is UTF-8. */
  lemma FirstSequence(s: seq<byte>)
    requires s != []
    ensures Accepts(s) <= |s|
    ensures IsUtf8(s) <==> Accepts(s) > 0 && IsUtf8(s[Accepts(s)..])
  {
    var k := Accepts(s);
    if k > 0 {
      AcceptedIsEncoding(s);
      if IsUtf8(s[k..]) {
        PrependScalar(Decode(s), s[k..]);
        assert s == s[..k] + s[k..];
      }
    }
    if IsUtf8(s) {
      var c, rest := SplitScalar(s);
      EncodingIsAccepted(c, rest);
      assert |Encode(c)| > 0;
      assert s[|Encode(c)|..] == rest;
    }
  }

  /** `*(uint32_t *) s` on a little-endian machine. */
  function Load32(a: byte, b: byte, c: byte, d: byte): bv32 {
    a as bv32 | (b as bv32 << 8) | (c as bv32 << 16) | (d as bv32 << 24)
  }

  lemma FastPathIsAscii(a: byte, b: byte, c: byte, d: byte)
    ensures Load32(a, b, c, d) & 0x8080_8080 == 0
       <==> a & 0x80 == 0 && b & 0x80 == 0 && c & 0x80 == 0 && d & 0x80 == 0
  {
  }

  // The validator's three rejection tests, at position i.

  predicate RejectsTwo(s: seq<byte>, i: nat)
    requires i < |s|
  {
    i + 1 >= |s| || s[i + 1] & 0xC0 != 0x80 || s[i] & 0xFE == 0xC0
  }

  predicate RejectsThree(s: seq<byte>, i: nat)
    requires i < |s|
  {
    i + 2 >= |s| || s[i + 1] & 0xC0 != 0x80 || s[i + 2] & 0xC0 != 0x80
    || (s[i] == 0xE0 && s[i + 1] & 0xE0 == 0x80) || (s[i] == 0xED && s[i + 1] & 0xE0 == 0xA0)
  }

  predicate RejectsFour(s: seq<byte>, i: nat)
    requires i < |s|
  {
    i + 3 >= |s| || s[i + 1] & 0xC0 != 0x80 || s[i + 2] & 0xC0 != 0x80 || s[i + 3] & 0xC0 != 0x80
    || (s[i] == 0xF0 && s[i + 1] & 0xF0 == 0x80) || (s[i] == 0xF4 && s[i + 1] > 0x8F) || s[i] > 0xF4
  }

  /** The string from position i on is UTF-8. */
  ghost predicate ValidFrom(s: seq<byte>, i: nat)
    requires i <= |s|
  {
    IsUtf8(s[i..])
  }

  lemma ValidAtEnd(s: seq<byte>)
    ensures ValidFrom(s, |s|) && (ValidFrom(s, 0) <==> IsUtf8(s))
  {
    EmptyIsUtf8();
    assert s[0..] == s;
  }

  lemma ValidStep(s: seq<byte>, i: nat)
    requires i < |s|
    ensures var k := Accepts(s[i..]);
      i + k <= |s| && (ValidFrom(s, i) <==> k > 0 && ValidFrom(s, i + k))
  {
    FirstSequence(s[i..]);
    assert s[i..][Accepts(s[i..])..] == s[i + Accepts(s[i..])..];
  }

  lemma ValidAscii(s: seq<byte>, i: nat)
    requires i < |s| && s[i] & 0x80 == 0
    ensures ValidFrom(s, i) <==> ValidFrom(s, i + 1)
  {
    ValidStep(s, i);
  }

  lemma ValidFast(s: seq<byte>, i: nat)
    requires i + 4 <= |s| && Load32(s[i], s[i + 1], s[i + 2], s[i + 3]) & 0x8080_8080 == 0
    ensures ValidFrom(s, i) <==> ValidFrom(s, i + 4)
  {
    FastPathIsAscii(s[i], s[i + 1], s[i + 2], s[i + 3]);
    ValidAscii(s, i);
    ValidAscii(s, i + 1);
    ValidAscii(s, i + 2);
    ValidAscii(s, i + 3);
  }

  lemma ValidMultibyte(s: seq<byte>, i: nat)
    requires i < |s| && s[i] & 0x80 != 0
    ensures s[i] & 0x60 == 0x40 ==>
      (ValidFrom(s, i) <==> !RejectsTwo(s, i) && ValidFrom(s, i + 2))
    ensures s[i] & 0x60 != 0x40 && s[i] & 0xF0 == 0xE0 ==>
      (ValidFrom(s, i) <==> !RejectsThree(s, i) && ValidFrom(s, i + 3))
    ensures s[i] & 0x60 != 0x40 && s[i] & 0xF0 != 0xE0 && s[i] & 0xF8 == 0xF0 ==>
      (ValidFrom(s, i) <==> !RejectsFour(s, i) && ValidFrom(s, i + 4))
    ensures s[i] & 0x60 != 0x40 && s[i] & 0xF0 != 0xE0 && s[i] & 0xF8 != 0xF0 ==> !ValidFrom(s, i)
  {
    ValidStep(s, i);
  }

  /** `isValidUtf8`: the answer is exact, with the four-byte fast path and the inner ASCII loop. */
  method IsValidUtf8(s: seq<byte>) returns (valid: bool)
    ensures valid <==> IsUtf8(s)
  {
    ValidAtEnd(s);
    var i := 0;
    while i != |s|
      invariant 0 <= i <= |s|
      invariant IsUtf8(s) <==> ValidFrom(s, i)
    {
      if i + 4 <= |s| && Load32(s[i], s[i + 1], s[i + 2], s[i + 3]) & 0x8080_8080 == 0 {
        ValidFast(s, i);
        i := i + 4;
      } else {
        while s[i] & 0x80 == 0
          invariant 0 <= i < |s|
          invariant IsUtf8(s) <==> ValidFrom(s, i)
          decreases |s| - i
        {
          ValidAscii(s, i);
          i := i + 1;
          if i == |s| {
            return true;
          }
        }
        ValidMultibyte(s, i);
        if s[i] & 0x60 == 0x40 {
          if RejectsTwo(s, i) {
            return false;
          }
          i := i + 2;
        } else if s[i] & 0xF0 == 0xE0 {
          if RejectsThree(s, i) {
            return false;
          }
          i := i + 3;
        } else if s[i] & 0xF8 == 0xF0 {
          if RejectsFour(s, i) {
            return false;
          }
          i := i + 4;
        } else {
          return false;
        }
      }
    }
    return true;
  }
}
