/** Numbers in network byte order: `htons`, `ntohs`, `htobe64` and `be64toh` of the WebSocket codec. */
module NetworkOrder {
  type byte = bv8

  function Weight(on: bool, weight: nat): nat { if on then weight else 0 }

  /** A byte as a number. */
  function Value(b: byte): nat {
    Weight(b & 128 != 0, 128) + Weight(b & 64 != 0, 64) + Weight(b & 32 != 0, 32) + Weight(b & 16 != 0, 16)
    + Weight(b & 8 != 0, 8) + Weight(b & 4 != 0, 4) + Weight(b & 2 != 0, 2) + Weight(b & 1 != 0, 1)
  }

  function Flag(on: bool, mask: byte): byte { if on then mask else 0 }

  function FromBits(b7: bool, b6: bool, b5: bool, b4: bool, b3: bool, b2: bool, b1: bool, b0: bool): byte {
    Flag(b7, 128) | Flag(b6, 64) | Flag(b5, 32) | Flag(b4, 16) | Flag(b3, 8) | Flag(b2, 4) | Flag(b1, 2) | Flag(b0, 1)
  }

  function Rest(x: nat, weight: nat): nat { if x >= weight then x - weight else x }

  /** A number as a byte, bit by bit from the top. */
  function ToByte(x: nat): byte
    requires x < 256
  {
    var x6 := Rest(x, 128);
    var x5 := Rest(x6, 64);
    var x4 := Rest(x5, 32);
    var x3 := Rest(x4, 16);
    var x2 := Rest(x3, 8);
    var x1 := Rest(x2, 4);
    var x0 := Rest(x1, 2);
    FromBits(x >= 128, x6 >= 64, x5 >= 32, x4 >= 16, x3 >= 8, x2 >= 4, x1 >= 2, x0 >= 1)
  }

  lemma ValueOfBits(b7: bool, b6: bool, b5: bool, b4: bool, b3: bool, b2: bool, b1: bool, b0: bool)
    ensures Value(FromBits(b7, b6, b5, b4, b3, b2, b1, b0)) ==
      Weight(b7, 128) + Weight(b6, 64) + Weight(b5, 32) + Weight(b4, 16)
      + Weight(b3, 8) + Weight(b2, 4) + Weight(b1, 2) + Weight(b0, 1)
  {
  }

  lemma Split(x: nat, weight: nat)
    requires x < 2 * weight
    ensures Weight(x >= weight, weight) + Rest(x, weight) == x && Rest(x, weight) < weight
  {
  }

  lemma ByteRoundTrip(x: nat)
    requires x < 256
    ensures Value(ToByte(x)) == x
  {
    hide Value, FromBits, Weight, Rest;
    var x6 := Rest(x, 128);
    var x5 := Rest(x6, 64);
    var x4 := Rest(x5, 32);
    var x3 := Rest(x4, 16);
    var x2 := Rest(x3, 8);
    var x1 := Rest(x2, 4);
    var x0 := Rest(x1, 2);
    Split(x, 128);
    Split(x6, 64);
    Split(x5, 32);
    Split(x4, 16);
    Split(x3, 8);
    Split(x2, 4);
    Split(x1, 2);
    Split(x0, 1);
    ValueOfBits(x >= 128, x6 >= 64, x5 >= 32, x4 >= 16, x3 >= 8, x2 >= 4, x1 >= 2, x0 >= 1);
  }

  lemma SmallValue(b: byte)
    ensures Value(b) < 256 && (b < 126 <==> Value(b) < 126)
  {
  }

  /** A big-endian number. */
  function BigEndian(s: seq<byte>): nat {
    if s == [] then 0 else BigEndian(s[..|s| - 1]) * 256 + Value(s[|s| - 1])
  }

  /** A number as n bytes in network order, as `htons` and `htobe64` store it. */
  function NetworkBytes(x: nat, n: nat): (s: seq<byte>)
    ensures |s| == n
  {
    if n == 0 then [] else NetworkBytes(x / 256, n - 1) + [ToByte(x % 256)]
  }

  function Power256(n: nat): nat {
    if n == 0 then 1 else 256 * Power256(n - 1)
  }

  lemma {:induction false} BigEndianBytes(x: nat, n: nat)
    requires x < Power256(n)
    ensures BigEndian(NetworkBytes(x, n)) == x
  {
    hide Value, ToByte;
    if n > 0 {
      BigEndianBytes(x / 256, n - 1);
      ByteRoundTrip(x % 256);
      assert NetworkBytes(x, n)[..n - 1] == NetworkBytes(x / 256, n - 1);
    }
  }
}
