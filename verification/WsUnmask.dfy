/** The in-place unmasking loops of WebSocketProtocol.h, on the receive buffer. */
module WsUnmask {
  import opened NetworkOrder
  import opened Utf8
  import opened WsStream

  /** One group of four; the two places are the same or do not overlap. */
  method UnmaskGroup(buf: array<byte>, dst: nat, src: nat, mask: seq<byte>)
    requires |mask| == 4 && (dst == src || dst + 4 <= src) && src + 4 <= buf.Length
    modifies buf
    ensures buf[dst..dst + 4] == Xor(old(buf[src..src + 4]), mask)
    ensures forall i :: 0 <= i < dst || dst + 4 <= i < buf.Length ==> buf[i] == old(buf[i])
  {
    buf[dst] := buf[src] ^ mask[0];
    buf[dst + 1] := buf[src + 1] ^ mask[1];
    buf[dst + 2] := buf[src + 2] ^ mask[2];
    buf[dst + 3] := buf[src + 3] ^ mask[3];
  }

  lemma NextGroup(done: seq<byte>, group: seq<byte>, mask: seq<byte>)
    requires |mask| == 4 && |done| % 4 == 0
    ensures Xor(done + group, mask) == Xor(done, mask) + Xor(group, mask)
  {
    XorConcat(done, group, mask);
    Rotated(mask, mask, 0, |done|);
  }

  /** One more group: `was` is the buffer at the start, `before` and `after` this group. */
  lemma GroupDone(was: seq<byte>, src: nat, s: nat, before: seq<byte>, after: seq<byte>, dst: nat, d: nat,
                  mask: seq<byte>)
    requires |mask| == 4 && |was| == |before| == |after| && src <= s && s + 4 <= |was|
    requires dst <= src && d - dst == s - src && (d - dst) % 4 == 0
    requires before[dst..d] == Xor(was[src..s], mask) && before[s..s + 4] == was[s..s + 4]
    requires after[d..d + 4] == Xor(before[s..s + 4], mask) && after[..d] == before[..d]
    ensures after[dst..d + 4] == Xor(was[src..s + 4], mask)
  {
    NextGroup(was[src..s], was[s..s + 4], mask);
    assert was[src..s] + was[s..s + 4] == was[src..s + 4];
    assert after[dst..d] == after[..d][dst..] == before[dst..d];
    assert after[dst..d + 4] == after[dst..d] + after[d..d + 4];
  }

  /**
   Unmasks `length` bytes at `src` to the left, to `dst`, four at a time. It writes at most four bytes
   more than asked and reads at most four bytes past the end.
   */
  method UnmaskImprecise(buf: array<byte>, dst: nat, src: nat, mask: seq<byte>, length: nat)
    requires |mask| == 4 && dst + 4 <= src && src + length + 4 <= buf.Length
    modifies buf
    ensures buf[dst..dst + length] == Xor(old(buf[src..src + length]), mask)
    ensures forall i :: 0 <= i < dst || dst + length + 4 <= i < buf.Length ==> buf[i] == old(buf[i])
  {
    ghost var was := buf[..];
    var n, d, s := length / 4 + 1, dst, src;
    while n != 0
      invariant 0 <= n <= length / 4 + 1
      invariant d - dst == s - src == 4 * (length / 4 + 1 - n)
      invariant buf[dst..d] == Xor(was[src..s], mask)
      invariant forall i :: 0 <= i < dst || d <= i < buf.Length ==> buf[i] == was[i]
      decreases n
    {
      ghost var before := buf[..];
      UnmaskGroup(buf, d, s, mask);
      GroupDone(was, src, s, before, buf[..], dst, d, mask);
      n, d, s := n - 1, d + 4, s + 4;
    }
    XorPrefix(was, src, s, buf[..], dst, d, length, mask);
  }

  lemma XorPrefix(was: seq<byte>, src: nat, s: nat, after: seq<byte>, dst: nat, d: nat, n: nat, mask: seq<byte>)
    requires |mask| == 4 && src <= s <= |was| && d - dst == s - src >= n && d <= |after|
    requires after[dst..d] == Xor(was[src..s], mask)
    ensures after[dst..dst + n] == Xor(was[src..src + n], mask)
  {
    var left, right := after[dst..dst + n], Xor(was[src..src + n], mask);
    forall i | 0 <= i < n
      ensures left[i] == right[i]
    {
      assert left[i] == after[dst..d][i] == Xor(was[src..s], mask)[i];
    }
  }

  /** Unmasks whole groups of four in place, up to `stop` or just past it. */
  method UnmaskInplace(buf: array<byte>, data: nat, stop: nat, mask: seq<byte>)
    requires |mask| == 4 && data <= stop && data + (stop - data + 3) / 4 * 4 <= buf.Length
    modifies buf
    ensures var end := data + (stop - data + 3) / 4 * 4;
      buf[data..end] == Xor(old(buf[data..end]), mask)
      && forall i :: 0 <= i < data || end <= i < buf.Length ==> buf[i] == old(buf[i])
  {
    ghost var was := buf[..];
    var d := data;
    while d < stop
      invariant data <= d <= data + (stop - data + 3) / 4 * 4 && (d - data) % 4 == 0
      invariant buf[data..d] == Xor(was[data..d], mask)
      invariant forall i :: 0 <= i < data || d <= i < buf.Length ==> buf[i] == was[i]
    {
      ghost var before := buf[..];
      UnmaskGroup(buf, d, d, mask);
      GroupDone(was, data, d, before, buf[..], data, d, mask);
      d := d + 4;
    }
  }

  /** Rotates right by `offset`, which is left by `n` if the two add up to whole turns. */
  method RotateMask(offset: nat, mask: array<byte>, ghost n: nat)
    requires mask.Length == 4 && (n + offset) % 4 == 0
    modifies mask
    ensures mask[..] == RotateBy(old(mask[..]), n)
  {
    var original := mask[..];
    mask[offset % 4] := original[0];
    mask[(1 + offset) % 4] := original[1];
    mask[(2 + offset) % 4] := original[2];
    mask[(3 + offset) % 4] := original[3];
    Rotated(original, mask[..], offset, n);
  }

  lemma TurnBack(i: nat, n: nat, offset: nat)
    requires i < 4 && (n + offset) % 4 == 0
    ensures ((i + n) % 4 + offset) % 4 == i
  {
  }

  lemma Rotated(original: seq<byte>, mask: seq<byte>, offset: nat, n: nat)
    requires |original| == |mask| == 4 && (n + offset) % 4 == 0
    requires forall k :: 0 <= k < 4 ==> mask[(k + offset) % 4] == original[k]
    ensures mask == RotateBy(original, n)
  {
    var turned := RotateBy(original, n);
    forall i | 0 <= i < 4
      ensures mask[i] == turned[i]
    {
      TurnBack(i, n, offset);
      assert turned[i] == original[(i + n) % 4];
    }
  }

  /** Up to three bytes in place. */
  method UnmaskTail(buf: array<byte>, src: nat, count: nat, mask: seq<byte>)
    requires |mask| == 4 && count < 4 && src + count <= buf.Length
    modifies buf
    ensures buf[src..src + count] == Xor(old(buf[src..src + count]), mask)
    ensures forall k :: 0 <= k < src || src + count <= k < buf.Length ==> buf[k] == old(buf[k])
  {
    var i := 0;
    while i < count
      invariant 0 <= i <= count
      invariant forall k :: src <= k < src + i ==> buf[k] == old(buf[k]) ^ mask[k - src]
      invariant forall k :: 0 <= k < src || src + i <= k < buf.Length ==> buf[k] == old(buf[k])
    {
      buf[src + i] := buf[src + i] ^ mask[i];
      i := i + 1;
    }
  }

  /** Exactly `length` bytes in place: whole groups, then the rest. */
  method UnmaskExactly(buf: array<byte>, src: nat, length: nat, mask: seq<byte>)
    requires |mask| == 4 && src + length <= buf.Length
    modifies buf
    ensures buf[src..src + length] == Xor(old(buf[src..src + length]), mask)
    ensures forall k :: 0 <= k < src || src + length <= k < buf.Length ==> buf[k] == old(buf[k])
  {
    ghost var was := buf[..];
    var mid := src + length / 4 * 4;
    UnmaskInplace(buf, src, mid, mask);
    ghost var half := buf[..];
    UnmaskTail(buf, mid, length % 4, mask);
    BothParts(was, half, buf[..], src, mid, src + length, mask);
  }

  lemma BothParts(was: seq<byte>, half: seq<byte>, after: seq<byte>, src: nat, mid: nat, end: nat, mask: seq<byte>)
    requires |mask| == 4 && |was| == |half| == |after| && src <= mid <= end <= |was| && (mid - src) % 4 == 0
    requires half[src..mid] == Xor(was[src..mid], mask) && half[mid..] == was[mid..]
    requires after[mid..end] == Xor(half[mid..end], mask) && after[..mid] == half[..mid]
    ensures after[src..end] == Xor(was[src..end], mask)
  {
    NextGroup(was[src..mid], was[mid..end], mask);
    assert half[mid..end] == half[mid..][..end - mid] == was[mid..end];
    assert was[src..end] == was[src..mid] + was[mid..end];
    assert after[src..mid] == after[..mid][src..] == half[src..mid];
    assert after[src..end] == after[src..mid] + after[mid..end];
  }

  /** A client receives unmasked frames: unmasking with zeros changes nothing. */
  lemma XorNothing(bytes: seq<byte>, n: nat)
    ensures Xor(bytes, [0, 0, 0, 0]) == bytes
    ensures RotateBy([0, 0, 0, 0], n) == [0, 0, 0, 0]
  {
    forall i | 0 <= i < |bytes|
      ensures Xor(bytes, [0, 0, 0, 0])[i] == bytes[i]
    {
      XorZero(bytes[i]);
      var k := i % 4;
      assert k == 0 || k == 1 || k == 2 || k == 3;
    }
    forall i | 0 <= i < 4
      ensures RotateBy([0, 0, 0, 0], n)[i] == 0
    {
      var k := (i + n) % 4;
      assert k == 0 || k == 1 || k == 2 || k == 3;
    }
  }

  lemma XorZero(b: byte)
    ensures b ^ 0 == b
  {
  }
}
