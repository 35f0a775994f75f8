/** Longest palindromic substring (longest_palindrome.cpp): Manacher's algorithm and the naive one. */
module LongestPalindrome {
  predicate IsPalindrome(s: string) {
    forall k | 0 <= k < |s| :: s[k] == s[|s| - 1 - k]
  }

  ghost predicate IsSubstring(t: string, s: string) {
    exists a, e :: 0 <= a <= e <= |s| && s[a..e] == t
  }

  /** A palindromic substring of maximum length. */
  ghost predicate IsLongest(s: string, t: string) {
    IsPalindrome(t) && IsSubstring(t, s) && NoneLonger(s, |t|)
  }

  predicate NoneLonger(s: string, n: nat) {
    forall a, e | 0 <= a <= e <= |s| && IsPalindrome(s[a..e]) :: e - a <= n
  }

  // ---------------------------------------------------------------------------------------------
  // Palindromes around a centre of the interleaved string
  // ---------------------------------------------------------------------------------------------

  /** '#' around and between the characters; '#' may occur in the string itself. */
  function Interleave(s: string): (ss: string)
    ensures |ss| == 2 * |s| + 1
  {
    seq(2 * |s| + 1, i requires 0 <= i < 2 * |s| + 1 => if i % 2 == 0 then '#' else s[i / 2])
  }

  predicate Mirrored(ss: string, i: int, j: int) {
    0 <= i - j < |ss| && 0 <= i + j < |ss| && ss[i - j] == ss[i + j]
  }

  /** The characters less than k away from i are mirrored. */
  predicate Radius(ss: string, i: int, k: int) {
    forall j | 0 <= j < k :: Mirrored(ss, i, j)
  }

  predicate Maximal(ss: string, i: int, k: int) {
    Radius(ss, i, k) && !Mirrored(ss, i, k)
  }

  lemma InsideRadius(ss: string, pos: int, radius: int, x: int)
    requires Radius(ss, pos, radius) && pos - radius < x < pos + radius
    ensures 0 <= x < |ss| && 0 <= 2 * pos - x < |ss| && ss[x] == ss[2 * pos - x]
  {
    var j := if x < pos then pos - x else x - pos;
    assert Mirrored(ss, pos, j);
  }

  /** Inside a palindrome, what is mirrored around i is what is mirrored around the mirror image of i. */
  lemma MirrorImage(ss: string, pos: int, radius: int, i: int, j: int)
    requires Radius(ss, pos, radius) && pos <= i && 0 <= j && i + j < pos + radius
    ensures Mirrored(ss, i, j) <==> Mirrored(ss, 2 * pos - i, j)
  {
    InsideRadius(ss, pos, radius, i + j);
    InsideRadius(ss, pos, radius, i - j);
  }

  lemma MirrorRadius(ss: string, pos: int, radius: int, i: int, k: int)
    requires Radius(ss, pos, radius) && pos <= i && i + k <= pos + radius
    requires Radius(ss, 2 * pos - i, k)
    ensures Radius(ss, i, k)
  {
    forall j | 0 <= j < k
      ensures Mirrored(ss, i, j)
    {
      MirrorImage(ss, pos, radius, i, j);
      assert Mirrored(ss, 2 * pos - i, j);
    }
  }

  /** A palindrome of the string is one of the interleaved string around its middle. */
  lemma PalindromeHasRadius(s: string, a: nat, e: nat)
    requires a <= e <= |s| && IsPalindrome(s[a..e])
    ensures Radius(Interleave(s), a + e, e - a + 1)
  {
    var ss, i, t := Interleave(s), a + e, s[a..e];
    forall j | 0 <= j < e - a + 1
      ensures Mirrored(ss, i, j)
    {
      if (i - j) % 2 != 0 {
        var k := (i - j) / 2 - a;
        assert t[k] == t[|t| - 1 - k];
        assert a + (|t| - 1 - k) == (i + j) / 2;
      }
    }
  }

  lemma WidenToSeparators(s: string, i: nat, k: nat)
    requires k > 0 && Mirrored(Interleave(s), i, k - 1) && (i + 1 - k) % 2 != 0
    ensures Mirrored(Interleave(s), i, k)
  {
    var ss := Interleave(s);
    assert (i - k) % 2 == 0 && (i + k) % 2 == 0;
    assert ss[i - k] == '#' && ss[i + k] == '#';
  }

  /** A maximal palindrome of the interleaved string begins and ends with '#'. */
  lemma MaximalIsEven(s: string, i: nat, k: nat)
    requires i < 2 * |s| + 1 && k > 0 && Maximal(Interleave(s), i, k)
    ensures (i + 1 - k) % 2 == 0 && k - 1 <= i && i + k - 1 <= 2 * |s|
  {
    assert Mirrored(Interleave(s), i, k - 1);
    if (i + 1 - k) % 2 != 0 {
      WidenToSeparators(s, i, k);
    }
  }

  /** Two characters of the part of the string inside a palindrome of the interleaved string. */
  lemma LettersMirrored(s: string, i: nat, k: nat, a: nat, p: nat)
    requires Radius(Interleave(s), i, k) && 2 * a == i + 1 - k && a + k - 1 <= |s| && p < k - 1
    ensures s[a + p] == s[a + (k - 2 - p)]
  {
    var ss, q := Interleave(s), k - 2 - p;
    var j := if q >= p then q - p else p - q;
    assert Mirrored(ss, i, j);
    assert 2 * (a + p) + 1 == i - (q - p) && 2 * (a + q) + 1 == i + (q - p);
    assert s[a + p] == ss[2 * (a + p) + 1];
    assert s[a + q] == ss[2 * (a + q) + 1];
  }

  /** The part of the string inside a maximal palindrome is a palindrome. */
  lemma RadiusIsPalindrome(s: string, i: nat, k: nat)
    requires i < 2 * |s| + 1 && k > 0 && Maximal(Interleave(s), i, k)
    ensures var a := (i + 1 - k) / 2; 0 <= a <= a + k - 1 <= |s| && IsPalindrome(s[a..a + k - 1])
  {
    MaximalIsEven(s, i, k);
    var a := (i + 1 - k) / 2;
    var t := s[a..a + k - 1];
    forall p | 0 <= p < |t|
      ensures t[p] == t[|t| - 1 - p]
    {
      LettersMirrored(s, i, k, a, p);
    }
  }

  // ---------------------------------------------------------------------------------------------
  // longestPalindrome2
  // ---------------------------------------------------------------------------------------------

  method BuildInterleaved(s: string) returns (ss: string)
    ensures ss == Interleave(s)
  {
    ss := "";
    var ssSize := |s| * 2 + 1;
    for i := 0 to ssSize
      invariant ss == Interleave(s)[..i]
    {
      ss := ss + [if i % 2 == 0 then '#' else s[i / 2]];
    }
  }

  /** What is known when centres below i are done; `mx` is the right end of the palindrome around `pos`. */
  ghost predicate Scanned(ss: string, r: seq<int>, i: int, mx: int, pos: int, maxPos: int, maxVal: int) {
    && 0 <= i <= |ss| == |r| && 0 <= pos && (if i == 0 then mx == 0 && maxVal == 0 else pos < i && mx == pos + r[pos])
    && 0 <= maxPos && (i > 0 ==> maxPos < i && maxVal == r[maxPos])
    && mx <= |ss|
    && forall c | 0 <= c < i :: 0 < r[c] <= maxVal && Maximal(ss, c, r[c]) && c + r[c] <= mx
  }

  /** The radius taken over from the mirror image; either it cannot grow or it reaches `mx`. */
  lemma FirstRadius(ss: string, r: seq<int>, i: int, mx: int, pos: int, maxPos: int, maxVal: int)
    requires Scanned(ss, r, i, mx, pos, maxPos, maxVal) && i < mx
    ensures 0 <= 2 * pos - i < i
    ensures var k := Min(r[2 * pos - i], mx - i);
      k > 0 && Radius(ss, i, k) && (k < mx - i ==> !Mirrored(ss, i, k))
  {
    var radius := r[pos];
    assert Maximal(ss, pos, radius);
    InsideRadius(ss, pos, radius, i);
    var image := 2 * pos - i;
    assert Maximal(ss, image, r[image]);
    var k := Min(r[image], mx - i);
    MirrorRadius(ss, pos, radius, i, k);
    if k < mx - i {
      MirrorImage(ss, pos, radius, i, k);
    }
  }

  function Min(a: int, b: int): int {
    if b < a then b else a
  }

  lemma MaximalIsLargest(ss: string, i: int, k: int, j: int)
    requires Maximal(ss, i, k) && Radius(ss, i, j) && k >= 0
    ensures j <= k
  {
  }

  /** One more centre: `after` is the table with the maximal radius of centre i. */
  lemma ScannedNext(ss: string, r: seq<int>, after: seq<int>, i: int, mx: int, pos: int, maxPos: int, maxVal: int)
    requires Scanned(ss, r, i, mx, pos, maxPos, maxVal) && i < |ss| && |after| == |r|
    requires after == r[i := after[i]] && after[i] > 0 && Maximal(ss, i, after[i]) && i + after[i] <= |ss|
    ensures var grown, better := i + after[i] > mx, after[i] > maxVal;
      Scanned(ss, after, i + 1, if grown then i + after[i] else mx, if grown then i else pos,
              if better then i else maxPos, if better then after[i] else maxVal)
  {
    forall c | 0 <= c < i
      ensures 0 < after[c] <= maxVal && Maximal(ss, c, after[c]) && c + after[c] <= mx
    {
      assert after[c] == r[c];
    }
  }

  /** The best of the maximal radii gives the longest palindrome. */
  lemma BestRadiusIsLongest(s: string, r: seq<int>, mx: int, pos: int, maxPos: int, maxVal: int)
    requires Scanned(Interleave(s), r, 2 * |s| + 1, mx, pos, maxPos, maxVal)
    ensures var a := (maxPos + 1 - maxVal) / 2;
      0 <= a <= a + maxVal - 1 <= |s| && IsLongest(s, s[a..a + maxVal - 1])
  {
    var ss := Interleave(s);
    RadiusIsPalindrome(s, maxPos, maxVal);
    forall a, e | 0 <= a <= e <= |s| && IsPalindrome(s[a..e])
      ensures e - a <= maxVal - 1
    {
      PalindromeHasRadius(s, a, e);
      MaximalIsLargest(ss, a + e, r[a + e], e - a + 1);
    }
    var a := (maxPos + 1 - maxVal) / 2;
    assert IsSubstring(s[a..a + maxVal - 1], s);
  }

  /** The inner loop: extends the radius at i as far as it goes. */
  method Expand(ss: string, r: array<int>, i: nat) returns (ghost expansions: nat)
    requires i < |ss| == r.Length && r[i] > 0 && Radius(ss, i, r[i])
    modifies r
    ensures r[..] == old(r[..])[i := r[i]] && r[i] > 0 && Maximal(ss, i, r[i]) && i + r[i] <= |ss|
    ensures expansions == r[i] - old(r[i])
    ensures !old(Mirrored(ss, i, r[i])) ==> expansions == 0
  {
    expansions := 0;
    assert Mirrored(ss, i, r[i] - 1);
    while i - r[i] >= 0 && i + r[i] < |ss|
      invariant 0 < r[i] && i + r[i] <= |ss| && r[..] == old(r[..])[i := r[i]]
      invariant Radius(ss, i, r[i]) && expansions == r[i] - old(r[i])
      invariant expansions == 0 || old(Mirrored(ss, i, r[i]))
      decreases |ss| - r[i]
    {
      if ss[i - r[i]] == ss[i + r[i]] {
        assert Mirrored(ss, i, r[i]);
        r[i] := r[i] + 1;
        expansions := expansions + 1;
      } else {
        break;
      }
    }
  }

  /** Every string, '#' or not, and a linear number of successful comparisons. */
  method LongestPalindrome2(s: string) returns (longest: string, ghost expansions: nat)
    ensures IsLongest(s, longest)
    ensures expansions <= 2 * |s| + 1
  {
    hide Scanned, Radius, Maximal, Mirrored, IsLongest;
    var ss := BuildInterleaved(s);
    var ssSize := |s| * 2 + 1;
    var mx, pos := 0, 0;
    var r := new int[ssSize](_ => 0);
    var maxPos, maxVal := 0, 0;
    expansions := 0;
    NothingScanned(ss, r[..]);
    for i := 0 to ssSize
      invariant Scanned(ss, r[..], i, mx, pos, maxPos, maxVal)
      invariant expansions <= mx
    {
      ghost var before := r[..];
      ScannedBounds(ss, before, i, mx, pos, maxPos, maxVal);
      if mx > i {
        FirstRadius(ss, before, i, mx, pos, maxPos, maxVal);
        r[i] := Min(r[2 * pos - i], mx - i);
      } else {
        r[i] := 1;
      }
      ghost var grown := Expand(ss, r, i);
      expansions := expansions + grown;
      assert r[..] == before[i := r[i]];
      ScannedNext(ss, before, r[..], i, mx, pos, maxPos, maxVal);
      if i + r[i] > mx {
        mx := i + r[i];
        pos := i;
      }
      if r[i] > maxVal {
        maxVal := r[i];
        maxPos := i;
      }
    }
    ScannedBounds(ss, r[..], ssSize, mx, pos, maxPos, maxVal);
    BestRadiusIsLongest(s, r[..], mx, pos, maxPos, maxVal);
    longest := s[(maxPos + 1 - maxVal) / 2..(maxPos + 1 - maxVal) / 2 + maxVal - 1];
  }

  lemma NothingScanned(ss: string, r: seq<int>)
    requires |ss| == |r| > 0
    ensures Scanned(ss, r, 0, 0, 0, 0, 0)
  {
  }

  lemma ScannedBounds(ss: string, r: seq<int>, i: int, mx: int, pos: int, maxPos: int, maxVal: int)
    requires Scanned(ss, r, i, mx, pos, maxPos, maxVal)
    ensures mx <= |ss| && (i < |ss| ==> Radius(ss, i, 1))
  {
  }

  // ---------------------------------------------------------------------------------------------
  // longestPalindrome1
  // ---------------------------------------------------------------------------------------------

  predicate Matches(s: string, front: int, behind: int, j: int) {
    0 <= front - j < |s| && 0 <= behind + j < |s| && s[front - j] == s[behind + j]
  }

  /** Compares outwards from the two positions; `front` and `behind` end at the first failure. */
  method CompareLR(s: string, front: int, behind: int) returns (newFront: int, newBehind: int, size: nat)
    requires -1 <= front < behind <= |s|
    ensures newFront == front - size && newBehind == behind + size
    ensures (forall j | 0 <= j < size :: Matches(s, front, behind, j)) && !Matches(s, front, behind, size)
    ensures newFront >= -1 && newBehind <= |s|
  {
    newFront, newBehind, size := front, behind, 0;
    while newFront >= 0 && newBehind < |s|
      invariant newFront == front - size >= -1 && newBehind == behind + size <= |s|
      invariant forall j | 0 <= j < size :: Matches(s, front, behind, j)
    {
      if s[newFront] == s[newBehind] {
        size := size + 1;
      } else {
        return;
      }
      newFront, newBehind := newFront - 1, newBehind + 1;
    }
  }

  lemma MatchesIsPalindrome(s: string, front: int, behind: int, size: nat)
    requires -1 <= front < behind <= |s| && behind - front <= 2 && front - size >= -1 && behind + size <= |s|
    requires forall j | 0 <= j < size :: Matches(s, front, behind, j)
    ensures IsPalindrome(s[front - size + 1..behind + size])
  {
    var t := s[front - size + 1..behind + size];
    forall k | 0 <= k < |t|
      ensures t[k] == t[|t| - 1 - k]
    {
      var j := if k < size then size - 1 - k else if k >= |t| - size then k - (|t| - size) else -1;
      if j >= 0 {
        assert Matches(s, front, behind, j);
      } else {
        assert k == |t| - 1 - k;
      }
    }
  }

  /** A palindrome with middle (front + behind) / 2 is no longer than what was matched around it. */
  lemma PalindromeMatches(s: string, front: int, behind: int, size: nat, a: int, e: int)
    requires 0 <= a <= e <= |s| && IsPalindrome(s[a..e]) && a + e == front + behind + 1
    requires 1 <= behind - front <= 2 && !Matches(s, front, behind, size)
    ensures e - a <= behind - front - 1 + 2 * size
  {
    if e - a > behind - front - 1 + 2 * size {
      PalindromeMirrors(s, a, e, front - size - a);
    }
  }

  lemma PalindromeMirrors(s: string, a: int, e: int, k: int)
    requires 0 <= a <= e <= |s| && IsPalindrome(s[a..e]) && 0 <= k < e - a
    ensures s[a + k] == s[e - 1 - k]
  {
    var t := s[a..e];
    assert t[k] == t[|t| - 1 - k];
  }

  /** The best palindrome so far: nothing with its middle between position 1 and i is longer. */
  ghost predicate BestBelow(s: string, sum: int, startPos: int, maxSize: int) {
    && 0 <= startPos <= startPos + maxSize <= |s| && IsPalindrome(s[startPos..startPos + maxSize])
    && forall a, e | 0 <= a <= e <= |s| && IsPalindrome(s[a..e]) && 2 <= a + e < sum :: e - a <= maxSize
  }

  /** One round of the naive search: the palindromes with a + e equal to front + behind + 1. */
  lemma BestNext(s: string, sum: int, startPos: int, maxSize: int, front: int, behind: int, size: nat)
    requires BestBelow(s, sum, startPos, maxSize) && sum == front + behind + 1
    requires 0 <= front < behind <= |s| && behind - front <= 2 && front - size >= -1 && behind + size <= |s|
    requires (forall j | 0 <= j < size :: Matches(s, front, behind, j)) && !Matches(s, front, behind, size)
    ensures var n := behind - front - 1 + 2 * size;
      if n >= maxSize then BestBelow(s, sum + 1, front - size + 1, n) else BestBelow(s, sum + 1, startPos, maxSize)
  {
    MatchesIsPalindrome(s, front, behind, size);
    var n := behind - front - 1 + 2 * size;
    assert front - size + 1 + n == behind + size;
    forall a, e | 0 <= a <= e <= |s| && IsPalindrome(s[a..e]) && 2 <= a + e < sum + 1
      ensures e - a <= if n >= maxSize then n else maxSize
    {
      if a + e == sum {
        PalindromeMatches(s, front, behind, size, a, e);
      }
    }
  }

  /** The naive search misses only the single character of a string of length 1. */
  method LongestPalindrome1(s: string) returns (longest: string)
    ensures IsLongest(s, longest) <==> |s| != 1
    ensures |s| == 1 ==> longest == ""
  {
    hide BestBelow, IsLongest, Matches, IsPalindrome;
    var startPos, maxSize := 0, 0;
    NothingBelow(s);
    var i := 1;
    while i < |s|
      invariant 1 <= i && (i <= |s| || |s| == 0)
      invariant BestBelow(s, 2 * i, startPos, maxSize)
      invariant if i == 1 then startPos == maxSize == 0 else maxSize > 0
    {
      var f, b, tmpSize := CompareLR(s, i - 1, i);
      BestNext(s, 2 * i, startPos, maxSize, i - 1, i, tmpSize);
      if tmpSize * 2 >= maxSize {
        maxSize := tmpSize * 2;
        startPos := f + 1;
      }
      f, b, tmpSize := CompareLR(s, i - 1, i + 1);
      BestNext(s, 2 * i + 1, startPos, maxSize, i - 1, i + 1, tmpSize);
      if tmpSize * 2 + 1 >= maxSize {
        maxSize := tmpSize * 2 + 1;
        startPos := f + 1;
      }
      i := i + 1;
    }
    BestIsLongest(s, 2 * i, startPos, maxSize);
    longest := s[startPos..startPos + maxSize];
  }

  /** So for every other length the two algorithms find palindromes of one length. */
  lemma LongestLength(s: string, t: string, u: string)
    requires IsLongest(s, t) && IsLongest(s, u)
    ensures |t| == |u|
  {
    var a, e :| 0 <= a <= e <= |s| && s[a..e] == t;
    var b, f :| 0 <= b <= f <= |s| && s[b..f] == u;
  }

  lemma BestIsLongest(s: string, sum: int, startPos: int, maxSize: int)
    requires BestBelow(s, sum, startPos, maxSize) && sum >= 2 * |s|
    ensures 0 <= startPos <= startPos + maxSize <= |s|
    ensures IsLongest(s, s[startPos..startPos + maxSize]) <==> |s| == 0 || maxSize > 0
  {
    if |s| > 0 {
      assert IsPalindrome(s[0..1]);
    }
    assert IsSubstring(s[startPos..startPos + maxSize], s);
  }

  lemma NothingBelow(s: string)
    ensures BestBelow(s, 2, 0, 0)
  {
  }
}
