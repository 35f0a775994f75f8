/** Least-significant-digit radix sort (radix_sort.cpp), with unbounded integers. */
module RadixSort {
  import opened Arithmetic

  const MAX_NUMBER := 10

  function Digit(x: int, radix: int): int
    requires radix > 0
  {
    (x / radix) % MAX_NUMBER
  }

  /** The elements that satisfy p, in order. */
  ghost function Filter(s: seq<int>, p: int -> bool): seq<int> {
    if s == [] then [] else Filter(s[..|s| - 1], p) + if p(s[|s| - 1]) then [s[|s| - 1]] else []
  }

  ghost function HasDigit(radix: int, d: int): int -> bool
    requires radix > 0
  {
    x => Digit(x, radix) == d
  }

  ghost function InClass(m: int, c: int): int -> bool
    requires m > 0
  {
    x => x % m == c
  }

  /** The buckets of the digits below k, one after the other. */
  ghost function Buckets(s: seq<int>, radix: int, k: nat): seq<int>
    requires radix > 0
  {
    if k == 0 then [] else Buckets(s, radix, k - 1) + Filter(s, HasDigit(radix, k - 1))
  }

  /** One pass of the sort. */
  ghost function Pass(s: seq<int>, radix: int): seq<int>
    requires radix > 0
  {
    Buckets(s, radix, MAX_NUMBER)
  }

  ghost predicate OrderedMod(s: seq<int>, m: int)
    requires m > 0
  {
    forall i, j | 0 <= i < j < |s| :: s[i] % m <= s[j] % m
  }

  /**
   r is s in the order of the remainders mod m, and elements with equal remainders stand in their old
   order: for every remainder r and s have the same elements in the same order.
   */
  ghost predicate IsStableSort(s: seq<int>, r: seq<int>, m: int)
    requires m > 0
  {
    OrderedMod(r, m) && forall c | 0 <= c < m :: Filter(r, InClass(m, c)) == Filter(s, InClass(m, c))
  }

  function Power10(n: nat): (p: int)
    ensures p > 0
  {
    if n == 0 then 1 else MAX_NUMBER * Power10(n - 1)
  }

  // ---------------------------------------------------------------------------------------------
  // Filters
  // ---------------------------------------------------------------------------------------------

  lemma {:induction false} FilterConcat(a: seq<int>, b: seq<int>, p: int -> bool)
    ensures Filter(a + b, p) == Filter(a, p) + Filter(b, p)
  {
    if b == [] {
      assert a + b == a;
    } else {
      var last := |b| - 1;
      FilterConcat(a, b[..last], p);
      assert (a + b)[..|a + b| - 1] == a + b[..last];
    }
  }

  lemma {:induction false} FilterBoth(s: seq<int>, p: int -> bool, q: int -> bool, both: int -> bool)
    requires forall x <- s :: both(x) == (p(x) && q(x))
    ensures Filter(Filter(s, p), q) == Filter(s, both)
  {
    if s != [] {
      var first, x := s[..|s| - 1], s[|s| - 1];
      FilterBoth(first, p, q, both);
      FilterConcat(Filter(first, p), if p(x) then [x] else [], q);
      assert Filter([x], q) == if q(x) then [x] else [] by {
        assert [x][..0] == [];
      }
      assert Filter(first, p) + [] == Filter(first, p);
    }
  }

  lemma {:induction false} FilterNothing(s: seq<int>, p: int -> bool)
    requires forall x <- s :: !p(x)
    ensures Filter(s, p) == []
  {
    if s != [] {
      var first, x := s[..|s| - 1], s[|s| - 1];
      assert x in s && !p(x);
      FilterNothing(first, p);
      assert Filter(s, p) == Filter(first, p) + [];
    }
  }

  lemma {:induction false} FilterMembers(s: seq<int>, p: int -> bool)
    ensures forall x :: x in Filter(s, p) <==> x in s && p(x)
  {
    if s != [] {
      FilterMembers(s[..|s| - 1], p);
      assert s == s[..|s| - 1] + [s[|s| - 1]];
    }
  }

  lemma {:induction false} FilterOrdered(s: seq<int>, p: int -> bool, m: int)
    requires m > 0 && OrderedMod(s, m)
    ensures OrderedMod(Filter(s, p), m)
  {
    if s != [] {
      var first, x := s[..|s| - 1], s[|s| - 1];
      FilterOrdered(first, p, m);
      FilterMembers(first, p);
      var kept := Filter(first, p);
      forall i | 0 <= i < |kept|
        ensures kept[i] % m <= x % m
      {
        assert kept[i] in kept;
        assert kept[i] in first;
        var k :| 0 <= k < |first| && first[k] == kept[i];
        assert s[k] == kept[i];
      }
    }
  }

  // ---------------------------------------------------------------------------------------------
  // Digits
  // ---------------------------------------------------------------------------------------------

  lemma Regroup(p: int, d: int, radix: int)
    ensures (p * MAX_NUMBER + d) * radix == p * (MAX_NUMBER * radix) + d * radix
  {
  }

  lemma DigitFits(d: int, radix: int, r: int)
    requires 0 <= d < MAX_NUMBER && 0 <= r < radix
    ensures 0 <= d * radix + r < MAX_NUMBER * radix
  {
    MulAtLeast(d, radix);
    MulAtLeast(MAX_NUMBER - 1 - d, radix);
    Regroup(0, d, radix);
    assert (MAX_NUMBER - 1 - d) * radix == (MAX_NUMBER - 1) * radix - d * radix;
  }

  /** The remainder with one digit more. */
  lemma NextDigit(x: int, radix: int)
    requires radix > 0
    ensures x % (MAX_NUMBER * radix) == Digit(x, radix) * radix + x % radix
    ensures 0 <= Digit(x, radix) < MAX_NUMBER
  {
    var q, r, d := x / radix, x % radix, Digit(x, radix);
    var p := q / MAX_NUMBER;
    assert x == q * radix + r && q == p * MAX_NUMBER + d;
    Regroup(p, d, radix);
    DigitFits(d, radix, r);
    DivModUnique(x, MAX_NUMBER * radix, p, d * radix + r);
  }

  /** A class with one digit more is a digit inside a class. */
  lemma ClassSplits(x: int, radix: int, c: int)
    requires radix > 0 && 0 <= c < MAX_NUMBER * radix
    ensures x % (MAX_NUMBER * radix) == c <==> Digit(x, radix) == c / radix && x % radix == c % radix
  {
    NextDigit(x, radix);
    assert c == (c / radix) * radix + c % radix;
    if x % (MAX_NUMBER * radix) == c {
      DivModUnique(c, radix, Digit(x, radix), x % radix);
    }
  }

  // ---------------------------------------------------------------------------------------------
  // A pass is one more digit
  // ---------------------------------------------------------------------------------------------

  lemma BucketOrdered(s: seq<int>, radix: int, d: nat)
    requires radix > 0 && OrderedMod(s, radix)
    ensures var b := Filter(s, HasDigit(radix, d));
      OrderedMod(b, MAX_NUMBER * radix) && forall x <- b :: x in s && Digit(x, radix) == d
  {
    var p := HasDigit(radix, d);
    var b := Filter(s, p);
    FilterOrdered(s, p, radix);
    FilterMembers(s, p);
    forall i, j | 0 <= i < j < |b|
      ensures b[i] % (MAX_NUMBER * radix) <= b[j] % (MAX_NUMBER * radix)
    {
      assert b[i] in b && b[j] in b;
      NextDigit(b[i], radix);
      NextDigit(b[j], radix);
    }
  }

  /** The buckets below k, from an order by one digit less: ordered, and below k times the radix. */
  lemma {:induction false} BucketsOrdered(s: seq<int>, radix: int, k: nat)
    requires radix > 0 && OrderedMod(s, radix) && k <= MAX_NUMBER
    ensures OrderedMod(Buckets(s, radix, k), MAX_NUMBER * radix)
    ensures forall x <- Buckets(s, radix, k) :: x in s && Digit(x, radix) < k
  {
    if k > 0 {
      BucketsOrdered(s, radix, k - 1);
      var p := HasDigit(radix, k - 1);
      var a, b := Buckets(s, radix, k - 1), Filter(s, p);
      BucketOrdered(s, radix, k - 1);
      forall i, j | 0 <= i < |a| && 0 <= j < |b|
        ensures a[i] % (MAX_NUMBER * radix) <= b[j] % (MAX_NUMBER * radix)
      {
        assert a[i] in a && b[j] in b;
        SmallerDigit(a[i], b[j], radix);
      }
      OrderedConcat(a, b, MAX_NUMBER * radix);
    }
  }

  lemma OrderedConcat(a: seq<int>, b: seq<int>, m: int)
    requires m > 0 && OrderedMod(a, m) && OrderedMod(b, m)
    requires forall i, j | 0 <= i < |a| && 0 <= j < |b| :: a[i] % m <= b[j] % m
    ensures OrderedMod(a + b, m)
  {
  }

  lemma SmallerDigit(x: int, y: int, radix: int)
    requires radix > 0 && Digit(x, radix) < Digit(y, radix)
    ensures x % (MAX_NUMBER * radix) <= y % (MAX_NUMBER * radix)
  {
    NextDigit(x, radix);
    NextDigit(y, radix);
    var d, e := Digit(x, radix), Digit(y, radix);
    MulAtLeast(e - d, radix);
    assert (e - d) * radix == e * radix - d * radix;
  }

  /** A class of remainders with one digit more is found in one bucket, as it stood before the pass. */
  lemma {:induction false} BucketsClass(s: seq<int>, radix: int, k: nat, c: int)
    requires radix > 0 && k <= MAX_NUMBER && 0 <= c < MAX_NUMBER * radix
    ensures Filter(Buckets(s, radix, k), InClass(MAX_NUMBER * radix, c))
         == if c / radix < k then Filter(s, InClass(MAX_NUMBER * radix, c)) else []
  {
    hide Filter, Digit;
    var q := InClass(MAX_NUMBER * radix, c);
    FilterNothing([], q);
    if k > 0 {
      var p := HasDigit(radix, k - 1);
      var a, b := Buckets(s, radix, k - 1), Filter(s, p);
      BucketsClass(s, radix, k - 1, c);
      FilterConcat(a, b, q);
      forall x: int {
        ClassSplits(x, radix, c);
      }
      if c / radix == k - 1 {
        FilterBoth(s, p, q, q);
      } else {
        FilterMembers(s, p);
        FilterNothing(b, q);
        assert Filter(a, q) + [] == Filter(a, q);
      }
    }
  }

  lemma ClassBounds(c: int, radix: int)
    requires radix > 0 && 0 <= c < MAX_NUMBER * radix
    ensures 0 <= c / radix < MAX_NUMBER && 0 <= c % radix < radix
  {
    var q := c / radix;
    assert c == q * radix + c % radix;
    MulAtLeast(q - MAX_NUMBER, radix);
    MulAtLeast(q, radix);
    assert (q - MAX_NUMBER) * radix == q * radix - MAX_NUMBER * radix;
  }

  /** A pass over a stable sort by some digits is a stable sort by one digit more. */
  lemma PassSortsOneMore(s: seq<int>, r: seq<int>, radix: int)
    requires radix > 0 && IsStableSort(s, r, radix)
    ensures IsStableSort(s, Pass(r, radix), MAX_NUMBER * radix)
  {
    BucketsOrdered(r, radix, MAX_NUMBER);
    forall c | 0 <= c < MAX_NUMBER * radix
      ensures Filter(Pass(r, radix), InClass(MAX_NUMBER * radix, c)) == Filter(s, InClass(MAX_NUMBER * radix, c))
    {
      ClassBounds(c, radix);
      BucketsClass(r, radix, MAX_NUMBER, c);
      FinerClass(s, r, radix, c);
    }
  }

  lemma ClassWithin(radix: int, c: int)
    requires radix > 0 && 0 <= c < MAX_NUMBER * radix
    ensures forall x :: InClass(MAX_NUMBER * radix, c)(x) ==> InClass(radix, c % radix)(x)
  {
    forall x | InClass(MAX_NUMBER * radix, c)(x)
      ensures InClass(radix, c % radix)(x)
    {
      ClassSplits(x, radix, c);
    }
  }

  lemma FinerClass(s: seq<int>, r: seq<int>, radix: int, c: int)
    requires radix > 0 && 0 <= c < MAX_NUMBER * radix && IsStableSort(s, r, radix)
    ensures Filter(r, InClass(MAX_NUMBER * radix, c)) == Filter(s, InClass(MAX_NUMBER * radix, c))
  {
    hide OrderedMod, Filter;
    var q, p := InClass(MAX_NUMBER * radix, c), InClass(radix, c % radix);
    ClassBounds(c, radix);
    ClassWithin(radix, c);
    hide InClass;
    FilterBoth(r, p, q, q);
    FilterBoth(s, p, q, q);
  }

  lemma OneIsStable(s: seq<int>, m: int)
    requires m > 0 && |s| < 2
    ensures IsStableSort(s, s, m)
  {
  }

  lemma UnsortedIsStable(s: seq<int>)
    ensures IsStableSort(s, s, 1)
  {
  }

  // ---------------------------------------------------------------------------------------------
  // The program
  // ---------------------------------------------------------------------------------------------

  /**
   Places in s from left to right whose numbers have at least 2, 3, 4, ... digits: the longest such chain is
   all that `MaxBit` can see, for it counts at most one digit more at each number.
   */
  ghost predicate IsChain(s: seq<int>, at: seq<nat>) {
    && (forall k | 0 <= k < |at| :: at[k] < |s| && s[at[k]] >= Power10(k + 1))
    && (forall k, l | 0 <= k < l < |at| :: at[k] < at[l])
  }

  ghost predicate HasChain(s: seq<int>, length: nat) {
    exists at :: |at| == length && IsChain(s, at)
  }

  /** The length of the longest chain, counted from the left. */
  function LongestChain(s: seq<int>): nat {
    if s == [] then 0
    else
      var length := LongestChain(s[..|s| - 1]);
      if s[|s| - 1] >= Power10(length + 1) then length + 1 else length
  }

  /** Taking each chance as it comes misses nothing. */
  lemma {:induction false} LongestChainIsLongest(s: seq<int>, length: nat)
    ensures HasChain(s, length) <==> length <= LongestChain(s)
  {
    if length <= LongestChain(s) {
      var at := GreedyChain(s);
      assert IsChain(s, at[..length]);
    }
    if HasChain(s, length) {
      var at :| |at| == length && IsChain(s, at);
      NoLongerChain(s, at);
    }
  }

  lemma {:induction false} GreedyChain(s: seq<int>) returns (at: seq<nat>)
    ensures IsChain(s, at) && |at| == LongestChain(s)
  {
    at := [];
    if s != [] {
      at := GreedyChain(s[..|s| - 1]);
      if s[|s| - 1] >= Power10(|at| + 1) {
        at := at + [|s| - 1];
      }
    }
  }

  lemma {:induction false} NoLongerChain(s: seq<int>, at: seq<nat>)
    requires IsChain(s, at)
    ensures |at| <= LongestChain(s)
  {
    if at != [] {
      var last := |at| - 1;
      assert at[last] < |s|;
      var first := s[..|s| - 1];
      if at[last] == |s| - 1 {
        NoLongerChain(first, at[..last]);
      } else {
        NoLongerChain(first, at);
      }
    }
  }

  /** The result is one more than the longest chain, and nothing else satisfies this. */
  method MaxBit(nums: array<int>) returns (bits: nat)
    ensures bits >= 1 && forall length: nat :: HasChain(nums[..], length) <==> length < bits
    ensures bits == LongestChain(nums[..]) + 1
  {
    bits := 1;
    var standard := 10;
    for i := 0 to nums.Length
      invariant bits == LongestChain(nums[..i]) + 1 && standard == Power10(bits)
    {
      assert nums[..i + 1][..i] == nums[..i];
      if nums[i] >= standard {
        bits := bits + 1;
        standard := standard * 10;
      }
    }
    assert nums[..] == nums[..nums.Length];
    forall length: nat
      ensures HasChain(nums[..], length) <==> length < bits
    {
      LongestChainIsLongest(nums[..], length);
    }
  }

  /** Where the bucket of digit d begins. */
  ghost function Begin(s: seq<int>, radix: int, d: nat): nat
    requires radix > 0
  {
    |Buckets(s, radix, d)|
  }

  ghost function Size(s: seq<int>, radix: int, d: nat): nat
    requires radix > 0
  {
    |Filter(s, HasDigit(radix, d))|
  }

  lemma FilterSnoc(s: seq<int>, i: nat, p: int -> bool)
    requires i < |s|
    ensures Filter(s[..i + 1], p) == Filter(s[..i], p) + if p(s[i]) then [s[i]] else []
  {
    assert s[..i + 1][..i] == s[..i];
  }

  /** How many numbers have each digit. */
  method CountDigits(nums: array<int>, radix: int, counting: array<int>)
    requires radix > 0 && counting.Length == MAX_NUMBER && counting != nums
    modifies counting
    ensures forall d | 0 <= d < MAX_NUMBER :: counting[d] == Size(nums[..], radix, d)
  {
    forall d | 0 <= d < MAX_NUMBER {
      counting[d] := 0;
    }
    for i := 0 to nums.Length
      invariant forall d | 0 <= d < MAX_NUMBER :: counting[d] == Size(nums[..i], radix, d)
    {
      var digit := Digit(nums[i], radix);
      forall d | 0 <= d < MAX_NUMBER
        ensures Size(nums[..i + 1], radix, d) == Size(nums[..i], radix, d) + if d == digit then 1 else 0
      {
        FilterSnoc(nums[..], i, HasDigit(radix, d));
        assert nums[..][..i] == nums[..i] && nums[..][..i + 1] == nums[..i + 1];
      }
      counting[digit] := counting[digit] + 1;
    }
    assert nums[..] == nums[..nums.Length];
  }

  /** Running sums: where each bucket ends. */
  method SumCounts(counting: array<int>, ghost s: seq<int>, ghost radix: int)
    requires radix > 0 && counting.Length == MAX_NUMBER
    requires forall d | 0 <= d < MAX_NUMBER :: counting[d] == Size(s, radix, d)
    modifies counting
    ensures forall d | 0 <= d < MAX_NUMBER :: counting[d] == Begin(s, radix, d + 1)
  {
    assert Buckets(s, radix, 1) == Buckets(s, radix, 0) + Filter(s, HasDigit(radix, 0)) == Filter(s, HasDigit(radix, 0));
    for j := 1 to MAX_NUMBER
      invariant forall d | 0 <= d < j :: counting[d] == Begin(s, radix, d + 1)
      invariant forall d | j <= d < MAX_NUMBER :: counting[d] == Size(s, radix, d)
    {
      counting[j] := counting[j] + counting[j - 1];
    }
  }

  /** The places of the bucket of digit d, from `from` on, are filled as the pass says. */
  ghost predicate Filled(tmp: seq<int>, s: seq<int>, radix: int, d: nat, from: int)
    requires radix > 0
  {
    var b, start := Filter(s, HasDigit(radix, d)), Begin(s, radix, d);
    0 <= from <= |b| && start + |b| <= |tmp| && forall k | from <= k < |b| :: tmp[start + k] == b[k]
  }

  lemma {:induction false} BucketsFit(s: seq<int>, radix: int, d: nat, e: nat)
    requires radix > 0 && d <= e
    ensures Begin(s, radix, d) <= Begin(s, radix, e)
    ensures Buckets(s, radix, d) <= Buckets(s, radix, e)
    decreases e
  {
    if d < e {
      BucketsFit(s, radix, d, e - 1);
    }
  }

  /** Every number goes to one bucket. */
  lemma {:induction false} PassLength(s: seq<int>, radix: int)
    requires radix > 0
    ensures |Pass(s, radix)| == |s|
  {
    if s == [] {
      EmptyBuckets(radix, MAX_NUMBER);
    } else {
      var first, x := s[..|s| - 1], s[|s| - 1];
      PassLength(first, radix);
      DigitRange(x, radix);
      BucketsSnoc(first, x, radix, MAX_NUMBER);
      assert s == first + [x];
    }
  }

  lemma {:induction false} EmptyBuckets(radix: int, k: nat)
    requires radix > 0
    ensures Buckets([], radix, k) == []
  {
    if k > 0 {
      EmptyBuckets(radix, k - 1);
    }
  }

  lemma DigitRange(x: int, radix: int)
    requires radix > 0
    ensures 0 <= Digit(x, radix) < MAX_NUMBER
  {
  }

  lemma {:induction false} BucketsSnoc(s: seq<int>, x: int, radix: int, k: nat)
    requires radix > 0
    ensures |Buckets(s + [x], radix, k)| == |Buckets(s, radix, k)| + if 0 <= Digit(x, radix) < k then 1 else 0
  {
    if k > 0 {
      BucketsSnoc(s, x, radix, k - 1);
      FilterConcat(s, [x], HasDigit(radix, k - 1));
      assert Filter([x], HasDigit(radix, k - 1)) == if Digit(x, radix) == k - 1 then [x] else [] by {
        assert [x][..0] == [];
      }
    }
  }

  /** When every bucket is filled the whole vector is. */
  lemma {:induction false} AllFilled(tmp: seq<int>, s: seq<int>, radix: int, k: nat)
    requires radix > 0 && k <= MAX_NUMBER && forall d: nat | d < k :: Filled(tmp, s, radix, d, 0)
    ensures Begin(s, radix, k) <= |tmp| || k == 0
    ensures Begin(s, radix, k) <= |tmp| ==> tmp[..Begin(s, radix, k)] == Buckets(s, radix, k)
  {
    if k > 0 {
      AllFilled(tmp, s, radix, k - 1);
      assert Filled(tmp, s, radix, k - 1, 0);
      var start, b := Begin(s, radix, k - 1), Filter(s, HasDigit(radix, k - 1));
      assert tmp[..start + |b|] == tmp[..start] + tmp[start..start + |b|];
    }
  }

  /** How many of the first j numbers have digit d. */
  ghost function Seen(s: seq<int>, radix: int, d: nat, j: nat): nat
    requires radix > 0 && j <= |s|
  {
    |Filter(s[..j], HasDigit(radix, d))|
  }

  /** The j-th number is the element of its bucket after those seen before. */
  lemma SeenNext(s: seq<int>, radix: int, d: nat, j: nat)
    requires radix > 0 && j < |s|
    ensures var b, has := Filter(s, HasDigit(radix, d)), Digit(s[j], radix) == d;
      && Seen(s, radix, d, j + 1) == Seen(s, radix, d, j) + (if has then 1 else 0)
      && Seen(s, radix, d, j + 1) <= |b| && (has ==> b[Seen(s, radix, d, j)] == s[j])
  {
    hide Filter, Digit;
    var p := HasDigit(radix, d);
    FilterSnoc(s, j, p);
    FilterConcat(s[..j + 1], s[j + 1..], p);
    assert s == s[..j + 1] + s[j + 1..];
  }

  lemma FilledElsewhere(tmp: seq<int>, q: nat, x: int, s: seq<int>, radix: int, d: nat, from: int)
    requires radix > 0 && q < |tmp| && Filled(tmp, s, radix, d, from)
    requires q < Begin(s, radix, d) || q >= Begin(s, radix, d + 1)
    ensures Filled(tmp[q := x], s, radix, d, from)
  {
  }

  lemma FilledHere(tmp: seq<int>, q: nat, s: seq<int>, radix: int, d: nat, j: nat)
    requires radix > 0 && j < |s| && d == Digit(s[j], radix) && Filled(tmp, s, radix, d, Seen(s, radix, d, j + 1))
    requires q == Begin(s, radix, d) + Seen(s, radix, d, j) && q < |tmp|
    ensures Filled(tmp[q := s[j]], s, radix, d, Seen(s, radix, d, j))
  {
    hide Begin, Seen, Filter, Digit;
    SeenNext(s, radix, d, j);
  }

  /** Writing the j-th number into its place: the other buckets are not touched. */
  lemma PlaceOne(tmp: seq<int>, q: nat, s: seq<int>, radix: int, d: nat, digit: nat, j: nat)
    requires radix > 0 && j < |s| && digit == Digit(s[j], radix) && Filled(tmp, s, radix, d, Seen(s, radix, d, j + 1))
    requires q == Begin(s, radix, digit) + Seen(s, radix, digit, j) && q < |tmp|
    ensures Filled(tmp[q := s[j]], s, radix, d, Seen(s, radix, d, j))
  {
    hide Begin, Filled, Seen, Filter, Digit;
    SeenNext(s, radix, d, j);
    if d == digit {
      FilledHere(tmp, q, s, radix, d, j);
    } else if d < digit {
      BucketsFit(s, radix, d + 1, digit);
      FilledElsewhere(tmp, q, s[j], s, radix, d, Seen(s, radix, d, j));
    } else {
      BucketsFit(s, radix, digit + 1, d);
      InsideBucket(s, radix, digit, j);
      FilledElsewhere(tmp, q, s[j], s, radix, d, Seen(s, radix, d, j));
    }
  }

  lemma InsideBucket(s: seq<int>, radix: int, digit: nat, j: nat)
    requires radix > 0 && j < |s| && digit == Digit(s[j], radix)
    ensures Begin(s, radix, digit) + Seen(s, radix, digit, j) < Begin(s, radix, digit + 1)
  {
    SeenNext(s, radix, digit, j);
  }

  /** The numbers from position j on are in their places; the counters say where the next ones go. */
  ghost predicate PlacedFrom(tmp: seq<int>, counting: seq<int>, s: seq<int>, radix: int, j: nat)
    requires radix > 0 && j <= |s| && |counting| == MAX_NUMBER
  {
    forall d: nat | d < MAX_NUMBER ::
      counting[d] == Begin(s, radix, d) + Seen(s, radix, d, j) && Filled(tmp, s, radix, d, Seen(s, radix, d, j))
  }

  /** From back to front, so that equal digits keep their order. */
  method Place(nums: array<int>, tmp: array<int>, counting: array<int>, radix: int)
    requires radix > 0 && counting.Length == MAX_NUMBER && tmp.Length == nums.Length
    requires nums != tmp && nums != counting && tmp != counting
    requires forall d | 0 <= d < MAX_NUMBER :: counting[d] == Begin(nums[..], radix, d + 1)
    modifies tmp, counting
    ensures tmp[..] == Pass(nums[..], radix)
  {
    hide Filled, Seen, Begin, PlacedFrom;
    ghost var s := nums[..];
    NothingPlaced(tmp[..], s, radix, counting[..]);
    var j := nums.Length - 1;
    while j >= 0
      invariant -1 <= j < nums.Length && nums[..] == s && PlacedFrom(tmp[..], counting[..], s, radix, j + 1)
    {
      var digit := Digit(nums[j], radix);
      ghost var before, counters := tmp[..], counting[..];
      DigitRange(nums[j], radix);
      NextPlace(before, counters, s, radix, j);
      tmp[counting[digit] - 1] := nums[j];
      counting[digit] := counting[digit] - 1;
      j := j - 1;
    }
    AllPlaced(tmp[..], counting[..], s, radix);
  }

  lemma NextPlace(tmp: seq<int>, counting: seq<int>, s: seq<int>, radix: int, j: nat)
    requires radix > 0 && j < |s| && |counting| == MAX_NUMBER && PlacedFrom(tmp, counting, s, radix, j + 1)
    requires 0 <= Digit(s[j], radix) < MAX_NUMBER
    ensures var digit := Digit(s[j], radix); var q := counting[digit] - 1;
      0 <= q < |tmp| && PlacedFrom(tmp[q := s[j]], counting[digit := q], s, radix, j)
  {
    hide Filled, Seen, Begin;
    var digit: nat := Digit(s[j], radix);
    PlaceInRange(tmp, s, radix, digit, j);
    var q: nat := counting[digit] - 1;
    forall d: nat | d < MAX_NUMBER
      ensures Seen(s, radix, d, j + 1) == Seen(s, radix, d, j) + if d == digit then 1 else 0
      ensures Filled(tmp[q := s[j]], s, radix, d, Seen(s, radix, d, j))
    {
      SeenNext(s, radix, d, j);
      PlaceOne(tmp, q, s, radix, d, digit, j);
    }
  }

  lemma PlaceInRange(tmp: seq<int>, s: seq<int>, radix: int, digit: nat, j: nat)
    requires radix > 0 && j < |s| && digit == Digit(s[j], radix) && Filled(tmp, s, radix, digit, Seen(s, radix, digit, j + 1))
    ensures Begin(s, radix, digit) + Seen(s, radix, digit, j) < |tmp|
    ensures Seen(s, radix, digit, j + 1) == Seen(s, radix, digit, j) + 1
  {
    SeenNext(s, radix, digit, j);
  }

  lemma NothingPlaced(tmp: seq<int>, s: seq<int>, radix: int, counting: seq<int>)
    requires radix > 0 && |tmp| == |s| && |counting| == MAX_NUMBER
    requires forall d | 0 <= d < MAX_NUMBER :: counting[d] == Begin(s, radix, d + 1)
    ensures PlacedFrom(tmp, counting, s, radix, |s|)
  {
    assert s[..|s|] == s;
    PassLength(s, radix);
    forall d: nat | d < MAX_NUMBER
      ensures counting[d] == Begin(s, radix, d) + Seen(s, radix, d, |s|) && Filled(tmp, s, radix, d, Seen(s, radix, d, |s|))
    {
      BucketsFit(s, radix, d + 1, MAX_NUMBER);
    }
  }

  lemma AllPlaced(tmp: seq<int>, counting: seq<int>, s: seq<int>, radix: int)
    requires radix > 0 && |tmp| == |s| && |counting| == MAX_NUMBER && PlacedFrom(tmp, counting, s, radix, 0)
    ensures tmp == Pass(s, radix)
  {
    assert s[..0] == [];
    PassLength(s, radix);
    forall d: nat | d < MAX_NUMBER
      ensures Filled(tmp, s, radix, d, 0)
    {
      assert Filled(tmp, s, radix, d, Seen(s, radix, d, 0));
    }
    AllFilled(tmp, s, radix, MAX_NUMBER);
  }

  /**
   The vector ends up in `sorted`: it swaps its storage with the spare one after each pass. It is a stable
   sort by as many digits as the longest chain gives, whatever the numbers are.
   */
  method RadixSort(input: array<int>) returns (sorted: array<int>)
    requires forall i | 0 <= i < input.Length :: input[i] >= 0
    modifies input
    ensures IsStableSort(old(input[..]), sorted[..], Power10(LongestChain(old(input[..])) + 1))
  {
    hide IsStableSort;
    var nums := input;
    if nums.Length < 2 {
      OneIsStable(nums[..], Power10(LongestChain(nums[..]) + 1));
      return nums;
    }
    ghost var s := nums[..];
    var radix := 1;
    var tmpVec := new int[nums.Length];
    var maxBit := MaxBit(nums);
    var countingArray := new int[MAX_NUMBER];
    UnsortedIsStable(s);
    for i := 0 to maxBit
      invariant radix == Power10(i) && IsStableSort(s, nums[..], radix)
      invariant nums.Length == tmpVec.Length == |s| && nums != tmpVec && nums != countingArray && tmpVec != countingArray
      invariant (nums == input || fresh(nums)) && (tmpVec == input || fresh(tmpVec))
    {
      CountDigits(nums, radix, countingArray);
      SumCounts(countingArray, nums[..], radix);
      Place(nums, tmpVec, countingArray, radix);
      PassSortsOneMore(s, nums[..], radix);
      nums, tmpVec := tmpVec, nums;
      radix := radix * 10;
    }
    return nums;
  }

  // ---------------------------------------------------------------------------------------------
  // When the result is sorted
  // ---------------------------------------------------------------------------------------------

  predicate Sorted(s: seq<int>) {
    forall i, j | 0 <= i < j < |s| :: s[i] <= s[j]
  }

  /**
   Numbers that differ above the power m are already in order by what is below it, or tie in the right order.
   This says nothing about numbers that are all below m.
   */
  ghost predicate LowPartsAgree(s: seq<int>, m: int)
    requires m > 0
  {
    forall i, j | 0 <= i < |s| && 0 <= j < |s| && s[i] / m < s[j] / m ::
      s[i] % m < s[j] % m || (s[i] % m == s[j] % m && i < j)
  }

  /** Numbers in order of their parts. */
  lemma ByParts(x: int, y: int, m: int)
    requires m > 0
    ensures x < y <==> x / m < y / m || (x / m == y / m && x % m < y % m)
  {
    assert x == m * (x / m) + x % m && y == m * (y / m) + y % m;
    MulAtLeast(y / m - x / m, m);
  }

  lemma InFilter(s: seq<int>, p: int -> bool, i: nat, j: nat) returns (a: nat, b: nat)
    requires i < j < |s| && p(s[i]) && p(s[j])
    ensures a < b < |Filter(s, p)| && Filter(s, p)[a] == s[i] && Filter(s, p)[b] == s[j]
  {
    a, b := |Filter(s[..i], p)|, |Filter(s[..j], p)|;
    FilterSnoc(s, i, p);
    FilterSnoc(s, j, p);
    assert s[..j] == s[..i + 1] + s[i + 1..j];
    FilterConcat(s[..i + 1], s[i + 1..j], p);
    assert s == s[..j + 1] + s[j + 1..];
    FilterConcat(s[..j + 1], s[j + 1..], p);
  }

  lemma {:induction false} FromFilter(s: seq<int>, p: int -> bool, a: nat, b: nat) returns (i: nat, j: nat)
    requires a < b < |Filter(s, p)|
    ensures i < j < |s| && s[i] == Filter(s, p)[a] && s[j] == Filter(s, p)[b]
  {
    var first, last := s[..|s| - 1], |s| - 1;
    if b < |Filter(first, p)| {
      i, j := FromFilter(first, p, a, b);
    } else {
      FilterMembers(first, p);
      assert Filter(first, p)[a] in Filter(first, p);
      i :| 0 <= i < |first| && first[i] == Filter(first, p)[a];
      j := last;
    }
  }

  /** Both sequences have the same numbers. */
  lemma SameMembers(s: seq<int>, r: seq<int>, m: int, x: int)
    requires m > 0 && IsStableSort(s, r, m)
    ensures x in s <==> x in r
  {
    FilterMembers(s, InClass(m, x % m));
    FilterMembers(r, InClass(m, x % m));
  }

  /** Two equal remainders in one sequence, in the same order in the other. */
  lemma SameOrder(s: seq<int>, r: seq<int>, m: int, i: nat, j: nat) returns (k: nat, l: nat)
    requires m > 0 && IsStableSort(s, r, m) && i < j < |s| && s[i] % m == s[j] % m
    ensures k < l < |r| && r[k] == s[i] && r[l] == s[j]
  {
    var a, b := InFilter(s, InClass(m, s[i] % m), i, j);
    k, l := FromFilter(r, InClass(m, s[i] % m), a, b);
  }

  lemma SameOrderBack(s: seq<int>, r: seq<int>, m: int, k: nat, l: nat) returns (i: nat, j: nat)
    requires m > 0 && IsStableSort(s, r, m) && k < l < |r| && r[k] % m == r[l] % m
    ensures i < j < |s| && s[i] == r[k] && s[j] == r[l]
  {
    var a, b := InFilter(r, InClass(m, r[k] % m), k, l);
    i, j := FromFilter(s, InClass(m, r[k] % m), a, b);
  }

  lemma SortedIfAgree(s: seq<int>, r: seq<int>, m: int)
    requires m > 0 && IsStableSort(s, r, m) && LowPartsAgree(s, m)
    ensures Sorted(r)
  {
    forall k, l | 0 <= k < l < |r|
      ensures r[k] <= r[l]
    {
      ByParts(r[l], r[k], m);
      if r[k] % m == r[l] % m {
        var i, j := SameOrderBack(s, r, m, k, l);
      } else {
        SameMembers(s, r, m, r[k]);
        SameMembers(s, r, m, r[l]);
        assert r[k] in s && r[l] in s;
      }
    }
  }

  lemma LowerFirst(s: seq<int>, r: seq<int>, m: int, x: int, y: int)
    requires m > 0 && IsStableSort(s, r, m) && Sorted(r) && x in s && y in s && x % m < y % m
    ensures x <= y
  {
    SameMembers(s, r, m, x);
    SameMembers(s, r, m, y);
    var k :| 0 <= k < |r| && r[k] == x;
    var l :| 0 <= l < |r| && r[l] == y;
    assert k < l;
  }

  lemma TieInOrder(s: seq<int>, r: seq<int>, m: int, i: nat, j: nat)
    requires m > 0 && IsStableSort(s, r, m) && Sorted(r) && i < j < |s| && s[i] % m == s[j] % m
    ensures s[i] <= s[j]
  {
    var k, l := SameOrder(s, r, m, i, j);
  }

  lemma AgreeIfSorted(s: seq<int>, r: seq<int>, m: int)
    requires m > 0 && IsStableSort(s, r, m) && Sorted(r)
    ensures LowPartsAgree(s, m)
  {
    hide IsStableSort, Sorted;
    forall i, j | 0 <= i < |s| && 0 <= j < |s| && s[i] / m < s[j] / m
      ensures s[i] % m < s[j] % m || (s[i] % m == s[j] % m && i < j)
    {
      ByParts(s[i], s[j], m);
      if s[j] % m < s[i] % m {
        LowerFirst(s, r, m, s[j], s[i]);
      } else if s[i] % m == s[j] % m && j < i {
        TieInOrder(s, r, m, j, i);
      }
    }
  }

  /** By whatever power of ten one stops, this is when a stable sort by the digits below it is sorted. */
  lemma SortedIffLowPartsAgree(s: seq<int>, r: seq<int>, m: int)
    requires m > 0 && IsStableSort(s, r, m)
    ensures Sorted(r) <==> LowPartsAgree(s, m)
  {
    if Sorted(r) {
      AgreeIfSorted(s, r, m);
    }
    if LowPartsAgree(s, m) {
      SortedIfAgree(s, r, m);
    }
  }

  function DecimalDigits(x: int): (n: nat)
    requires x >= 0
    ensures n >= 1
  {
    if x < MAX_NUMBER then 1 else 1 + DecimalDigits(x / MAX_NUMBER)
  }

  lemma {:induction false} DigitsAndPowers(x: int, n: nat)
    requires x >= 0 && n >= 1
    ensures x < Power10(n) <==> DecimalDigits(x) <= n
  {
    if n == 1 {
      assert Power10(1) == MAX_NUMBER * Power10(0);
    } else if x >= MAX_NUMBER {
      DigitsAndPowers(x / MAX_NUMBER, n - 1);
    }
  }

  predicate IsLargest(s: seq<int>, largest: int) {
    largest in s && forall x <- s :: 0 <= x <= largest
  }

  /**
   `MaxBit` counts enough digits exactly if the input has a chain with one number fewer than the largest
   number has digits: one with at least two digits, right of it one with at least three, and so on.
   */
  lemma EnoughDigits(s: seq<int>, largest: int)
    requires IsLargest(s, largest)
    ensures (forall x <- s :: x < Power10(LongestChain(s) + 1)) <==> HasChain(s, DecimalDigits(largest) - 1)
  {
    hide LongestChain, Power10, DecimalDigits, HasChain;
    DigitsAndPowers(largest, LongestChain(s) + 1);
    LongestChainIsLongest(s, DecimalDigits(largest) - 1);
  }

  /** With such a chain the result of `RadixSort` is sorted. */
  lemma SortedWithChain(s: seq<int>, r: seq<int>, largest: int)
    requires IsLargest(s, largest) && HasChain(s, DecimalDigits(largest) - 1)
    requires IsStableSort(s, r, Power10(LongestChain(s) + 1))
    ensures Sorted(r)
  {
    hide LongestChain, Power10, DecimalDigits, HasChain;
    EnoughDigits(s, largest);
    var m := Power10(LongestChain(s) + 1);
    forall i | 0 <= i < |s|
      ensures s[i] / m == 0
    {
      assert s[i] in s;
      DivModUnique(s[i], m, 0, s[i]);
    }
    SortedIffLowPartsAgree(s, r, m);
  }

  /** Without one there is a number whose first digits are never looked at ... */
  lemma OverlookedDigits(s: seq<int>, largest: int)
    requires IsLargest(s, largest) && !HasChain(s, DecimalDigits(largest) - 1)
    ensures largest >= Power10(LongestChain(s) + 1)
  {
    EnoughDigits(s, largest);
  }

  /** ... and 1000 and 1 are left as they are. */
  lemma TooFewDigits(r: seq<int>)
    requires IsStableSort([1000, 1], r, Power10(LongestChain([1000, 1]) + 1))
    ensures IsLargest([1000, 1], 1000) && !HasChain([1000, 1], DecimalDigits(1000) - 1) && !Sorted(r)
  {
    var s := [1000, 1];
    assert s[..1] == [1000] && [1000][..0] == [];
    assert Power10(1) == 10 && Power10(2) == 100;
    assert LongestChain([1000]) == 1 && LongestChain(s) == 1;
    assert DecimalDigits(1000) == 4 by {
      assert DecimalDigits(100) == 3;
    }
    LongestChainIsLongest(s, 3);
    SortedIffLowPartsAgree(s, r, 100);
    assert s[1] / 100 < s[0] / 100 && s[1] % 100 > s[0] % 100;
  }
}
