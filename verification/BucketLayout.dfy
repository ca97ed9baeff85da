/** The three bucket layouts of src/chromium/metrics/histogram.cc as functions: exponential,
    linear and custom.  Computations the source makes in floating point are exact here.
  */
module BucketLayout {
  import opened Powers

  const INT_MAX: int := 0x7FFF_FFFF

  /** Section "Standard assertions" of the source, with strict growth: what `BucketIndex` and
      the samples rely on. */
  predicate IsLayout(ranges: seq<int>) {
    |ranges| >= 2 && ranges[0] == 0 && ranges[|ranges| - 1] == INT_MAX && Increasing(ranges)
  }

  predicate Increasing(s: seq<int>) {
    forall i, j :: 0 <= i < j < |s| ==> s[i] < s[j]
  }

  lemma {:induction false} IncreasingByNeighbours(s: seq<int>)
    requires forall i :: 0 < i < |s| ==> s[i - 1] < s[i]
    ensures Increasing(s)
  {
    forall i, j | 0 <= i < j < |s| ensures s[i] < s[j] {
      IncreasingBetween(s, i, j);
    }
  }

  lemma {:induction false} IncreasingBetween(s: seq<int>, i: nat, j: nat)
    requires forall k :: 0 < k < |s| ==> s[k - 1] < s[k]
    requires i < j < |s|
    ensures s[i] < s[j]
  {
    if i + 1 < j {
      IncreasingBetween(s, i, j - 1);
    }
  }

  // ---------------------------------------------------------------------------------
  // Exponential
  // ---------------------------------------------------------------------------------

  /** `n` is x rounded to the nearest integer, halves up, where x = c (max / c)^(1/k), that
      is, (2x)^k = (2c)^(k-1) 2max. */
  predicate IsRoundedRoot(n: nat, c: nat, k: nat, max: nat)
    requires 0 < k
  {
    0 < n && Pow(2 * n - 1, k) <= Pow(2 * c, k - 1) * (2 * max) < Pow(2 * n + 1, k)
  }

  function RoundedRootFrom(n: nat, c: nat, k: nat, max: nat): (r: nat)
    requires 0 < n && 0 < k && Pow(2 * n - 1, k) <= Pow(2 * c, k - 1) * (2 * max)
    ensures IsRoundedRoot(r, c, k, max)
    decreases Pow(2 * c, k - 1) * (2 * max) - n
  {
    PowAtLeastBase(2 * n - 1, k);
    PowAtLeastBase(2 * n + 1, k);
    if Pow(2 * c, k - 1) * (2 * max) < Pow(2 * n + 1, k) then n else RoundedRootFrom(n + 1, c, k, max)
  }

  lemma {:induction false} PowOfOne(k: nat)
    ensures Pow(1, k) == 1
  {
    if k > 0 { PowOfOne(k - 1); }
  }

  /** Where the next bucket would start, with `k` buckets still to place. */
  function RoundedRoot(c: nat, k: nat, max: nat): (n: nat)
    requires 0 < c && 0 < k && 0 < max
    ensures IsRoundedRoot(n, c, k, max)
  {
    PowOfOne(k);
    PowPositive(2 * c, k - 1);
    ProductGrows(1, Pow(2 * c, k - 1), 1, 2 * max);
    RoundedRootFrom(1, c, k, max)
  }

  lemma RoundedRootIsUnique(n: nat, m: nat, c: nat, k: nat, max: nat)
    requires 0 < k && IsRoundedRoot(n, c, k, max) && IsRoundedRoot(m, c, k, max)
    ensures n == m
  {
    if n < m {
      PowGrows(2 * n + 1, 2 * m - 1, k);
    } else if m < n {
      PowGrows(2 * m + 1, 2 * n - 1, k);
    }
  }

  function NextBoundary(c: nat, k: nat, max: nat): (next: nat)
    requires 0 < c && 0 < k && 0 < max
    ensures c < next
  {
    if RoundedRoot(c, k, max) > c then RoundedRoot(c, k, max) else c + 1
  }

  /** The rounded root leaves room: with `k` boundaries to place in `max - c >= k` places,
      the next one leaves at least `k - 1`. */
  lemma RoomRemains(c: nat, k: nat, max: nat)
    requires 0 < c && 0 < k && c + k <= max
    ensures NextBoundary(c, k, max) + (k - 1) <= max
  {
    var n := RoundedRoot(c, k, max);
    if n + k - 1 > max {
      RootTooFar(n, c, k, max);
    }
  }

  lemma RootTooFar(n: nat, c: nat, k: nat, max: nat)
    requires 0 < c && 0 < k && c + k <= max && n + k - 1 > max
    ensures !IsRoundedRoot(n, c, k, max)
  {
    hide Pow;
    var y := 2 * (max - c - k) + 3;
    PowGrows(2 * c + y, 2 * n - 1, k);
    Bernoulli(2 * c, y, k);
    WideEnough(max - c, k);
    PowPositive(2 * c, k - 1);
    ProductTooWide(Pow(2 * c, k - 1), 2 * c + k * y, 2 * max);
  }

  lemma ProductTooWide(p: nat, a: nat, b: nat)
    requires b < a && 0 < p
    ensures p * b < p * a
  {
  }

  lemma WideEnough(d: nat, k: nat)
    requires 0 < k <= d
    ensures k * (2 * (d - k) + 3) > 2 * d
  {
    assert k * (2 * (d - k) + 3) == 2 * (k * (d - k)) + 3 * k;
    ProductGrows(1, k, d - k, d - k);
  }

  /** The last boundary is the maximum itself. */
  lemma LastIsExact(c: nat, max: nat)
    requires 0 < c < max
    ensures NextBoundary(c, 1, max) == max
  {
    var n := RoundedRoot(c, 1, max);
    assert Pow(2 * n - 1, 1) == (2 * n - 1) * Pow(2 * n - 1, 0);
    assert Pow(2 * n + 1, 1) == (2 * n + 1) * Pow(2 * n + 1, 0);
    assert Pow(2 * c, 0) == 1;
  }

  /** The `k` boundaries after `c`. */
  function Boundaries(c: nat, k: nat, max: nat): (s: seq<int>)
    requires 0 < c && 0 < max
    ensures |s| == k
    decreases k
  {
    if k == 0 then [] else
    var next := NextBoundary(c, k, max);
    [next] + Boundaries(next, k - 1, max)
  }

  lemma {:induction false} BoundariesFit(c: nat, k: nat, max: nat)
    requires 0 < c && c + k <= max
    requires k == 0 ==> c == max
    ensures Increasing([c] + Boundaries(c, k, max))
    ensures ([c] + Boundaries(c, k, max))[k] == max
    decreases k
  {
    if k > 0 {
      var next := NextBoundary(c, k, max);
      RoomRemains(c, k, max);
      if k == 1 { LastIsExact(c, max); }
      BoundariesFit(next, k - 1, max);
      var s := [next] + Boundaries(next, k - 1, max);
      assert ([c] + s)[k] == s[k - 1];
      assert forall i, j :: 0 <= i < j < |s| ==> s[i] < s[j];
      forall i | 0 <= i < |s| ensures c < s[i] {
        if i > 0 { assert s[0] < s[i]; }
      }
    }
  }

  /** What the source demands of constructor arguments once they are clamped. */
  predicate AreArguments(min: int, max: int, bucketCount: int) {
    1 <= min < max <= INT_MAX - 1 && 2 < bucketCount <= max - min + 2
  }

  function ExponentialLayout(min: int, max: int, bucketCount: int): (ranges: seq<int>)
    requires AreArguments(min, max, bucketCount)
    ensures |ranges| == bucketCount + 1
  {
    [0, min] + Boundaries(min, bucketCount - 2, max) + [INT_MAX]
  }

  /** The exponential layout starts at 0 and the minimum, reaches the maximum exactly at the
      last bucket, ends at the largest sample, and every bucket is wide enough for a value. */
  lemma ExponentialLayoutIsValid(min: int, max: int, bucketCount: int)
    requires AreArguments(min, max, bucketCount)
    ensures var ranges := ExponentialLayout(min, max, bucketCount);
            IsLayout(ranges) && ranges[1] == min && ranges[bucketCount - 1] == max
  {
    var ranges := ExponentialLayout(min, max, bucketCount);
    var inner := [min] + Boundaries(min, bucketCount - 2, max);
    BoundariesFit(min, bucketCount - 2, max);
    assert ranges == [0] + inner + [INT_MAX];
    assert ranges[bucketCount - 1] == inner[bucketCount - 2];
    forall i | 0 < i < |ranges| ensures ranges[i - 1] < ranges[i] {
      if 1 < i < |ranges| - 1 { assert inner[i - 2] < inner[i - 1]; }
    }
    IncreasingByNeighbours(ranges);
  }

  /** The boundary after `c`, with `k` to place up to `max`: the real number c (max / c)^(1/k) rounded
      to the nearest integer, halves up, but at least c + 1. */
  predicate IsRootStep(c: int, next: int, k: int, max: int) {
    && 0 < c < next && 0 < k && 0 < max
    && Pow(2 * c, k - 1) * (2 * max) < Pow(2 * next + 1, k)
    && (next == c + 1 || Pow(2 * next - 1, k) <= Pow(2 * c, k - 1) * (2 * max))
  }

  /** In other words: `n`, which the rounding inequality determines, if it is above `c`. */
  lemma RootStepIs(c: nat, next: nat, k: nat, max: nat, n: nat)
    requires IsRootStep(c, next, k, max) && 0 < n
    requires Pow(2 * n - 1, k) <= Pow(2 * c, k - 1) * (2 * max) < Pow(2 * n + 1, k)
    ensures next == if n > c then n else c + 1
  {
    hide Pow;
    if n < next {
      PowGrows(2 * n + 1, 2 * next - 1, k);
    } else if next < n {
      PowGrows(2 * next + 1, 2 * n - 1, k);
    }
  }

  lemma NextIsRootStep(c: nat, k: nat, max: nat)
    requires 0 < c && 0 < k && 0 < max
    ensures IsRootStep(c, NextBoundary(c, k, max), k, max)
  {
    hide Pow, RoundedRoot;
    var n := RoundedRoot(c, k, max);
    if n <= c {
      PowGrows(2 * n + 1, 2 * (c + 1) + 1, k);
    }
  }

  lemma {:induction false} BoundariesAreRootSteps(c: nat, k: nat, max: nat, i: nat)
    requires 0 < c && i < k && 0 < max
    ensures var s := [c] + Boundaries(c, k, max);
            IsRootStep(s[i], s[i + 1], k - i, max)
    decreases k
  {
    hide IsRootStep, NextBoundary;
    var next := NextBoundary(c, k, max);
    var s, t := [c] + Boundaries(c, k, max), [next] + Boundaries(next, k - 1, max);
    assert s == [c] + t;
    if i == 0 {
      NextIsRootStep(c, k, max);
    } else {
      BoundariesAreRootSteps(next, k - 1, max, i - 1);
    }
  }

  /** Every boundary of the exponential layout is the rounded root of what the one before leaves. */
  lemma ExponentialSteps(min: int, max: int, bucketCount: int, i: int)
    requires AreArguments(min, max, bucketCount) && 1 <= i < bucketCount - 1
    ensures var ranges := ExponentialLayout(min, max, bucketCount);
            IsRootStep(ranges[i], ranges[i + 1], bucketCount - 1 - i, max)
  {
    hide IsRootStep;
    var inner := [min] + Boundaries(min, bucketCount - 2, max);
    assert ExponentialLayout(min, max, bucketCount) == [0] + inner + [INT_MAX];
    BoundariesAreRootSteps(min, bucketCount - 2, max, i - 1);
  }

  /** After the minimum, every boundary up to the maximum is the rounded root of what is left. */
  predicate HasRootSteps(ranges: seq<int>, min: int, max: int) {
    && |ranges| > 3 && ranges[0] == 0 && ranges[1] == min && ranges[|ranges| - 1] == INT_MAX
    && forall i :: 1 <= i < |ranges| - 2 ==> IsRootStep(ranges[i], ranges[i + 1], |ranges| - 2 - i, max)
  }

  lemma ExponentialHasRootSteps(min: int, max: int, bucketCount: int)
    requires AreArguments(min, max, bucketCount)
    ensures HasRootSteps(ExponentialLayout(min, max, bucketCount), min, max)
  {
    hide IsRootStep;
    var ranges := ExponentialLayout(min, max, bucketCount);
    forall i | 1 <= i < |ranges| - 2 ensures IsRootStep(ranges[i], ranges[i + 1], |ranges| - 2 - i, max) {
      ExponentialSteps(min, max, bucketCount, i);
    }
  }

  /** When the maximum is the minimum times a power of `q`, every boundary is the one before
      times `q`. */
  lemma {:induction false} GeometricBoundary(c: nat, k: nat, q: nat, i: nat)
    requires 0 < c && 1 < q && i < k
    ensures 0 < c * Pow(q, k) && Boundaries(c, k, c * Pow(q, k))[i] == c * Pow(q, i + 1)
    decreases k
  {
    PowPositive(q, k);
    ProductGrows(1, c, 1, Pow(q, k));
    GeometricStep(c, k, q);
    Associate(c, q, Pow(q, k - 1));
    if i == 0 {
      assert Pow(q, 1) == q * Pow(q, 0);
    } else {
      ProductGrows(1, c, 1, q);
      GeometricBoundary(c * q, k - 1, q, i - 1);
      Associate(c, q, Pow(q, i));
    }
  }

  lemma GeometricStep(c: nat, k: nat, q: nat)
    requires 0 < c && 0 < k && 1 < q && 0 < c * Pow(q, k)
    ensures NextBoundary(c, k, c * Pow(q, k)) == c * q
  {
    ProductGrows(c, c, 2, q);
    ExactRoot(c, k, q);
    hide Pow;
    var max := c * Pow(q, k);
    var x := 2 * (c * q);
    PowGrows(x - 1, x, k);
    PowGrowsStrictly(x, x + 1, k);
    RoundedRootIsUnique(c * q, RoundedRoot(c, k, max), c, k, max);
  }

  lemma ExactRoot(c: nat, k: nat, q: nat)
    requires 0 < k
    ensures Pow(2 * c, k - 1) * (2 * (c * Pow(q, k))) == Pow(2 * (c * q), k)
  {
    PowOfProduct(2 * c, q, k);
    Associate(2, c, q);
    Associate(2, c, Pow(q, k));
    Associate(2 * c, Pow(2 * c, k - 1), Pow(q, k));
    Associate(Pow(2 * c, k - 1), 2 * c, Pow(q, k));
  }

  // ---------------------------------------------------------------------------------
  // Linear
  // ---------------------------------------------------------------------------------

  /** Boundary `i` times `bucketCount - 2`, before rounding: the weighted mean of the ends. */
  function Interpolated(min: int, max: int, bucketCount: int, i: int): int {
    min * (bucketCount - 1 - i) + max * (i - 1)
  }

  function LinearBoundary(min: int, max: int, bucketCount: int, i: int): int
    requires 2 < bucketCount
  {
    (2 * Interpolated(min, max, bucketCount, i) + (bucketCount - 2)) / (2 * (bucketCount - 2))
  }

  function LinearLayout(min: int, max: int, bucketCount: int): (ranges: seq<int>)
    requires AreArguments(min, max, bucketCount)
    ensures |ranges| == bucketCount + 1
  {
    [0] + seq(bucketCount - 1, i => LinearBoundary(min, max, bucketCount, i + 1)) + [INT_MAX]
  }

  lemma InterpolationStep(min: int, max: int, bucketCount: int, i: int)
    ensures Interpolated(min, max, bucketCount, i + 1) == Interpolated(min, max, bucketCount, i) + (max - min)
  {
    Distribute(min, bucketCount - 1 - (i + 1), 1);
    Distribute(max, i - 1, 1);
  }

  /** Moving the numerator of a quotient by `w` moves the quotient by w / d, give or take less
      than one. */
  lemma QuotientStep(x: int, w: int, d: int)
    requires 0 < d
    ensures -d < (x + w) / d * d - x / d * d - w < d
  {
    assert (x + w) / d * d + (x + w) % d == x + w;
    assert x / d * d + x % d == x;
  }

  /** Each linear bucket is as wide as the even share of the whole, give or take less than one;
      the share is at least one. */
  lemma LinearWidth(min: int, max: int, bucketCount: int, i: int)
    requires AreArguments(min, max, bucketCount)
    ensures var width := LinearBoundary(min, max, bucketCount, i + 1) - LinearBoundary(min, max, bucketCount, i);
            && (max - min) - (bucketCount - 2) < (bucketCount - 2) * width < (max - min) + (bucketCount - 2)
            && 0 < width
  {
    var d := bucketCount - 2;
    var x := 2 * Interpolated(min, max, bucketCount, i) + d;
    InterpolationStep(min, max, bucketCount, i);
    hide Interpolated;
    QuotientStep(x, 2 * (max - min), 2 * d);
    var a, b := LinearBoundary(min, max, bucketCount, i), LinearBoundary(min, max, bucketCount, i + 1);
    assert b * (2 * d) - a * (2 * d) == 2 * (d * (b - a)) by { ScaledDifference(a, b, d); }
    if b <= a { ProductGrows(d, d, 0, a - b); }
  }

  lemma ScaledDifference(a: int, b: int, d: int)
    ensures b * (2 * d) - a * (2 * d) == 2 * (d * (b - a))
  {
  }

  /** Boundary `i` is the weighted mean of the ends rounded to the nearest integer, halves up. */
  predicate IsLinearBoundary(b: int, min: int, max: int, bucketCount: int, i: int) {
    var d := bucketCount - 2;
    -d < 2 * (d * b - (min * (bucketCount - 1 - i) + max * (i - 1))) <= d
  }

  lemma LinearIsRounded(min: int, max: int, bucketCount: int, i: int)
    requires 2 < bucketCount
    ensures IsLinearBoundary(LinearBoundary(min, max, bucketCount, i), min, max, bucketCount, i)
  {
    var d := bucketCount - 2;
    var mean := min * (bucketCount - 1 - i) + max * (i - 1);
    QuotientRounds(2 * mean + d, d, LinearBoundary(min, max, bucketCount, i));
  }

  /** From the minimum to the maximum, every boundary is a rounded mean of the two. */
  predicate IsLinear(ranges: seq<int>, min: int, max: int) {
    && |ranges| > 3 && ranges[0] == 0 && ranges[|ranges| - 1] == INT_MAX
    && forall i :: 1 <= i < |ranges| - 1 ==> IsLinearBoundary(ranges[i], min, max, |ranges| - 1, i)
  }

  lemma LayoutIsLinear(min: int, max: int, bucketCount: int)
    requires AreArguments(min, max, bucketCount)
    ensures IsLinear(LinearLayout(min, max, bucketCount), min, max)
  {
    hide IsLinearBoundary, LinearBoundary;
    var ranges := LinearLayout(min, max, bucketCount);
    forall i | 1 <= i < |ranges| - 1 ensures IsLinearBoundary(ranges[i], min, max, |ranges| - 1, i) {
      LinearIsRounded(min, max, bucketCount, i);
    }
  }

  lemma QuotientRounds(x: int, d: int, b: int)
    requires 0 < d && b == x / (2 * d)
    ensures -d < 2 * (d * b) - (x - d) <= d
  {
    assert x == b * (2 * d) + x % (2 * d);
    assert b * (2 * d) == 2 * (d * b);
  }

  lemma LinearEnds(min: int, max: int, bucketCount: int)
    requires AreArguments(min, max, bucketCount)
    ensures LinearBoundary(min, max, bucketCount, 1) == min
    ensures LinearBoundary(min, max, bucketCount, bucketCount - 1) == max
  {
    RoundedWhole(min, bucketCount - 2);
    RoundedWhole(max, bucketCount - 2);
  }

  lemma RoundedWhole(a: int, d: int)
    requires 0 < d
    ensures (2 * (a * d) + d) / (2 * d) == a
  {
    var q := (2 * (a * d) + d) / (2 * d);
    assert 2 * (a * d) == a * (2 * d);
    assert q * (2 * d) <= a * (2 * d) + d < q * (2 * d) + 2 * d;
    if q < a { ScaledGap(q, a, 2 * d); }
    if a < q { ScaledGap(a, q, 2 * d); }
  }

  lemma ScaledGap(a: int, b: int, d: int)
    requires a < b && 0 < d
    ensures a * d + d <= b * d
  {
    AtLeastOnce(d, b - a);
    Minus(d, b, a);
  }

  lemma LinearLayoutIsValid(min: int, max: int, bucketCount: int)
    requires AreArguments(min, max, bucketCount)
    ensures var ranges := LinearLayout(min, max, bucketCount);
            IsLayout(ranges) && ranges[1] == min && ranges[bucketCount - 1] == max
  {
    hide LinearBoundary;
    var ranges := LinearLayout(min, max, bucketCount);
    LinearEnds(min, max, bucketCount);
    forall i | 0 < i < |ranges| ensures ranges[i - 1] < ranges[i] {
      if 1 < i < |ranges| - 1 { LinearWidth(min, max, bucketCount, i - 1); }
    }
    IncreasingByNeighbours(ranges);
  }

  // ---------------------------------------------------------------------------------
  // Custom
  // ---------------------------------------------------------------------------------

  predicate IsSorted(s: seq<int>) {
    forall i, j :: 0 <= i < j < |s| ==> s[i] <= s[j]
  }

  function Insert(x: int, s: seq<int>): seq<int> {
    if s == [] || x <= s[0] then [x] + s else [s[0]] + Insert(x, s[1..])
  }

  function Sort(s: seq<int>): seq<int> {
    if s == [] then [] else Insert(s[0], Sort(s[1..]))
  }

  /** Drops every element equal to the one before it. */
  function Unique(s: seq<int>): seq<int> {
    if |s| <= 1 then s
    else if s[0] == s[1] then Unique(s[1..])
    else [s[0]] + Unique(s[1..])
  }

  /** The list of bucket starts that `FactoryGet` makes of its argument. */
  function CustomStarts(customRanges: seq<int>): seq<int> {
    var starts := Unique(Sort(customRanges + [0]));
    if |starts| <= 1 then starts + [1] else starts
  }

  function CustomLayout(customRanges: seq<int>): seq<int> {
    CustomStarts(customRanges) + [INT_MAX]
  }

  lemma {:induction false} InsertCorrect(x: int, s: seq<int>)
    requires IsSorted(s)
    ensures IsSorted(Insert(x, s))
    ensures forall y :: y in Insert(x, s) <==> y == x || y in s
  {
    var r := Insert(x, s);
    if s == [] || x <= s[0] {
      assert r == [x] + s;
    } else {
      InsertCorrect(x, s[1..]);
      var t := Insert(x, s[1..]);
      assert r == [s[0]] + t;
      assert forall y :: y in s <==> y == s[0] || y in s[1..];
      forall i | 0 <= i < |t| ensures s[0] <= t[i] {
        assert t[i] in t;
      }
    }
  }

  lemma {:induction false} SortCorrect(s: seq<int>)
    ensures IsSorted(Sort(s))
    ensures forall y :: y in Sort(s) <==> y in s
  {
    if s != [] {
      SortCorrect(s[1..]);
      InsertCorrect(s[0], Sort(s[1..]));
      assert forall y :: y in s <==> y == s[0] || y in s[1..];
    }
  }

  lemma {:induction false} UniqueCorrect(s: seq<int>)
    requires IsSorted(s)
    ensures Increasing(Unique(s))
    ensures forall y :: y in Unique(s) <==> y in s
  {
    if |s| > 1 {
      UniqueCorrect(s[1..]);
      var t := Unique(s[1..]);
      assert forall y :: y in s <==> y == s[0] || y in s[1..];
      if s[0] != s[1] {
        forall i | 0 <= i < |t| ensures s[0] < t[i] {
          assert t[i] in s[1..];
        }
      }
    }
  }

  /** The bucket starts are zero and the listed values, each once, in order; one more if that is
      zero alone. */
  lemma CustomStartsCorrect(customRanges: seq<int>)
    requires forall i :: 0 <= i < |customRanges| ==> 0 <= customRanges[i]
    ensures var starts := CustomStarts(customRanges);
            |starts| > 1 && starts[0] == 0 && Increasing(starts)
            && (forall y :: y in starts <==>
                  y == 0 || y in customRanges || (y == 1 && forall z :: z in customRanges ==> z == 0))
  {
    var all := customRanges + [0];
    SortCorrect(all);
    UniqueCorrect(Sort(all));
    var starts := Unique(Sort(all));
    assert all[|customRanges|] == 0 && 0 in all && 0 in starts;
    assert starts[0] in all;
    assert starts[0] == 0 by {
      var i :| 0 <= i < |starts| && starts[i] == 0;
    }
    assert forall y :: y in all <==> y == 0 || y in customRanges;
    assert forall y :: y in starts <==> y == 0 || y in customRanges;
    OnlyZero(starts);
    assert |starts| <= 1 <==> forall z :: z in customRanges ==> z == 0 by {
      if |starts| > 1 { assert starts[1] in starts; }
    }
    assert |starts| <= 1 ==> forall y :: y in starts + [1] <==> y == 0 || y == 1;
  }

  lemma OnlyZero(starts: seq<int>)
    requires Increasing(starts) && |starts| > 0 && starts[0] == 0
    ensures |starts| <= 1 <==> forall y :: y in starts ==> y == 0
  {
    if |starts| > 1 {
      assert starts[1] in starts && starts[0] < starts[1];
    }
  }

  lemma CustomLayoutIsValid(customRanges: seq<int>)
    requires forall i :: 0 <= i < |customRanges| ==> 0 <= customRanges[i] < INT_MAX
    ensures IsLayout(CustomLayout(customRanges))
  {
    CustomStartsCorrect(customRanges);
    var starts := CustomStarts(customRanges);
    forall i | 0 <= i < |starts| ensures starts[i] < INT_MAX {
      assert starts[i] in starts;
      if starts[i] in customRanges {
        var j :| 0 <= j < |customRanges| && customRanges[j] == starts[i];
      }
    }
  }
}
