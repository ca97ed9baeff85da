/** The `Histogram` class of src/chromium/metrics/histogram.cc: bucket ranges that are filled
    in place, samples that are counted into them, and the checks on both.
  */
module Histograms {
  import opened BucketLayout
  import opened NumberConversions
  import opened RangeChecksum

  const BUCKET_COUNT_MAX: nat := 16384

  // ---------------------------------------------------------------------------------
  // What a run of samples amounts to
  // ---------------------------------------------------------------------------------

  /** Samples are clamped to what the buckets cover. */
  function ClampSample(value: int): (sample: int)
    ensures 0 <= sample < INT_MAX
    ensures 0 <= value < INT_MAX ==> sample == value
    ensures value < 0 ==> sample == 0
    ensures value >= INT_MAX ==> sample == INT_MAX - 1
  {
    if value > INT_MAX - 1 then INT_MAX - 1 else if value < 0 then 0 else value
  }

  /** The number of samples in [low, high). */
  function CountIn(samples: seq<int>, low: int, high: int): nat {
    if samples == [] then 0
    else CountIn(samples[..|samples| - 1], low, high) + if low <= samples[|samples| - 1] < high then 1 else 0
  }

  function Total(s: seq<int>): int {
    if s == [] then 0 else Total(s[..|s| - 1]) + s[|s| - 1]
  }

  /** The value of a `SampleSet`. */
  datatype Samples = Samples(counts: seq<int>, sum: int, redundantCount: int)

  /** A sample set holds exactly a list of samples. */
  ghost predicate Tallies(tally: Samples, samples: seq<int>, ranges: seq<int>) {
    && |tally.counts| + 1 == |ranges|
    && (forall i :: 0 <= i < |tally.counts| ==> tally.counts[i] == CountIn(samples, ranges[i], ranges[i + 1]))
    && tally.redundantCount == |samples|
    && tally.sum == Total(samples)
  }

  lemma NothingTallied(ranges: seq<int>)
    requires 0 < |ranges|
    ensures Tallies(Samples(seq(|ranges| - 1, _ => 0), 0, 0), [], ranges)
  {
  }

  /** The first `n` ranges and the last one are as planned. */
  predicate IsFilled(ranges: seq<int>, layout: seq<int>, n: nat) {
    && n < |layout| == |ranges| && ranges[|ranges| - 1] == layout[|ranges| - 1]
    && forall i :: 0 <= i < n ==> ranges[i] == layout[i]
  }

  lemma FillStep(ranges: seq<int>, layout: seq<int>, n: nat)
    requires IsFilled(ranges, layout, n) && n + 1 < |layout|
    ensures n < |ranges| == |layout| && IsFilled(ranges[n := layout[n]], layout, n + 1)
  {
  }

  lemma FillDone(ranges: seq<int>, layout: seq<int>, n: nat)
    requires IsFilled(ranges, layout, n) && n + 1 == |layout|
    ensures ranges == layout
  {
  }

  /** Placing one boundary of the exponential layout. */
  lemma LayoutStep(layout: seq<int>, i: nat, end: nat, current: nat, max: nat)
    requires i < end <= |layout| && 0 < current && 0 < max
    requires Boundaries(current, end - i, max) == layout[i..end]
    ensures layout[i] == NextBoundary(current, end - i, max)
    ensures Boundaries(NextBoundary(current, end - i, max), end - i - 1, max) == layout[i + 1..end]
  {
    hide NextBoundary;
    assert layout[i] == layout[i..end][0];
    assert layout[i + 1..end] == layout[i..end][1..];
  }

  predicate IsBucketOf(index: int, value: int, ranges: seq<int>) {
    0 <= index < |ranges| - 1 && ranges[index] <= value < ranges[index + 1]
  }

  lemma BucketIsUnique(i: int, j: int, value: int, ranges: seq<int>)
    requires Increasing(ranges) && IsBucketOf(i, value, ranges) && IsBucketOf(j, value, ranges)
    ensures i == j
  {
  }

  lemma LayoutEnds(ranges: seq<int>)
    requires IsLayout(ranges)
    ensures Increasing(ranges) && ranges[0] == 0 && ranges[|ranges| - 1] == INT_MAX
  {
  }

  lemma TallyStep(tally: Samples, samples: seq<int>, ranges: seq<int>, value: int, index: int)
    requires Increasing(ranges) && Tallies(tally, samples, ranges) && IsBucketOf(index, value, ranges)
    ensures index < |tally.counts|
    ensures Tallies(Samples(tally.counts[index := tally.counts[index] + 1], tally.sum + value, tally.redundantCount + 1),
                    samples + [value], ranges)
  {
    var more := samples + [value];
    assert more[..|samples|] == samples;
    forall i | 0 <= i < |tally.counts|
      ensures CountIn(more, ranges[i], ranges[i + 1]) ==
              CountIn(samples, ranges[i], ranges[i + 1]) + if i == index then 1 else 0
    {
      if IsBucketOf(i, value, ranges) { BucketIsUnique(i, index, value, ranges); }
    }
  }

  lemma {:induction false} CountsAdd(samples: seq<int>, others: seq<int>, low: int, high: int)
    ensures CountIn(samples + others, low, high) == CountIn(samples, low, high) + CountIn(others, low, high)
  {
    if others == [] {
      assert samples + others == samples;
    } else {
      CountsAdd(samples, others[..|others| - 1], low, high);
      assert (samples + others)[..|samples + others| - 1] == samples + others[..|others| - 1];
    }
  }

  lemma {:induction false} TotalsAdd(s: seq<int>, t: seq<int>)
    ensures Total(s + t) == Total(s) + Total(t)
  {
    if t == [] {
      assert s + t == s;
    } else {
      TotalsAdd(s, t[..|t| - 1]);
      assert (s + t)[..|s + t| - 1] == s + t[..|t| - 1];
    }
  }

  /** The samples of a range of buckets: every sample is in exactly one bucket. */
  lemma {:induction false} CountsTelescope(counts: seq<int>, samples: seq<int>, ranges: seq<int>, n: nat)
    requires Increasing(ranges) && n <= |counts| && |counts| + 1 == |ranges|
    requires forall i :: 0 <= i < |counts| ==> counts[i] == CountIn(samples, ranges[i], ranges[i + 1])
    ensures Total(counts[..n]) == CountIn(samples, ranges[0], ranges[n])
  {
    if n == 0 {
      NothingBetween(samples, ranges[0]);
    } else {
      CountsTelescope(counts, samples, ranges, n - 1);
      assert counts[..n][..n - 1] == counts[..n - 1];
      CountsJoin(samples, ranges[0], ranges[n - 1], ranges[n]);
    }
  }

  lemma {:induction false} NothingBetween(samples: seq<int>, x: int)
    ensures CountIn(samples, x, x) == 0
  {
    if samples != [] { NothingBetween(samples[..|samples| - 1], x); }
  }

  lemma {:induction false} CountsJoin(samples: seq<int>, low: int, mid: int, high: int)
    requires low <= mid <= high
    ensures CountIn(samples, low, mid) + CountIn(samples, mid, high) == CountIn(samples, low, high)
  {
    if samples != [] { CountsJoin(samples[..|samples| - 1], low, mid, high); }
  }

  lemma {:induction false} AllCounted(samples: seq<int>)
    requires forall i :: 0 <= i < |samples| ==> 0 <= samples[i] < INT_MAX
    ensures CountIn(samples, 0, INT_MAX) == |samples|
  {
    if samples != [] { AllCounted(samples[..|samples| - 1]); }
  }

  /** The counts of all buckets add up to the number of samples. */
  lemma TallyTotal(tally: Samples, samples: seq<int>, ranges: seq<int>)
    requires IsLayout(ranges) && Tallies(tally, samples, ranges)
    requires forall i :: 0 <= i < |samples| ==> 0 <= samples[i] < INT_MAX
    ensures Total(tally.counts) == |samples| == tally.redundantCount
  {
    CountsTelescope(tally.counts, samples, ranges, |tally.counts|);
    assert tally.counts[..|tally.counts|] == tally.counts;
    AllCounted(samples);
  }

  // ---------------------------------------------------------------------------------
  // Corruption
  // ---------------------------------------------------------------------------------

  datatype Inconsistency = RangeChecksumError | BucketOrderError | CountHighError | CountLowError

  /** What is wrong with ranges and samples.  A sample total is off by redundant minus counted;
      one too many or too few is tolerated. */
  ghost predicate Exhibits(error: Inconsistency, ranges: seq<int>, checksum: bv32, snapshot: Samples)
    requires 0 < |ranges| < 0x1_0000_0000 && |snapshot.counts| + 1 == |ranges|
  {
    var delta := snapshot.redundantCount - Total(snapshot.counts);
    match error
    case RangeChecksumError => Checksum(ranges) != checksum
    case BucketOrderError => (ranges[0] < 0 && |ranges| > 1) || !Increasing(ranges[..|ranges| - 1])
    case CountHighError => delta > 1 || delta < -0x8000_0000
    case CountLowError => -0x8000_0000 < delta < -1
  }

  /** A layout with its own checksum and the tally of any run shows no error. */
  lemma RunShowsNoError(error: Inconsistency, ranges: seq<int>, tally: Samples, samples: seq<int>)
    requires IsLayout(ranges) && |ranges| < 0x1_0000_0000 && Tallies(tally, samples, ranges)
    requires forall i :: 0 <= i < |samples| ==> 0 <= samples[i] < INT_MAX
    ensures !Exhibits(error, ranges, Checksum(ranges), tally)
  {
    TallyTotal(tally, samples, ranges);
  }

  // ---------------------------------------------------------------------------------
  // Printing
  // ---------------------------------------------------------------------------------

  /** A printed line: a bucket with the samples before, in and after it, or a run of empty
      buckets. */
  datatype Row = Bucket(index: nat, past: int, current: int, remaining: int) | Elided(first: nat, last: nat)
  {
    function First(): nat {
      if Bucket? then index else first
    }

    function Last(): nat {
      if Bucket? then index else last
    }

    predicate Fits(counts: seq<int>) {
      match this
      case Bucket(index, past, current, remaining) =>
        && index < |counts| && current == counts[index]
        && past == Total(counts[..index]) && remaining == Total(counts[index + 1..])
      case Elided(first, last) =>
        first < last < |counts| && forall i :: first <= i <= last ==> counts[i] == 0
    }
  }

  predicate InOrder(rows: seq<Row>) {
    forall i, j :: 0 <= i < j < |rows| ==> rows[i].Last() < rows[j].First()
  }

  ghost predicate IsShown(bucket: nat, rows: seq<Row>) {
    exists k :: 0 <= k < |rows| && rows[k].First() <= bucket <= rows[k].Last()
  }

  lemma TotalStep(counts: seq<int>, i: nat)
    requires i < |counts|
    ensures Total(counts[..i + 1]) == Total(counts[..i]) + counts[i]
    ensures Total(counts[i..]) == counts[i] + Total(counts[i + 1..])
  {
    assert counts[..i + 1][..i] == counts[..i];
    TotalsAdd([counts[i]], counts[i + 1..]);
    assert [counts[i]][..0] == [];
    assert Total([counts[i]]) == counts[i];
    assert counts[i..] == [counts[i]] + counts[i + 1..];
  }

  lemma EmptyTotal(counts: seq<int>)
    ensures Total(counts[..0]) == 0 && Total(counts[0..]) == Total(counts)
  {
    assert counts[0..] == counts;
  }

  /** On every printed bucket line the three numbers add up to the sample count. */
  lemma RowsAddUp(row: Row, counts: seq<int>)
    requires row.Bucket? && row.Fits(counts)
    ensures row.past + row.current + row.remaining == Total(counts)
  {
    TotalStep(counts, row.index);
    TotalsAdd(counts[..row.index], counts[row.index..]);
    assert counts[..row.index] + counts[row.index..] == counts;
  }

  function Append(rows: seq<Row>, row: Row, first: nat, last: nat): (more: seq<Row>)
    requires first == row.First() && last == row.Last()
    requires InOrder(rows) && forall k :: 0 <= k < |rows| ==> rows[k].Last() < first
    ensures more == rows + [row] && InOrder(more)
    ensures forall j: nat :: IsShown(j, rows) || first <= j <= last ==> IsShown(j, more)
  {
    var more := rows + [row];
    assert more[|rows|] == row;
    assert forall k :: 0 <= k < |rows| ==> more[k] == rows[k];
    more
  }

  // ---------------------------------------------------------------------------------
  // Classes
  // ---------------------------------------------------------------------------------

  function AtLeastOne(minimum: int): (least: int)
    ensures least >= 1 && least >= minimum && (least == 1 || least == minimum)
  {
    if minimum < 1 then 1 else minimum
  }

  function AtMostLargest(maximum: int): (largest: int)
    ensures largest <= INT_MAX - 1 && largest <= maximum && (largest == INT_MAX - 1 || largest == maximum)
  {
    if maximum > INT_MAX - 1 then INT_MAX - 1 else maximum
  }

  class CachedRanges {
    var ranges: seq<int>
    var rangeChecksum: bv32

    constructor (size: nat, initialValue: int)
      ensures ranges == seq(size, _ => initialValue) && rangeChecksum == 0
    {
      ranges := seq(size, _ => initialValue);
      rangeChecksum := 0;
    }

    method SetBucketRange(i: nat, value: int)
      requires i < |ranges|
      modifies this`ranges
      ensures ranges == old(ranges)[i := value]
    {
      ranges := ranges[i := value];
    }
  }

  class SampleSet {
    var counts: seq<int>
    var sum: int
    var redundantCount: int

    constructor (size: nat)
      ensures Value() == Samples(seq(size, _ => 0), 0, 0)
    {
      counts, sum, redundantCount := seq(size, _ => 0), 0, 0;
    }

    function Value(): Samples
      reads this
    {
      Samples(counts, sum, redundantCount)
    }

    method Accumulate(value: int, count: int, index: nat)
      requires index < |counts|
      modifies this
      ensures Value() == old(Samples(counts[index := counts[index] + count], sum + count * value, redundantCount + count))
    {
      counts := counts[index := counts[index] + count];
      sum := sum + count * value;
      redundantCount := redundantCount + count;
    }

    method TotalCount() returns (total: int)
      ensures total == Total(counts)
    {
      total := 0;
      for i := 0 to |counts|
        invariant total == Total(counts[..i])
      {
        assert counts[..i + 1][..i] == counts[..i];
        total := total + counts[i];
      }
      assert counts[..|counts|] == counts;
    }

    method Add(other: SampleSet)
      requires |counts| == |other.counts| && other != this
      modifies this
      ensures |counts| == old(|counts|) && forall i :: 0 <= i < |counts| ==> counts[i] == old(counts[i]) + other.counts[i]
      ensures sum == old(sum) + other.sum && redundantCount == old(redundantCount) + other.redundantCount
    {
      sum := sum + other.sum;
      redundantCount := redundantCount + other.redundantCount;
      for index := 0 to |counts|
        invariant |counts| == |other.counts| && sum == old(sum) + other.sum
        invariant redundantCount == old(redundantCount) + other.redundantCount
        invariant forall i :: 0 <= i < |counts| ==> counts[i] == old(counts[i]) + if i < index then other.counts[i] else 0
      {
        counts := counts[index := counts[index] + other.counts[index]];
      }
    }
  }

  class Histogram {
    const declaredMin: int
    const declaredMax: int
    const bucketCount: nat
    var cachedRanges: CachedRanges
    var rangeChecksum: bv32
    const sample: SampleSet
    /** The samples added so far, clamped. */
    ghost var added: seq<int>

    /** The common constructor: every range but the last is still zero. */
    constructor (minimum: int, maximum: int, bucketCount: nat)
      requires 1 < bucketCount < BUCKET_COUNT_MAX
      ensures declaredMin == AtLeastOne(minimum) && declaredMax == AtMostLargest(maximum)
      ensures this.bucketCount == bucketCount && fresh(cachedRanges) && fresh(sample)
      ensures IsBlank()
    {
      declaredMin := AtLeastOne(minimum);
      declaredMax := AtMostLargest(maximum);
      this.bucketCount := bucketCount;
      rangeChecksum := 0;
      added := [];
      cachedRanges := new CachedRanges(bucketCount + 1, 0);
      sample := new SampleSet(bucketCount);
      new;
      cachedRanges.SetBucketRange(bucketCount, INT_MAX);
    }

    ghost predicate IsBlank()
      reads this, cachedRanges, sample
    {
      && 1 < bucketCount < BUCKET_COUNT_MAX
      && cachedRanges.ranges == seq(bucketCount, _ => 0) + [INT_MAX]
      && added == [] && sample.Value() == Samples(seq(bucketCount, _ => 0), 0, 0)
    }

    ghost predicate Valid()
      reads this, cachedRanges, sample
    {
      && 1 < bucketCount < BUCKET_COUNT_MAX
      && |cachedRanges.ranges| == bucketCount + 1
      && IsLayout(cachedRanges.ranges)
      && rangeChecksum == Checksum(cachedRanges.ranges)
      && Tallies(sample.Value(), added, cachedRanges.ranges)
      && (forall i :: 0 <= i < |added| ==> 0 <= added[i] < INT_MAX)
    }

    method SetBucketRange(i: nat, value: int)
      requires i < bucketCount && |cachedRanges.ranges| == bucketCount + 1
      modifies cachedRanges`ranges
      ensures cachedRanges.ranges == old(cachedRanges.ranges)[i := value]
    {
      cachedRanges.SetBucketRange(i, value);
    }

    method ResetRangeChecksum()
      requires 0 < |cachedRanges.ranges| < 0x1_0000_0000
      modifies this`rangeChecksum
      ensures rangeChecksum == Checksum(cachedRanges.ranges)
    {
      rangeChecksum := CalculateRangeChecksum(cachedRanges.ranges);
    }

    /** The exponential layout. */
    method InitializeBucketRange()
      requires IsBlank() && AreArguments(declaredMin, declaredMax, bucketCount)
      modifies this`rangeChecksum, cachedRanges
      ensures cachedRanges.ranges == ExponentialLayout(declaredMin, declaredMax, bucketCount)
      ensures HasRootSteps(cachedRanges.ranges, declaredMin, declaredMax)
      ensures Valid() && added == []
    {
      PlaceExponential();
      ExponentialLayoutIsValid(declaredMin, declaredMax, bucketCount);
      ExponentialHasRootSteps(declaredMin, declaredMax, bucketCount);
      hide ExponentialLayout, IsLayout, Checksum, HasRootSteps;
      NothingTallied(cachedRanges.ranges);
      ResetRangeChecksum();
    }

    method PlaceExponential()
      requires IsBlank() && AreArguments(declaredMin, declaredMax, bucketCount)
      modifies cachedRanges
      ensures cachedRanges.ranges == ExponentialLayout(declaredMin, declaredMax, bucketCount)
    {
      ghost var layout := ExponentialLayout(declaredMin, declaredMax, bucketCount);
      ghost var max: nat := declaredMax;
      assert layout[2..bucketCount] == Boundaries(declaredMin, bucketCount - 2, max);
      assert layout[1] == declaredMin && IsFilled(cachedRanges.ranges, layout, 1);
      FillStep(cachedRanges.ranges, layout, 1);
      var bucketIndex: nat := 1;
      var current: nat := declaredMin;
      SetBucketRange(bucketIndex, current);
      bucketIndex := bucketIndex + 1;
      hide RoundedRoot, ExponentialLayout, Boundaries;
      while bucketCount > bucketIndex
        invariant 2 <= bucketIndex <= bucketCount && 0 < current
        invariant IsFilled(cachedRanges.ranges, layout, bucketIndex)
        invariant Boundaries(current, bucketCount - bucketIndex, max) == layout[bucketIndex..bucketCount]
      {
        hide IsFilled;
        var next := RoundedRoot(current, bucketCount - bucketIndex, declaredMax);
        LayoutStep(layout, bucketIndex, bucketCount, current, max);
        FillStep(cachedRanges.ranges, layout, bucketIndex);
        if next > current {
          current := next;
        } else {
          current := current + 1;
        }
        SetBucketRange(bucketIndex, current);
        bucketIndex := bucketIndex + 1;
      }
      FillDone(cachedRanges.ranges, layout, bucketIndex);
    }

    /** The layout of `LinearHistogram`. */
    method InitializeLinearBucketRange()
      requires IsBlank() && AreArguments(declaredMin, declaredMax, bucketCount)
      modifies this`rangeChecksum, cachedRanges
      ensures cachedRanges.ranges == LinearLayout(declaredMin, declaredMax, bucketCount)
      ensures IsLinear(cachedRanges.ranges, declaredMin, declaredMax)
      ensures Valid() && added == []
    {
      LayoutIsLinear(declaredMin, declaredMax, bucketCount);
      ghost var layout := LinearLayout(declaredMin, declaredMax, bucketCount);
      for i := 1 to bucketCount
        invariant IsFilled(cachedRanges.ranges, layout, i)
      {
        FillStep(cachedRanges.ranges, layout, i);
        SetBucketRange(i, LinearBoundary(declaredMin, declaredMax, bucketCount, i));
      }
      FillDone(cachedRanges.ranges, layout, bucketCount);
      LinearLayoutIsValid(declaredMin, declaredMax, bucketCount);
      NothingTallied(cachedRanges.ranges);
      ResetRangeChecksum();
    }

    /** The layout of `CustomHistogram`; `starts` is the list its factory made. */
    method InitializedCustomBucketRange(ghost customRanges: seq<int>, starts: seq<int>)
      requires IsBlank() && starts == CustomStarts(customRanges) && |starts| == bucketCount
      requires forall i :: 0 <= i < |customRanges| ==> 0 <= customRanges[i] < INT_MAX
      modifies this`rangeChecksum, cachedRanges
      ensures cachedRanges.ranges == CustomLayout(customRanges)
      ensures Valid() && added == []
    {
      ghost var layout := CustomLayout(customRanges);
      for index := 0 to |starts|
        invariant IsFilled(cachedRanges.ranges, layout, index)
      {
        FillStep(cachedRanges.ranges, layout, index);
        SetBucketRange(index, starts[index]);
      }
      FillDone(cachedRanges.ranges, layout, bucketCount);
      CustomLayoutIsValid(customRanges);
      NothingTallied(cachedRanges.ranges);
      ResetRangeChecksum();
    }

    /** Binary search for the bucket of a value. */
    method BucketIndex(value: int) returns (mid: nat)
      requires |cachedRanges.ranges| == bucketCount + 1 && 0 < bucketCount
      requires cachedRanges.ranges[0] <= value < cachedRanges.ranges[bucketCount]
      ensures IsBucketOf(mid, value, cachedRanges.ranges)
    {
      var under, over := 0, bucketCount;
      mid := under + (over - under) / 2;
      while mid != under
        invariant 0 <= under < over <= bucketCount && mid == under + (over - under) / 2
        invariant cachedRanges.ranges[under] <= value < cachedRanges.ranges[over]
        decreases over - under
      {
        if cachedRanges.ranges[mid] <= value {
          under := mid;
        } else {
          over := mid;
        }
        mid := under + (over - under) / 2;
      }
    }

    method Accumulate(value: int, count: int, index: nat)
      requires index < |sample.counts|
      modifies sample
      ensures sample.Value() == old(Samples(sample.counts[index := sample.counts[index] + count],
                                            sample.sum + count * value, sample.redundantCount + count))
    {
      sample.Accumulate(value, count, index);
    }

    /** Counts a sample; the counts are ints and must not overflow. */
    method Add(value: int)
      requires Valid() && |added| < INT_MAX
      modifies this`added, sample
      ensures Valid() && added == old(added) + [ClampSample(value)]
    {
      var sampled := value;
      if sampled > INT_MAX - 1 {
        sampled := INT_MAX - 1;
      }
      if sampled < 0 {
        sampled := 0;
      }
      hide Tallies, Checksum, IsLayout, Increasing;
      LayoutEnds(cachedRanges.ranges);
      var index := BucketIndex(sampled);
      TallyStep(sample.Value(), added, cachedRanges.ranges, sampled, index);
      Accumulate(sampled, 1, index);
      added := added + [sampled];
    }

    /** Adds the samples of another set with the same ranges; the counts are ints and must not
        overflow. */
    method AddSampleSet(other: SampleSet, ghost others: seq<int>)
      requires |added| + |others| <= INT_MAX
      requires Valid() && other != sample && Tallies(other.Value(), others, cachedRanges.ranges)
      requires forall i :: 0 <= i < |others| ==> 0 <= others[i] < INT_MAX
      modifies this`added, sample
      ensures Valid() && added == old(added) + others
    {
      sample.Add(other);
      added := added + others;
      TotalsAdd(old(added), others);
      forall i | 0 <= i < bucketCount
        ensures sample.counts[i] == CountIn(added, cachedRanges.ranges[i], cachedRanges.ranges[i + 1])
      {
        CountsAdd(old(added), others, cachedRanges.ranges[i], cachedRanges.ranges[i + 1]);
      }
    }

    method HasValidRangeChecksum() returns (valid: bool)
      requires 0 < |cachedRanges.ranges| < 0x1_0000_0000
      ensures valid == (Checksum(cachedRanges.ranges) == rangeChecksum)
    {
      var checksum := CalculateRangeChecksum(cachedRanges.ranges);
      return checksum == rangeChecksum;
    }

    method FindCorruption(snapshot: Samples) returns (inconsistencies: set<Inconsistency>)
      requires |snapshot.counts| == bucketCount && |cachedRanges.ranges| == bucketCount + 1
      requires 1 < bucketCount < BUCKET_COUNT_MAX
      ensures forall error :: error in inconsistencies <==> Exhibits(error, cachedRanges.ranges, rangeChecksum, snapshot)
    {
      hide Checksum, Wrap32;
      var inOrder, count := ScanBuckets(cachedRanges.ranges, snapshot.counts);
      inconsistencies := if inOrder then {} else {BucketOrderError};
      var valid := HasValidRangeChecksum();
      if !valid {
        inconsistencies := inconsistencies + {RangeChecksumError};
      }
      var countErrors := CountErrors(snapshot.redundantCount - count);
      inconsistencies := inconsistencies + countErrors;
    }
  }

  /** The loop of `FindCorruption`. */
  method ScanBuckets(ranges: seq<int>, counts: seq<int>) returns (inOrder: bool, count: int)
    requires 0 < |counts| == |ranges| - 1
    ensures inOrder == (0 <= ranges[0] && Increasing(ranges[..|counts|]))
    ensures count == Total(counts)
  {
    inOrder, count := true, 0;
    var previousRange := -1;
    for index := 0 to |counts|
      invariant count == Total(counts[..index])
      invariant previousRange == RangeBefore(ranges, index)
      invariant inOrder == InOrderTo(ranges, index)
    {
      assert counts[..index + 1][..index] == counts[..index];
      count := count + counts[index];
      var newRange := ranges[index];
      if previousRange >= newRange {
        inOrder := false;
      }
      previousRange := newRange;
    }
    assert counts[..|counts|] == counts;
    InOrderToIncreasing(ranges, |counts|);
  }

  /** The part of `FindCorruption` on the difference between the two sample totals. */
  method CountErrors(delta64: int) returns (errors: set<Inconsistency>)
    ensures errors == (if delta64 > 1 || delta64 < -0x8000_0000 then {CountHighError} else {})
                    + (if -0x8000_0000 < delta64 < -1 then {CountLowError} else {})
  {
    errors := {};
    if delta64 != 0 {
      var delta := Wrap32(delta64);
      if delta != delta64 {
        delta := INT_MAX;
      }
      if delta > 0 {
        if delta > 1 {
          errors := {CountHighError};
        }
      } else {
        if Wrap32(-delta) > 1 {
          errors := {CountLowError};
        }
      }
    }
  }

  predicate InOrderTo(ranges: seq<int>, n: nat)
    requires n <= |ranges|
  {
    forall i :: 0 <= i < n ==> RangeBefore(ranges, i) < ranges[i]
  }

  /** The range below bucket `i`; nothing reaches below zero. */
  function RangeBefore(ranges: seq<int>, i: nat): int
    requires i <= |ranges|
  {
    if i == 0 then -1 else ranges[i - 1]
  }

  lemma InOrderToIncreasing(ranges: seq<int>, n: nat)
    requires 0 < n <= |ranges|
    ensures InOrderTo(ranges, n) == (0 <= ranges[0] && Increasing(ranges[..n]))
  {
    var s := ranges[..n];
    assert forall i :: 0 <= i < n ==> s[i] == ranges[i];
    if InOrderTo(ranges, n) {
      assert RangeBefore(ranges, 0) < ranges[0];
      forall i | 0 < i < |s| ensures s[i - 1] < s[i] {
        assert RangeBefore(ranges, i) < ranges[i];
      }
      IncreasingByNeighbours(s);
    }
  }

  /** The inner loop of `WriteAscii`: where a run of empty buckets ends. */
  method LastEmpty(counts: seq<int>, first: nat) returns (i: nat)
    requires first < |counts| && counts[first] == 0
    ensures first <= i < |counts| && forall j :: first <= j <= i ==> counts[j] == 0
    ensures i + 1 < |counts| ==> counts[i + 1] != 0
    ensures Total(counts[..i + 1]) == Total(counts[..first])
    ensures Total(counts[i + 1..]) == Total(counts[first..])
  {
    i := first;
    TotalStep(counts, i);
    while i < |counts| - 1 && counts[i + 1] == 0
      invariant first <= i < |counts|
      invariant forall j :: first <= j <= i ==> counts[j] == 0
      invariant Total(counts[..i + 1]) == Total(counts[..first]) && Total(counts[i + 1..]) == Total(counts[first..])
    {
      i := i + 1;
      TotalStep(counts, i);
    }
  }

  /** The graph of `WriteAscii`.  `printEmpty` tells which empty buckets are printed. */
  method WriteAscii(counts: seq<int>, sampleCount: int, printEmpty: seq<bool>) returns (rows: seq<Row>)
    requires |printEmpty| == |counts| && sampleCount == Total(counts)
    ensures forall k :: 0 <= k < |rows| ==> rows[k].Fits(counts)
    ensures InOrder(rows)
    ensures forall i :: 0 <= i < |counts| && (counts[i] != 0 || printEmpty[i]) ==> IsShown(i, rows)
  {
    hide Total;
    EmptyTotal(counts);
    rows := [];
    var remaining, past := sampleCount, 0;
    var i := 0;
    while i < |counts|
      invariant 0 <= i <= |counts|
      invariant past == Total(counts[..i]) && remaining == Total(counts[i..])
      invariant forall k :: 0 <= k < |rows| ==> rows[k].Fits(counts) && rows[k].Last() < i
      invariant InOrder(rows)
      invariant forall j :: 0 <= j < i && (counts[j] != 0 || printEmpty[j]) ==> IsShown(j, rows)
    {
      var current := counts[i];
      TotalStep(counts, i);
      if current == 0 && !printEmpty[i] {
        i := i + 1;
        continue;
      }
      remaining := remaining - current;
      if current == 0 && i < |counts| - 1 && counts[i + 1] == 0 {
        var first := i;
        i := LastEmpty(counts, first);
        rows := Append(rows, Elided(first, i), first, i);
        i := i + 1;
        continue;
      }
      rows := Append(rows, Bucket(i, past, current, remaining), i, i);
      past := past + current;
      i := i + 1;
    }
  }

  // ---------------------------------------------------------------------------------
  // Construction, as in the `FactoryGet` methods before registration
  // ---------------------------------------------------------------------------------

  method NewExponential(minimum: int, maximum: int, bucketCount: nat) returns (histogram: Histogram)
    requires AreArguments(AtLeastOne(minimum), AtMostLargest(maximum), bucketCount) && bucketCount < BUCKET_COUNT_MAX
    ensures fresh(histogram) && histogram.Valid() && histogram.added == []
    ensures histogram.cachedRanges.ranges ==
            ExponentialLayout(AtLeastOne(minimum), AtMostLargest(maximum), bucketCount)
    ensures HasRootSteps(histogram.cachedRanges.ranges, AtLeastOne(minimum), AtMostLargest(maximum))
  {
    histogram := new Histogram(AtLeastOne(minimum), AtMostLargest(maximum), bucketCount);
    histogram.InitializeBucketRange();
  }

  method NewLinear(minimum: int, maximum: int, bucketCount: nat) returns (histogram: Histogram)
    requires AreArguments(AtLeastOne(minimum), AtMostLargest(maximum), bucketCount) && bucketCount < BUCKET_COUNT_MAX
    ensures fresh(histogram) && histogram.Valid() && histogram.added == []
    ensures histogram.cachedRanges.ranges == LinearLayout(AtLeastOne(minimum), AtMostLargest(maximum), bucketCount)
    ensures IsLinear(histogram.cachedRanges.ranges, AtLeastOne(minimum), AtMostLargest(maximum))
  {
    histogram := new Histogram(AtLeastOne(minimum), AtMostLargest(maximum), bucketCount);
    histogram.InitializeLinearBucketRange();
  }

  method NewCustom(customRanges: seq<int>) returns (histogram: Histogram)
    requires forall i :: 0 <= i < |customRanges| ==> 0 <= customRanges[i] < INT_MAX
    requires |CustomStarts(customRanges)| < BUCKET_COUNT_MAX
    ensures fresh(histogram) && histogram.Valid() && histogram.added == []
    ensures histogram.cachedRanges.ranges == CustomLayout(customRanges)
  {
    CustomStartsCorrect(customRanges);
    var starts := CustomStarts(customRanges);
    histogram := new Histogram(starts[1], starts[|starts| - 1], |starts|);
    histogram.InitializedCustomBucketRange(customRanges, starts);
  }

  // ---------------------------------------------------------------------------------
  // Custom histograms for lists of values
  // ---------------------------------------------------------------------------------

  /** Each value followed by a guard, the value after it. */
  function WithGuards(values: seq<int>): seq<int> {
    if values == [] then []
    else WithGuards(values[..|values| - 1]) + [values[|values| - 1], values[|values| - 1] + 1]
  }

  method ArrayToCustomRanges(values: seq<int>) returns (allValues: seq<int>)
    ensures allValues == WithGuards(values) && |allValues| == 2 * |values|
    ensures forall i :: 0 <= i < |values| ==> allValues[2 * i] == values[i] && allValues[2 * i + 1] == values[i] + 1
  {
    allValues := [];
    for i := 0 to |values|
      invariant allValues == WithGuards(values[..i]) && |allValues| == 2 * i
      invariant forall j :: 0 <= j < i ==> allValues[2 * j] == values[j] && allValues[2 * j + 1] == values[j] + 1
    {
      assert values[..i + 1][..i] == values[..i];
      var value := values[i];
      allValues := allValues + [value];
      allValues := allValues + [value + 1];
    }
    assert values[..|values|] == values;
  }

  lemma {:induction false} GuardHolds(values: seq<int>, v: int)
    ensures v in WithGuards(values) <==> v in values || v - 1 in values
  {
    if values != [] {
      var last := |values| - 1;
      GuardHolds(values[..last], v);
      assert values == values[..last] + [values[last]];
      assert v in values <==> v in values[..last] || v == values[last];
      assert v - 1 in values <==> v - 1 in values[..last] || v - 1 == values[last];
    }
  }

  predicate AreListable(values: seq<int>) {
    forall i :: 0 <= i < |values| ==> 0 <= values[i] <= INT_MAX - 2
  }

  lemma ListedValueHasBucket(values: seq<int>, v: int) returns (i: nat)
    requires AreListable(values) && v in values
    ensures var ranges := CustomLayout(WithGuards(values));
            IsLayout(ranges) && i + 1 < |ranges| && ranges[i] == v && ranges[i + 1] == v + 1
  {
    var guarded := WithGuards(values);
    GuardHolds(values, v);
    GuardHolds(values, v + 1);
    forall k | 0 <= k < |guarded| ensures 0 <= guarded[k] < INT_MAX {
      GuardHolds(values, guarded[k]);
      assert guarded[k] in guarded;
    }
    assert v in guarded && v + 1 in guarded;
    CustomStartsCorrect(guarded);
    CustomLayoutIsValid(guarded);
    var starts, ranges := CustomStarts(guarded), CustomLayout(guarded);
    assert v in starts && v + 1 in starts;
    i :| 0 <= i < |starts| && starts[i] == v;
    var j :| 0 <= j < |starts| && starts[j] == v + 1;
    assert ranges[j] == v + 1 && ranges[i] == v;
  }

  /** Every listed value has a bucket of its own. */
  lemma ListedValueIsAlone(values: seq<int>, v: int, w: int, i: int)
    requires AreListable(values) && v in values
    requires IsBucketOf(i, v, CustomLayout(WithGuards(values))) && IsBucketOf(i, w, CustomLayout(WithGuards(values)))
    ensures w == v
  {
    var j := ListedValueHasBucket(values, v);
    BucketIsUnique(i, j, v, CustomLayout(WithGuards(values)));
  }

  /** The count of that bucket is the number of times the value was added. */
  lemma ListedValueIsCounted(values: seq<int>, v: int, tally: Samples, samples: seq<int>, i: int)
    requires AreListable(values) && v in values && Tallies(tally, samples, CustomLayout(WithGuards(values)))
    requires IsBucketOf(i, v, CustomLayout(WithGuards(values)))
    ensures tally.counts[i] == multiset(samples)[v]
  {
    var j := ListedValueHasBucket(values, v);
    BucketIsUnique(i, j, v, CustomLayout(WithGuards(values)));
    CountOfOne(samples, v);
  }

  lemma {:induction false} CountOfOne(samples: seq<int>, v: int)
    ensures CountIn(samples, v, v + 1) == multiset(samples)[v]
  {
    if samples != [] {
      var last := |samples| - 1;
      CountOfOne(samples[..last], v);
      assert samples == samples[..last] + [samples[last]];
    }
  }
}
