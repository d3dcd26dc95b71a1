// The logarithmic timing histogram and its percentile bound
// (kernel/src/perf_histogram.rs).
module Histogram {

  const U64_MAX: nat := 0xFFFF_FFFF_FFFF_FFFF
  const BUCKETS: nat := 24

  function Pow2(k: nat): (r: nat)
    ensures r >= 1
  {
    if k == 0 then 1 else 2 * Pow2(k - 1)
  }

  function Saturated(n: nat): nat {
    if n > U64_MAX then U64_MAX else n
  }

  function SaturatingAdd(a: nat, b: nat): nat {
    Saturated(a + b)
  }

  // 64 less the leading zeros of a 64-bit word.
  function BitLength(n: nat): nat {
    if n == 0 then 0 else 1 + BitLength(n / 2)
  }

  function BucketOf(us: nat): (k: nat)
    ensures k < BUCKETS
  {
    if us <= 1 then 0
    else if BitLength(us - 1) < 23 then BitLength(us - 1)
    else 23
  }

  lemma {:induction false} BitLengthBound(n: nat, k: nat)
    ensures BitLength(n) <= k <==> n < Pow2(k)
  {
    if n == 0 {
    } else if k == 0 {
    } else {
      BitLengthBound(n / 2, k - 1);
    }
  }

  // Bucket i and those before it hold exactly the samples up to 2^i.
  lemma BucketBound(us: nat, i: nat)
    requires i < 23
    ensures BucketOf(us) <= i <==> us <= Pow2(i)
  {
    if us > 1 { BitLengthBound(us - 1, i); }
  }

  function AtMost(samples: seq<nat>, v: nat): (n: nat)
    ensures n <= |samples|
  {
    if samples == [] then 0
    else AtMost(samples[..|samples| - 1], v) + if samples[|samples| - 1] <= v then 1 else 0
  }

  function CountIn(samples: seq<nat>, k: nat): (n: nat)
    ensures n <= |samples|
  {
    if samples == [] then 0
    else CountIn(samples[..|samples| - 1], k) + if BucketOf(samples[|samples| - 1]) == k then 1 else 0
  }

  function CountBelow(samples: seq<nat>, k: nat): (n: nat)
    ensures n <= |samples|
  {
    if samples == [] then 0
    else CountBelow(samples[..|samples| - 1], k) + if BucketOf(samples[|samples| - 1]) < k then 1 else 0
  }

  lemma {:induction false} CountBelowNext(samples: seq<nat>, k: nat)
    ensures CountBelow(samples, k + 1) == CountBelow(samples, k) + CountIn(samples, k)
    ensures CountBelow(samples, 0) == 0 && CountBelow(samples, BUCKETS) == |samples|
  {
    if samples != [] { CountBelowNext(samples[..|samples| - 1], k); }
  }

  lemma {:induction false} CountBelowIsAtMost(samples: seq<nat>, i: nat)
    requires i < 23
    ensures CountBelow(samples, i + 1) == AtMost(samples, Pow2(i))
  {
    if samples != [] {
      CountBelowIsAtMost(samples[..|samples| - 1], i);
      BucketBound(samples[|samples| - 1], i);
    }
  }

  lemma {:induction false} AtMostGrows(samples: seq<nat>, v: nat, w: nat)
    requires v <= w
    ensures AtMost(samples, v) <= AtMost(samples, w)
  {
    if samples != [] { AtMostGrows(samples[..|samples| - 1], v, w); }
  }

  function Sum(samples: seq<nat>): nat {
    if samples == [] then 0 else Sum(samples[..|samples| - 1]) + samples[|samples| - 1]
  }

  function Largest(samples: seq<nat>): nat {
    if samples == [] then 0
    else
      var rest := Largest(samples[..|samples| - 1]);
      if samples[|samples| - 1] > rest then samples[|samples| - 1] else rest
  }

  // It is one of the samples, if there are any, and none is larger.
  lemma {:induction false} LargestIsMaximum(samples: seq<nat>)
    ensures samples != [] ==> Largest(samples) in samples
    ensures forall k :: 0 <= k < |samples| ==> samples[k] <= Largest(samples)
  {
    if samples != [] {
      var n := |samples| - 1;
      LargestIsMaximum(samples[..n]);
      forall k | 0 <= k < |samples| ensures samples[k] <= Largest(samples) {
        if k < n { assert samples[..n][k] == samples[k]; }
      }
      assert samples[n] in samples;
    }
  }

  lemma {:induction false} AllAtMostLargest(samples: seq<nat>, v: nat)
    requires v >= Largest(samples)
    ensures AtMost(samples, v) == |samples|
  {
    if samples != [] { AllAtMostLargest(samples[..|samples| - 1], v); }
  }

  function Capped(percent: nat): (p: nat)
    ensures p <= 100
  {
    if percent < 100 then percent else 100
  }

  // The rank asked for: the percentage of n samples, rounded up, at least one.
  function Rank(n: nat, percent: nat): (r: nat)
    ensures r >= 1
    ensures n > 0 ==> r <= n
    ensures 100 * r >= n * Capped(percent)
  {
    assert n * Capped(percent) <= n * 100;
    RankOf(n * Capped(percent), n)
  }

  function RankOf(hundredths: nat, n: nat): (r: nat)
    ensures r >= 1 && 100 * r >= hundredths
    ensures n > 0 && hundredths <= 100 * n ==> r <= n
  {
    var r := (hundredths + 99) / 100;
    if r < 1 then 1 else r
  }

  // The rank as the kernel computes it, in saturating 64-bit arithmetic.
  function Target(n: nat, percent: nat): (r: nat)
    ensures r >= 1
    ensures n > 0 ==> r <= n
    ensures n * Capped(percent) + 99 <= U64_MAX ==> r == Rank(n, percent)
  {
    assert n * Capped(percent) <= n * 100;
    TargetOf(n * Capped(percent), n)
  }

  function TargetOf(hundredths: nat, n: nat): (r: nat)
    ensures r >= 1
    ensures n > 0 && hundredths <= 100 * n ==> r <= n
    ensures hundredths + 99 <= U64_MAX ==> r == RankOf(hundredths, n)
  {
    var r := SaturatingAdd(Saturated(hundredths), 99) / 100;
    if r < 1 then 1 else r
  }

  // The bucket in which the rank is reached.
  predicate Reaches(samples: seq<nat>, rank: nat, i: nat) {
    CountBelow(samples, i) < rank <= CountBelow(samples, i + 1)
  }

  function UpperBound(samples: seq<nat>, i: nat): nat {
    if i == 23 then if Largest(samples) > Pow2(23) then Largest(samples) else Pow2(23)
    else Pow2(i)
  }

  // At least `rank` samples are at most the bound; below the overflow bucket and
  // above 1 the bound is less than twice any value with that property, and so
  // less than twice the nearest-rank percentile.
  lemma BoundIsTight(samples: seq<nat>, rank: nat, i: nat, v: nat)
    requires i < BUCKETS && Reaches(samples, rank, i)
    ensures AtMost(samples, UpperBound(samples, i)) >= rank
    ensures 0 < i < 23 && AtMost(samples, v) >= rank ==> UpperBound(samples, i) < 2 * v
  {
    if i == 23 {
      AllAtMostLargest(samples, UpperBound(samples, i));
    } else {
      CountBelowIsAtMost(samples, i);
      if i > 0 && AtMost(samples, v) >= rank {
        CountBelowIsAtMost(samples, i - 1);
        if v <= Pow2(i - 1) { AtMostGrows(samples, v, Pow2(i - 1)); }
      }
    }
  }

  lemma {:induction false} CountBelowGrows(samples: seq<nat>, i: nat, j: nat)
    requires i <= j
    ensures CountBelow(samples, i) <= CountBelow(samples, j)
  {
    if samples != [] { CountBelowGrows(samples[..|samples| - 1], i, j); }
  }

  lemma {:induction false} Pow2Grows(i: nat, j: nat)
    requires i <= j
    ensures Pow2(i) <= Pow2(j)
  {
    if i < j { Pow2Grows(i, j - 1); }
  }

  // A higher rank is reached in no earlier bucket.
  lemma BoundIsMonotone(samples: seq<nat>, low: nat, high: nat, i: nat, j: nat)
    requires low <= high && i < BUCKETS && j < BUCKETS && Reaches(samples, low, i) && Reaches(samples, high, j)
    ensures UpperBound(samples, i) <= UpperBound(samples, j)
  {
    if j < i { CountBelowGrows(samples, j + 1, i); }
    Pow2Grows(i, if i <= j then j else i);
  }

  // At least one sample, and at least this percentage of them, are at most `v`.
  ghost predicate Covers(samples: seq<nat>, percent: nat, v: nat) {
    && AtMost(samples, v) >= 1
    && 100 * AtMost(samples, v) >= |samples| * (if percent < 100 then percent else 100)
  }

  // What the bound of the bucket in which the rank is reached says.
  lemma BoundHolds(samples: seq<nat>, percent: nat, v: nat, i: nat)
    requires i < BUCKETS && Reaches(samples, Rank(|samples|, percent), i)
    ensures var r := UpperBound(samples, i);
            && Covers(samples, percent, r)
            && (1 < r < 0x80_0000 && Covers(samples, percent, v) ==> r < 2 * v)
            && (r > 0x80_0000 ==> samples != [] && r in samples)
            && (r > 0x80_0000 ==> forall k :: 0 <= k < |samples| ==> samples[k] <= r)
  {
    hide Covers, Rank, RankOf, AtMost, Reaches;
    BoundIsTight(samples, Rank(|samples|, percent), i, v);
    CoversByRank(samples, percent, UpperBound(samples, i));
    CoversByRank(samples, percent, v);
    LargestIsMaximum(samples);
    PowersOfTwo();
    hide Pow2, Largest;
    assert i == 0 ==> UpperBound(samples, i) == 1 by { assert Pow2(0) == 1; }
  }

  lemma TargetIsRank(n: nat, percent: nat)
    requires n * Capped(percent) + 99 <= U64_MAX
    ensures Target(n, percent) == Rank(n, percent)
  {
  }

  lemma CoversByRank(samples: seq<nat>, percent: nat, v: nat)
    ensures Covers(samples, percent, v) <==> AtMost(samples, v) >= Rank(|samples|, percent)
  {
    RankIsLeast(|samples| * Capped(percent), |samples|, AtMost(samples, v));
    hide AtMost, RankOf;
  }

  lemma RankIsLeast(hundredths: nat, n: nat, k: nat)
    ensures k >= RankOf(hundredths, n) <==> k >= 1 && 100 * k >= hundredths
  {
  }

  class Histogram {
    var count: nat
    var totalUs: nat
    var maxUs: nat
    const buckets: array<nat>
    // Every duration recorded so far.
    ghost var samples: seq<nat>

    // Every counter is that of the recorded samples as far as 64 bits reach.
    ghost predicate Valid()
      reads this, buckets
    {
      && buckets.Length == BUCKETS
      && count == Saturated(|samples|) && totalUs == Saturated(Sum(samples)) && maxUs == Largest(samples)
      && forall k :: 0 <= k < BUCKETS ==> buckets[k] == Saturated(CountIn(samples, k))
    }

    constructor ()
      ensures Valid() && samples == [] && fresh(buckets)
    {
      count, totalUs, maxUs, samples := 0, 0, 0, [];
      buckets := new nat[BUCKETS](_ => 0);
    }

    method Record(us: nat)
      requires Valid() && us <= U64_MAX
      modifies this, buckets
      ensures Valid() && samples == old(samples) + [us]
    {
      var bucket := BucketOf(us);
      buckets[bucket] := SaturatingAdd(buckets[bucket], 1);
      count := SaturatingAdd(count, 1);
      totalUs := SaturatingAdd(totalUs, us);
      maxUs := if us > maxUs then us else maxUs;
      samples := samples + [us];
      assert samples[..|samples| - 1] == old(samples);
    }

    // The bucket bound in which the rank is reached, 0 without samples. With more
    // samples than 64 bits count, the sum over the buckets could overflow.
    method PercentileUpper(percent: nat) returns (r: nat)
      requires Valid() && |samples| <= U64_MAX
      ensures samples == [] ==> r == 0
      ensures samples != [] ==>
                exists i | 0 <= i < BUCKETS ::
                  Reaches(samples, Target(|samples|, percent), i) && r == UpperBound(samples, i)
    {
      if count == 0 {
        return 0;
      }
      var target := Target(count, percent);
      var seen := 0;
      CountBelowNext(samples, 0);
      for i := 0 to BUCKETS
        invariant seen == CountBelow(samples, i) < target
      {
        CountBelowNext(samples, i);
        seen := seen + buckets[i];
        if seen >= target {
          assert Reaches(samples, target, i);
          return if i == 23 then if maxUs > Pow2(23) then maxUs else Pow2(23) else Pow2(i);
        }
      }
      assert false;
    }

    // The guarantees of the percentile for any samples, while the rank fits in 64
    // bits: at least the percentage of the samples, and at least one, are at most the
    // bound; from 2 up to below 2^23 the bound is less than twice any value of which
    // that is true; above it is the largest sample; and it grows with the percentage.
    method Percentiles(p: nat, q: nat, v: nat) returns (low: nat, high: nat)
      requires Valid() && samples != [] && |samples| <= U64_MAX
      requires p <= q && |samples| * (if q < 100 then q else 100) + 99 <= U64_MAX
      ensures Covers(samples, p, low)
      ensures 1 < low < 0x80_0000 && Covers(samples, p, v) ==> low < 2 * v
      ensures low > 0x80_0000 ==> low in samples && forall k :: 0 <= k < |samples| ==> samples[k] <= low
      ensures low <= high
    {
      hide Covers, Rank, RankOf, AtMost, Reaches, Pow2, Target, UpperBound;
      RankGrows(|samples|, p, q);
      TargetIsRank(|samples|, q);
      TargetIsRank(|samples|, p);
      hide Capped;
      low := PercentileUpper(p);
      high := PercentileUpper(q);
      ghost var i :| 0 <= i < BUCKETS && Reaches(samples, Rank(|samples|, p), i) && low == UpperBound(samples, i);
      ghost var j :| 0 <= j < BUCKETS && Reaches(samples, Rank(|samples|, q), j) && high == UpperBound(samples, j);
      BoundHolds(samples, p, v, i);
      BoundIsMonotone(samples, Rank(|samples|, p), Rank(|samples|, q), i, j);
    }
  }

  lemma PowersOfTwo()
    ensures Pow2(0) == 1 && Pow2(23) == 0x80_0000
    ensures forall i :: 0 <= i <= 23 ==> Pow2(i) <= 0x80_0000
  {
    assert Pow2(12) == 4096;
    assert Pow2(23) == 0x80_0000;
    forall i | 0 <= i <= 23 ensures Pow2(i) <= 0x80_0000 {
      Pow2Grows(i, 23);
    }
  }

  lemma RankGrows(n: nat, p: nat, q: nat)
    requires p <= q
    ensures Rank(n, p) <= Rank(n, q) && n * Capped(p) <= n * Capped(q)
  {
    assert Capped(p) <= Capped(q);
    assert n * Capped(p) <= n * Capped(q);
    RankGrowsWith(n * Capped(p), n * Capped(q), n);
  }

  lemma RankGrowsWith(a: nat, b: nat, n: nat)
    requires a <= b
    ensures RankOf(a, n) <= RankOf(b, n)
  {
  }
}
