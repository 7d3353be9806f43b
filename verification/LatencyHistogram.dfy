/**
  The load generator's latency histogram: bucket counts updated in place, merged
  across workers, and read as nearest-rank percentiles.

  The bucket of a latency is a parameter, monotone and below the number of
  buckets, as the source's linear and logarithmic formula is; so is the upper
  edge of a bucket.
 */
module LatencyHistogram {

  const BUCKETS: nat := 1_300

  type BucketIndex = nat -> nat

  ghost predicate IsBucketIndex(index: BucketIndex) {
    (forall us :: index(us) < BUCKETS) && (forall a, b :: a <= b ==> index(a) <= index(b))
  }

  // What the fields stand for

  ghost function CountIn(samples: seq<nat>, index: BucketIndex, bucket: nat): nat {
    if samples == [] then 0
    else CountIn(samples[..|samples| - 1], index, bucket) + if index(samples[|samples| - 1]) == bucket then 1 else 0
  }

  ghost function Sum(samples: seq<nat>): nat {
    if samples == [] then 0 else Sum(samples[..|samples| - 1]) + samples[|samples| - 1]
  }

  ghost function Max(samples: seq<nat>): nat {
    if samples == [] then 0
    else
      var m := Max(samples[..|samples| - 1]);
      if samples[|samples| - 1] > m then samples[|samples| - 1] else m
  }

  /** Samples in the buckets below `n`. */
  ghost function CountBelow(samples: seq<nat>, index: BucketIndex, n: nat): nat {
    if samples == [] then 0
    else CountBelow(samples[..|samples| - 1], index, n) + if index(samples[|samples| - 1]) < n then 1 else 0
  }

  lemma {:induction false} NextBucket(samples: seq<nat>, index: BucketIndex, n: nat)
    ensures CountBelow(samples, index, n + 1) == CountBelow(samples, index, n) + CountIn(samples, index, n)
  {
    if samples != [] {
      NextBucket(samples[..|samples| - 1], index, n);
    }
  }

  lemma {:induction false} NoBucketsNoSamples(samples: seq<nat>, index: BucketIndex)
    ensures CountBelow(samples, index, 0) == 0
  {
    if samples != [] {
      NoBucketsNoSamples(samples[..|samples| - 1], index);
    }
  }

  /** The counts sum to the total. */
  lemma {:induction false} CountsSumToTotal(samples: seq<nat>, index: BucketIndex)
    requires IsBucketIndex(index)
    ensures CountBelow(samples, index, BUCKETS) == |samples|
  {
    if samples != [] {
      CountsSumToTotal(samples[..|samples| - 1], index);
    }
  }

  lemma {:induction false} Concatenated(a: seq<nat>, b: seq<nat>, index: BucketIndex, bucket: nat)
    ensures CountIn(a + b, index, bucket) == CountIn(a, index, bucket) + CountIn(b, index, bucket)
    ensures Sum(a + b) == Sum(a) + Sum(b)
    ensures Max(a + b) == if Max(a) >= Max(b) then Max(a) else Max(b)
    decreases |b|
  {
    var all := a + b;
    if b == [] {
      assert all == a;
    } else {
      assert all[..|all| - 1] == a + b[..|b| - 1] && all[|all| - 1] == b[|b| - 1];
      Concatenated(a, b[..|b| - 1], index, bucket);
    }
  }

  lemma WithoutOne(b: seq<nat>, j: nat, index: BucketIndex, bucket: nat)
    requires j < |b|
    ensures var rest := b[..j] + b[j + 1..];
            && multiset(b) == multiset(rest) + multiset{b[j]}
            && CountIn(b, index, bucket) == CountIn(rest, index, bucket) + CountIn([b[j]], index, bucket)
            && Sum(b) == Sum(rest) + b[j]
            && Max(b) == if Max(rest) >= b[j] then Max(rest) else b[j]
  {
    var left, x, right := b[..j], [b[j]], b[j + 1..];
    assert b == left + (x + right);
    assert Sum(x) == b[j] && Max(x) == b[j] by { assert x[..0] == []; }
    Concatenated(left, right, index, bucket);
    Concatenated(x, right, index, bucket);
    Concatenated(left, x + right, index, bucket);
  }

  lemma SameWithoutOne(m: multiset<nat>, n: multiset<nat>, x: nat)
    requires m + multiset{x} == n + multiset{x}
    ensures m == n
  {
    assert m == (m + multiset{x}) - multiset{x};
    assert n == (n + multiset{x}) - multiset{x};
  }

  /** A histogram depends on its samples and not on their order: workers may be merged in any. */
  lemma {:induction false} OrderIsIrrelevant(a: seq<nat>, b: seq<nat>, index: BucketIndex, bucket: nat)
    requires multiset(a) == multiset(b)
    ensures |a| == |b| && CountIn(a, index, bucket) == CountIn(b, index, bucket)
    ensures Sum(a) == Sum(b) && Max(a) == Max(b)
    decreases |a|
  {
    hide CountIn, Sum, Max;
    assert |a| == |multiset(a)| == |multiset(b)| == |b|;
    if a == [] {
      assert b == [];
    } else {
      assert a[0] in multiset(b);
      var j :| 0 <= j < |b| && b[j] == a[0];
      WithoutOne(a, 0, index, bucket);
      WithoutOne(b, j, index, bucket);
      SameWithoutOne(multiset(a[..0] + a[1..]), multiset(b[..j] + b[j + 1..]), a[0]);
      OrderIsIrrelevant(a[..0] + a[1..], b[..j] + b[j + 1..], index, bucket);
    }
  }

  // Nearest rank

  ghost function AtMost(samples: seq<nat>, v: nat): nat {
    if samples == [] then 0 else AtMost(samples[..|samples| - 1], v) + if samples[|samples| - 1] <= v then 1 else 0
  }

  ghost function LessThan(samples: seq<nat>, v: nat): nat {
    if samples == [] then 0 else LessThan(samples[..|samples| - 1], v) + if samples[|samples| - 1] < v then 1 else 0
  }

  /** `v` is the sample of rank `k` in ascending order. */
  ghost predicate IsRank(samples: seq<nat>, k: nat, v: nat) {
    v in samples && LessThan(samples, v) < k <= AtMost(samples, v)
  }

  lemma {:induction false} AtMostBounded(samples: seq<nat>, v: nat)
    ensures AtMost(samples, v) <= |samples|
    ensures AtMost(samples, Max(samples)) == |samples|
  {
    if samples != [] {
      var front := samples[..|samples| - 1];
      AtMostBounded(front, v);
      AtMostGrows(front, Max(front), Max(samples));
      AtMostBounded(front, Max(samples));
    }
  }

  lemma {:induction false} AtMostGrows(samples: seq<nat>, v: nat, w: nat)
    requires v <= w
    ensures AtMost(samples, v) <= AtMost(samples, w)
  {
    if samples != [] {
      AtMostGrows(samples[..|samples| - 1], v, w);
    }
  }

  lemma {:induction false} LessThanNext(samples: seq<nat>, v: nat)
    ensures LessThan(samples, v + 1) == AtMost(samples, v)
    ensures LessThan(samples, 0) == 0
    ensures LessThan(samples, v) < AtMost(samples, v) ==> v in samples
    ensures LessThan(samples, v) <= AtMost(samples, v)
  {
    if samples != [] {
      LessThanNext(samples[..|samples| - 1], v);
    }
  }

  /** Every rank among the samples is held by one of them. */
  lemma RankExists(samples: seq<nat>, k: nat) returns (v: nat)
    requires 1 <= k <= |samples|
    ensures IsRank(samples, k, v)
  {
    AtMostBounded(samples, 0);
    v := RankUpTo(samples, k, Max(samples));
  }

  lemma {:induction false} RankUpTo(samples: seq<nat>, k: nat, bound: nat) returns (v: nat)
    requires 1 <= k <= AtMost(samples, bound)
    ensures IsRank(samples, k, v)
    decreases bound
  {
    LessThanNext(samples, bound);
    if LessThan(samples, bound) < k {
      v := bound;
    } else {
      LessThanNext(samples, bound - 1);
      v := RankUpTo(samples, k, bound - 1);
    }
  }

  lemma NoRankBeyond(samples: seq<nat>, k: nat)
    requires k > |samples|
    ensures forall v :: !IsRank(samples, k, v)
  {
    forall v
      ensures AtMost(samples, v) <= |samples|
    {
      AtMostBounded(samples, v);
    }
  }

  lemma {:induction false} MaxIsUpperBound(samples: seq<nat>, v: nat)
    requires v in samples
    ensures v <= Max(samples)
  {
    if v != samples[|samples| - 1] {
      MaxIsUpperBound(samples[..|samples| - 1], v);
    }
  }

  /** The maximum kept is the largest sample. */
  lemma {:induction false} MaxIsLargest(samples: seq<nat>)
    requires samples != []
    ensures Max(samples) in samples && forall v :: v in samples ==> v <= Max(samples)
  {
    var front := samples[..|samples| - 1];
    assert samples == front + [samples[|samples| - 1]];
    if front != [] {
      MaxIsLargest(front);
    }
  }

  function MinReal(a: real, b: real): real {
    if a <= b then a else b
  }

  function Ceil(x: real): int {
    -((-x).Floor)
  }

  /** The nearest rank of a percentile among `n` samples: the least one that covers its share, at least the first. */
  function Rank(p: real, n: nat): (rank: nat)
    ensures rank >= 1 && rank as real >= p / 100.0 * n as real
    ensures rank > 1 ==> (rank - 1) as real < p / 100.0 * n as real
    ensures p <= 100.0 && n >= 1 ==> rank <= n
  {
    var target := Ceil(p / 100.0 * n as real);
    assert p <= 100.0 ==> p / 100.0 * n as real <= n as real;
    if target < 1 then 1 else target
  }

  lemma {:induction false} CountBelowBounded(samples: seq<nat>, index: BucketIndex, n: nat)
    ensures CountBelow(samples, index, n) <= |samples|
  {
    if samples != [] {
      CountBelowBounded(samples[..|samples| - 1], index, n);
    }
  }

  lemma {:induction false} BucketsSurroundValue(samples: seq<nat>, index: BucketIndex, v: nat)
    requires IsBucketIndex(index)
    ensures CountBelow(samples, index, index(v)) <= LessThan(samples, v)
    ensures AtMost(samples, v) <= CountBelow(samples, index, index(v) + 1)
  {
    if samples != [] {
      BucketsSurroundValue(samples[..|samples| - 1], index, v);
    }
  }

  lemma {:induction false} CountBelowGrows(samples: seq<nat>, index: BucketIndex, m: nat, n: nat)
    requires m <= n
    ensures CountBelow(samples, index, m) <= CountBelow(samples, index, n)
  {
    if samples != [] {
      CountBelowGrows(samples[..|samples| - 1], index, m, n);
    }
  }

  /** The bucket where the running count reaches the rank holds the sample of that rank. */
  lemma RankInBucket(samples: seq<nat>, index: BucketIndex, k: nat, v: nat, bucket: nat)
    requires IsBucketIndex(index) && IsRank(samples, k, v)
    requires CountBelow(samples, index, bucket) < k <= CountBelow(samples, index, bucket + 1)
    ensures bucket == index(v)
  {
    BucketsSurroundValue(samples, index, v);
    if bucket < index(v) {
      CountBelowGrows(samples, index, bucket + 1, index(v));
    } else if bucket > index(v) {
      CountBelowGrows(samples, index, index(v) + 1, bucket);
    }
  }

  /** The recorder of latencies. */
  class Histogram {
    var counts: array<nat>
    var total: nat
    var sumUs: nat
    var maxUs: nat
    const index: BucketIndex
    ghost var samples: seq<nat>

    ghost predicate Valid()
      reads this, counts
    {
      && counts.Length == BUCKETS && IsBucketIndex(index)
      && total == |samples| && sumUs == Sum(samples) && maxUs == Max(samples)
      && forall i :: 0 <= i < BUCKETS ==> counts[i] == CountIn(samples, index, i)
    }

    constructor (index: BucketIndex)
      requires IsBucketIndex(index)
      ensures Valid() && fresh(counts) && this.index == index && samples == []
    {
      counts := new nat[BUCKETS](_ => 0);
      total, sumUs, maxUs := 0, 0, 0;
      this.index := index;
      samples := [];
    }

    /** One latency, in microseconds. */
    method Record(us: nat)
      requires Valid()
      modifies this, counts
      ensures Valid() && counts == old(counts)
      ensures samples == old(samples) + [us]
    {
      counts[index(us)] := counts[index(us)] + 1;
      total := total + 1;
      sumUs := sumUs + us;
      maxUs := if us > maxUs then us else maxUs;
      samples := samples + [us];
      assert samples[..|samples| - 1] == old(samples);
    }

    /** Another worker's histogram added to this one. */
    method Merge(other: Histogram)
      requires Valid() && other.Valid() && other.index == index
      requires other != this && other.counts != counts
      modifies this, counts
      ensures Valid() && other.Valid() && counts == old(counts)
      ensures samples == old(samples) + other.samples
    {
      ghost var mine, theirs := samples, other.samples;
      var i := 0;
      while i < BUCKETS
        invariant 0 <= i <= BUCKETS && counts == old(counts) && counts.Length == BUCKETS
        invariant samples == mine && total == |mine| && sumUs == Sum(mine) && maxUs == Max(mine)
        invariant forall k :: 0 <= k < i ==> counts[k] == CountIn(mine, index, k) + CountIn(theirs, index, k)
        invariant forall k :: i <= k < BUCKETS ==> counts[k] == CountIn(mine, index, k)
        invariant other.Valid() && other.samples == theirs
      {
        counts[i] := counts[i] + other.counts[i];
        i := i + 1;
      }
      total := total + other.total;
      sumUs := sumUs + other.sumUs;
      maxUs := if other.maxUs > maxUs then other.maxUs else maxUs;
      samples := mine + theirs;
      forall k | 0 <= k < BUCKETS
        ensures CountIn(samples, index, k) == CountIn(mine, index, k) + CountIn(theirs, index, k)
      {
        Concatenated(mine, theirs, index, k);
      }
      Concatenated(mine, theirs, index, 0);
    }

    /**
      The bucket of a percentile: for a rank among the samples, the bucket of
      the nearest-rank sample; beyond them, none.
     */
    method BucketAtRank(target: nat) returns (bucket: nat)
      requires Valid() && target >= 1
      ensures bucket == BUCKETS <==> target > |samples|
      ensures bucket <= BUCKETS
      ensures forall v :: IsRank(samples, target, v) ==> bucket == index(v)
    {
      var seen := 0;
      bucket := 0;
      NoBucketsNoSamples(samples, index);
      while bucket < BUCKETS
        invariant 0 <= bucket <= BUCKETS
        invariant seen == CountBelow(samples, index, bucket) < target
      {
        NextBucket(samples, index, bucket);
        seen := seen + counts[bucket];
        if seen >= target {
          CountBelowBounded(samples, index, bucket + 1);
          forall v | IsRank(samples, target, v)
            ensures bucket == index(v)
          {
            RankInBucket(samples, index, target, v, bucket);
          }
          return;
        }
        bucket := bucket + 1;
      }
      CountsSumToTotal(samples, index);
      NoRankBeyond(samples, target);
    }

    /**
      The percentile: the upper edge of the nearest-rank sample's bucket, cut at
      the largest sample. Where the edge covers the sample, the answer lies
      between that sample and the largest one.
     */
    method PercentileMs(p: real, upper: nat -> real) returns (ms: real)
      requires Valid()
      ensures samples == [] ==> ms == 0.0
      ensures samples != [] && Rank(p, |samples|) > |samples| ==> ms == maxUs as real / 1000.0
      ensures forall v :: IsRank(samples, Rank(p, |samples|), v) ==>
        && ms == MinReal(upper(index(v)), maxUs as real) / 1000.0
        && ms <= maxUs as real / 1000.0
        && (upper(index(v)) >= v as real ==> v as real / 1000.0 <= ms)
    {
      if total == 0 {
        return 0.0;
      }
      var target := Rank(p, total);
      var bucket := BucketAtRank(target);
      if bucket == BUCKETS {
        NoRankBeyond(samples, target);
        return maxUs as real / 1000.0;
      }
      forall v | v in samples
        ensures v <= maxUs
      {
        MaxIsUpperBound(samples, v);
      }
      ms := MinReal(upper(bucket), maxUs as real) / 1000.0;
    }
  }
}
