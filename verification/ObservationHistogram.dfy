/**
 Histograms, their snapshots, quantiles and windows, each against the plain sequence of values
 recorded. Counters are uint64 and wrap.
 */
module ObservationHistogram {
  import opened ObservationBuckets
  import opened Words

  function Wrap(n: nat): u64 { n % U64 }

  /** The difference, or zero. */
  function Minus(later: u64, earlier: u64): u64 { if later >= earlier then later - earlier else 0 }

  /** std::array of the bucket count. */
  predicate Sized(buckets: seq<u64>) { |buckets| == BUCKETS }

  function UpperBound(b: nat): u64
    requires b < BUCKETS
  {
    BoundsFit(b);
    Upper(b)
  }

  // A sequence of values

  function CountIn(values: seq<u64>, b: nat): nat
  {
    if values == [] then 0
    else CountIn(values[..|values| - 1], b) + if Bucket(values[|values| - 1]) == b then 1 else 0
  }

  function CountAtMost(values: seq<u64>, bound: int): nat
  {
    if values == [] then 0
    else CountAtMost(values[..|values| - 1], bound) + if values[|values| - 1] <= bound then 1 else 0
  }

  function SumOf(values: seq<u64>): nat
  {
    if values == [] then 0 else SumOf(values[..|values| - 1]) + values[|values| - 1]
  }

  function MaxOf(values: seq<u64>): u64
  {
    if values == [] then 0 else Max(MaxOf(values[..|values| - 1]), values[|values| - 1])
  }

  // The histogram

  datatype Histogram = Histogram(buckets: seq<u64>, sum: u64, max: u64)

  function NoCounts(): seq<u64> { seq(BUCKETS, _ => 0) }

  const EMPTY := Histogram(NoCounts(), 0, 0)

  function Recorded(h: Histogram, v: u64): (r: Histogram)
    requires Sized(h.buckets)
    ensures Sized(r.buckets)
  {
    BucketInRange(v);
    Histogram(h.buckets[Bucket(v) := Add64(h.buckets[Bucket(v)], 1)], Add64(h.sum, v), Max(h.max, v))
  }

  /** The histogram after these values, fewer than 2^64 of them. */
  ghost predicate Holds(h: Histogram, values: seq<u64>)
  {
    && |values| < U64 && Sized(h.buckets)
    && (forall b | 0 <= b < BUCKETS :: h.buckets[b] == CountIn(values, b))
    && h.sum == Wrap(SumOf(values))
    && h.max == MaxOf(values)
  }

  lemma {:induction false} CountInBounded(values: seq<u64>, b: nat)
    ensures CountIn(values, b) <= |values|
  {
    if values != [] {
      CountInBounded(values[..|values| - 1], b);
    }
  }

  lemma RecordedHolds(h: Histogram, values: seq<u64>, v: u64)
    requires Holds(h, values) && |values| + 1 < U64
    ensures Holds(Recorded(h, v), values + [v])
  {
    var more := values + [v];
    assert more[..|more| - 1] == values;
    BucketInRange(v);
    CountInBounded(values, Bucket(v));
    WrappedSum(SumOf(values), v);
  }

  lemma WrappedSum(sum: nat, v: u64)
    ensures Wrap(sum + v) == Add64(Wrap(sum), v)
  {
  }

  // Snapshots

  datatype Snapshot = Snapshot(buckets: seq<u64>, count: u64, sum: u64, max: u64)

  /** The running total over the first n buckets. */
  function Seen(buckets: seq<u64>, n: nat): u64
    requires n <= |buckets|
  {
    if n == 0 then 0 else Add64(Seen(buckets, n - 1), buckets[n - 1])
  }

  function SnapshotOf(h: Histogram): Snapshot { Snapshot(h.buckets, Seen(h.buckets, |h.buckets|), h.sum, h.max) }

  const NOTHING := Snapshot(NoCounts(), 0, 0, 0)

  /** The snapshot counts these values, bucket by bucket and together. */
  ghost predicate Tallies(s: Snapshot, values: seq<u64>)
  {
    && |values| < U64 && Sized(s.buckets)
    && (forall b | 0 <= b < BUCKETS :: s.buckets[b] == CountIn(values, b))
    && s.count == |values|
  }

  /** And its max is a bound for them. */
  ghost predicate Counts(s: Snapshot, values: seq<u64>) { Tallies(s, values) && MaxOf(values) <= s.max }

  /** Values in the first n buckets. */
  function Below(values: seq<u64>, n: nat): nat
  {
    if n == 0 then 0 else Below(values, n - 1) + CountIn(values, n - 1)
  }

  lemma {:induction false} BelowLast(values: seq<u64>, n: nat)
    requires values != []
    ensures Below(values, n) == Below(values[..|values| - 1], n) + if Bucket(values[|values| - 1]) < n then 1 else 0
    decreases n
  {
    if n > 0 {
      BelowLast(values, n - 1);
    }
  }

  lemma {:induction false} BelowIsAtMost(values: seq<u64>, b: nat)
    requires b < BUCKETS
    ensures Below(values, b + 1) == CountAtMost(values, Upper(b))
    decreases |values|
  {
    if values == [] {
      BelowNothing(b + 1);
    } else {
      BelowLast(values, b + 1);
      BelowIsAtMost(values[..|values| - 1], b);
      AtMostUpper(values[|values| - 1], b);
    }
  }

  lemma {:induction false} BelowNothing(n: nat)
    ensures Below([], n) == 0
  {
    if n > 0 {
      BelowNothing(n - 1);
    }
  }

  lemma {:induction false} CountAtMostBounded(values: seq<u64>, bound: int)
    ensures CountAtMost(values, bound) <= |values|
    ensures (forall i | 0 <= i < |values| :: values[i] <= bound) ==> CountAtMost(values, bound) == |values|
  {
    if values != [] {
      CountAtMostBounded(values[..|values| - 1], bound);
    }
  }

  /** No running total wraps, and each is a count of values. */
  lemma {:induction false} SeenCounts(buckets: seq<u64>, values: seq<u64>, n: nat)
    requires Sized(buckets) && |values| < U64 && n <= BUCKETS
    requires forall b | 0 <= b < BUCKETS :: buckets[b] == CountIn(values, b)
    ensures Seen(buckets, n) == Below(values, n) <= |values|
  {
    if n > 0 {
      SeenCounts(buckets, values, n - 1);
      BelowIsAtMost(values, n - 1);
      CountAtMostBounded(values, Upper(n - 1));
    }
  }

  lemma SeenAll(buckets: seq<u64>, values: seq<u64>)
    requires Sized(buckets) && |values| < U64
    requires forall b | 0 <= b < BUCKETS :: buckets[b] == CountIn(values, b)
    ensures Seen(buckets, BUCKETS) == |values|
  {
    SeenCounts(buckets, values, BUCKETS);
    BelowIsAtMost(values, BUCKETS - 1);
    BucketsContiguous(BUCKETS - 1);
    CountAtMostBounded(values, Upper(BUCKETS - 1));
  }

  lemma SnapshotCounts(h: Histogram, values: seq<u64>)
    requires Holds(h, values)
    ensures Counts(SnapshotOf(h), values)
  {
    SeenAll(h.buckets, values);
  }

  // Quantiles

  /** The rank asked for, with q * count taken exactly. */
  function Rank(q: real, count: u64): (rank: u64)
    requires count > 0
    ensures 1 <= rank <= count
  {
    var clamped := if q < 0.0 then 0.0 else if q > 1.0 then 1.0 else q;
    var product := clamped * count as real;
    var wanted := if product == product.Floor as real then product.Floor else product.Floor + 1;
    if wanted < 1 then 1 else if wanted > count then count else wanted
  }

  /** The scan of `quantile` from bucket b, with `seen` values passed. */
  function Scan(s: Snapshot, rank: u64, b: nat, seen: u64): u64
    requires Sized(s.buckets) && b <= BUCKETS
    decreases BUCKETS - b
  {
    if b == BUCKETS then s.max
    else if Add64(seen, s.buckets[b]) >= rank then Min(UpperBound(b), s.max)
    else Scan(s, rank, b + 1, Add64(seen, s.buckets[b]))
  }

  function Quantile(s: Snapshot, q: real): u64
    requires Sized(s.buckets)
  {
    if s.count == 0 then 0 else Scan(s, Rank(q, s.count), 0, 0)
  }

  predicate Sorted(ys: seq<u64>) { forall i, j | 0 <= i < j < |ys| :: ys[i] <= ys[j] }

  lemma {:induction false} SortedCount(ys: seq<u64>, bound: int, rank: nat)
    requires Sorted(ys) && 1 <= rank <= |ys|
    ensures CountAtMost(ys, bound) >= rank <==> ys[rank - 1] <= bound
    decreases |ys|
  {
    CountAtMostBounded(ys[..|ys| - 1], bound);
    if ys[|ys| - 1] > bound && rank < |ys| {
      SortedCount(ys[..|ys| - 1], bound, rank);
    }
  }

  lemma {:induction false} CountConcat(a: seq<u64>, c: seq<u64>, bound: int)
    ensures CountAtMost(a + c, bound) == CountAtMost(a, bound) + CountAtMost(c, bound)
    decreases |c|
  {
    if c == [] {
      assert a + c == a;
    } else {
      CountConcat(a, c[..|c| - 1], bound);
      assert (a + c)[..|a + c| - 1] == a + c[..|c| - 1];
    }
  }

  lemma SameRest(rest: seq<u64>, v: u64, before: seq<u64>, after: seq<u64>)
    requires multiset(rest + [v]) == multiset(before + [v] + after)
    ensures multiset(rest) == multiset(before + after)
  {
    var one := multiset([v]);
    assert multiset(rest) + one == multiset(before) + one + multiset(after);
    assert multiset(rest) == multiset(rest) + one - one == multiset(before) + multiset(after);
  }

  lemma {:induction false} CountPermuted(values: seq<u64>, ys: seq<u64>, bound: int)
    requires multiset(values) == multiset(ys)
    ensures CountAtMost(values, bound) == CountAtMost(ys, bound)
    decreases |values|
  {
    if values == [] {
      assert |multiset(ys)| == |ys|;
    } else {
      var rest, v := values[..|values| - 1], values[|values| - 1];
      assert values == rest + [v];
      assert v in multiset(ys);
      var i :| 0 <= i < |ys| && ys[i] == v;
      var before, after := ys[..i], ys[i + 1..];
      assert ys == before + [v] + after;
      SameRest(rest, v, before, after);
      CountPermuted(rest, before + after, bound);
      CountConcat(before + [v], after, bound);
      CountConcat(before, [v], bound);
      CountConcat(before, after, bound);
      CountConcat(rest, [v], bound);
    }
  }

  /** The scan stops at the first bucket whose running total reaches the rank. */
  lemma {:induction false} ScanStops(s: Snapshot, rank: u64, b: nat, stop: nat)
    requires Sized(s.buckets) && b <= stop < BUCKETS
    requires Seen(s.buckets, stop + 1) >= rank
    requires forall n | 0 <= n <= stop :: Seen(s.buckets, n) < rank
    ensures Scan(s, rank, b, Seen(s.buckets, b)) == Min(UpperBound(stop), s.max)
    decreases stop - b
  {
    if b < stop {
      assert Seen(s.buckets, b + 1) < rank;
      ScanStops(s, rank, b + 1, stop);
    }
  }

  /** The scan stops in the bucket of the rank-th smallest value. */
  lemma ScanFinds(s: Snapshot, values: seq<u64>, ys: seq<u64>, rank: u64)
    requires Tallies(s, values) && Sorted(ys) && multiset(ys) == multiset(values) && 1 <= rank <= |ys|
    ensures Bucket(ys[rank - 1]) < BUCKETS
    ensures Scan(s, rank, 0, 0) == Min(UpperBound(Bucket(ys[rank - 1])), s.max)
  {
    var x := ys[rank - 1];
    BucketInRange(x);
    var b := Bucket(x);
    forall n | 0 <= n <= b + 1
      ensures Seen(s.buckets, n) >= rank <==> n == b + 1
    {
      SeenCounts(s.buckets, values, n);
      if n > 0 {
        BelowIsAtMost(values, n - 1);
        CountPermuted(values, ys, Upper(n - 1));
        SortedCount(ys, Upper(n - 1), rank);
        AtMostUpper(x, n - 1);
      }
    }
    ScanStops(s, rank, 0, b);
  }

  lemma {:induction false} MaxOfBounds(values: seq<u64>, i: nat)
    requires i < |values|
    ensures values[i] <= MaxOf(values)
  {
    if i < |values| - 1 {
      MaxOfBounds(values[..|values| - 1], i);
    }
  }

  lemma {:induction false} SortedOf(values: seq<u64>) returns (ys: seq<u64>)
    ensures Sorted(ys) && multiset(ys) == multiset(values)
  {
    if values == [] {
      ys := [];
    } else {
      var rest, v := values[..|values| - 1], values[|values| - 1];
      assert values == rest + [v];
      var zs := SortedOf(rest);
      ys := Inserted(zs, v);
    }
  }

  lemma {:induction false} Inserted(zs: seq<u64>, v: u64) returns (ys: seq<u64>)
    requires Sorted(zs)
    ensures Sorted(ys) && multiset(ys) == multiset(zs) + multiset{v}
    ensures forall y | y in ys :: y in zs || y == v
    decreases |zs|
  {
    if zs == [] || zs[|zs| - 1] <= v {
      ys := zs + [v];
    } else {
      var rest, last := zs[..|zs| - 1], zs[|zs| - 1];
      assert zs == rest + [last];
      var less := Inserted(rest, v);
      assert forall i | 0 <= i < |less| :: less[i] in less;
      ys := less + [last];
    }
  }

  /**
   The value at a quantile: at least that share of the values are at or below it, and fewer are
   strictly below. A quantile of zero or less is the least value, one beyond 1 is that of 1.
   */
  ghost predicate AtQuantile(values: seq<u64>, q: real, x: u64)
  {
    && x in values
    && (q <= 0.0 ==> CountAtMost(values, x - 1) == 0)
    && (q > 0.0 ==>
          CountAtMost(values, x) as real >= Wanted(q, |values|) > CountAtMost(values, x - 1) as real)
  }

  /** The share of so many values. */
  function Wanted(q: real, count: nat): real { (if q > 1.0 then 1.0 else q) * count as real }

  lemma RankPlace(q: real, count: u64)
    requires count > 0
    ensures q <= 0.0 ==> Rank(q, count) == 1
    ensures q > 0.0 ==> Rank(q, count) as real >= Wanted(q, count) > (Rank(q, count) - 1) as real
  {
    if 0.0 < q <= 1.0 {
      var product := q * count as real;
      assert 0.0 < product <= count as real;
    }
  }

  /** The value of the rank asked for is at the quantile. */
  lemma RankedAtQuantile(values: seq<u64>, ys: seq<u64>, q: real)
    requires values != [] && |values| < U64 && Sorted(ys) && multiset(ys) == multiset(values)
    ensures |ys| == |values| && AtQuantile(values, q, ys[Rank(q, |values|) - 1])
  {
    hide Rank, Wanted, CountAtMost, Sorted;
    assert |multiset(ys)| == |multiset(values)| == |ys| == |values|;
    var rank := Rank(q, |values|);
    var x: int := ys[rank - 1];
    RankPlace(q, |values|);
    assert ys[rank - 1] in multiset(values);
    CountPermuted(values, ys, x);
    CountPermuted(values, ys, x - 1);
    SortedCount(ys, x, rank);
    SortedCount(ys, x - 1, rank);
  }

  lemma {:induction false} CountAtMostGrows(values: seq<u64>, a: int, b: int)
    requires a <= b
    ensures CountAtMost(values, a) <= CountAtMost(values, b)
  {
    if values != [] {
      CountAtMostGrows(values[..|values| - 1], a, b);
    }
  }

  lemma {:induction false} CountsItself(values: seq<u64>, x: u64)
    requires x in values
    ensures CountAtMost(values, x) > 0
  {
    if x in values[..|values| - 1] {
      CountsItself(values[..|values| - 1], x);
    }
  }

  /** Only one value is. */
  lemma QuantileUnique(values: seq<u64>, q: real, x: u64, y: u64)
    requires AtQuantile(values, q, x) && AtQuantile(values, q, y)
    ensures x == y
  {
    NotBelow(values, q, x, y);
    NotBelow(values, q, y, x);
  }

  lemma NotBelow(values: seq<u64>, q: real, x: u64, y: u64)
    requires AtQuantile(values, q, x) && AtQuantile(values, q, y)
    ensures y <= x
  {
    if x < y {
      CountAtMostGrows(values, x, y - 1);
      CountsItself(values, x);
    }
  }

  lemma QuantileExists(values: seq<u64>, q: real) returns (x: u64)
    requires values != [] && |values| < U64
    ensures AtQuantile(values, q, x)
  {
    var ys := SortedOf(values);
    RankedAtQuantile(values, ys, q);
    x := ys[Rank(q, |values|) - 1];
  }

  /**
   A quantile is the upper bound of its value's bucket or the max, whichever is less: at most an
   eighth above the value, and at least the value exactly when max is.
   */
  lemma QuantileBounds(s: Snapshot, values: seq<u64>, q: real, x: u64)
    requires Tallies(s, values) && AtQuantile(values, q, x)
    ensures Bucket(x) < BUCKETS && Quantile(s, q) == Min(Upper(Bucket(x)), s.max)
    ensures Quantile(s, q) <= x + x / 8 && (x <= Quantile(s, q) <==> x <= s.max)
  {
    var ys := SortedOf(values);
    RankedAtQuantile(values, ys, q);
    QuantileUnique(values, q, x, ys[Rank(q, |values|) - 1]);
    hide AtQuantile, Rank;
    ScanFinds(s, values, ys, Rank(q, s.count));
    BucketInRange(x);
    BucketWidth(Bucket(x));
  }

  /** With a max that bounds the values, any quantile is at least its value and at most an eighth above it. */
  lemma QuantileAccuracy(s: Snapshot, values: seq<u64>, q: real, x: u64)
    requires Counts(s, values) && AtQuantile(values, q, x)
    ensures x <= Quantile(s, q) <= x + x / 8
  {
    hide Quantile;
    QuantileBounds(s, values, q, x);
    var i :| 0 <= i < |values| && values[i] == x;
    MaxOfBounds(values, i);
  }

  /** The upper bound of the bucket of the largest value. */
  function TopBound(values: seq<u64>): u64
  {
    if values == [] then 0 else BucketInRange(MaxOf(values)); UpperBound(Bucket(MaxOf(values)))
  }

  /** quantile(1.0) is max exactly when max is no higher than the bucket of the largest value. */
  lemma QuantileOfOneExact(s: Snapshot, values: seq<u64>)
    requires Tallies(s, values)
    ensures Quantile(s, 1.0) == s.max <==> s.max <= TopBound(values)
  {
    if values != [] {
      var ys := SortedOf(values);
      assert |multiset(ys)| == |multiset(values)| == |ys| == |values|;
      assert 1.0 * s.count as real == s.count as real;
      assert Rank(1.0, s.count) == s.count;
      ScanFinds(s, values, ys, s.count);
      LastIsMax(ys, values);
    }
  }

  lemma {:induction false} MaxIsThere(values: seq<u64>)
    requires values != []
    ensures MaxOf(values) in values
  {
    if |values| > 1 {
      MaxIsThere(values[..|values| - 1]);
    }
  }

  lemma LastIsMax(ys: seq<u64>, values: seq<u64>)
    requires Sorted(ys) && multiset(ys) == multiset(values) && values != [] && ys != []
    ensures ys[|ys| - 1] == MaxOf(values)
  {
    var last := ys[|ys| - 1];
    assert last in multiset(values);
    var i :| 0 <= i < |values| && values[i] == last;
    MaxOfBounds(values, i);
    MaxIsThere(values);
    assert MaxOf(values) in multiset(ys);
    var j :| 0 <= j < |ys| && ys[j] == MaxOf(values);
  }

  // Windows

  /** The last non-empty bucket among the first n; n itself when there is none. */
  function Highest(buckets: seq<u64>, n: nat): (b: nat)
    requires n <= |buckets|
    ensures b < n ==> buckets[b] != 0 && forall i | b < i < n :: buckets[i] == 0
    ensures b >= n ==> b == |buckets| && forall i | 0 <= i < n :: buckets[i] == 0
  {
    if n == 0 then |buckets| else if buckets[n - 1] != 0 then n - 1 else Highest(buckets, n - 1)
  }

  function Differences(current: seq<u64>, earlier: seq<u64>): (d: seq<u64>)
    requires Sized(current) && Sized(earlier)
    ensures Sized(d)
  {
    seq(BUCKETS, b requires 0 <= b < BUCKETS => Minus(current[b], earlier[b]))
  }

  function Since(current: Snapshot, earlier: Snapshot): (w: Snapshot)
    requires Sized(current.buckets) && Sized(earlier.buckets)
    ensures Sized(w.buckets)
  {
    var buckets := Differences(current.buckets, earlier.buckets);
    Snapshot(buckets, Seen(buckets, BUCKETS), Minus(current.sum, earlier.sum), Top(buckets, current.max))
  }

  /** The upper bound of the highest bucket in use, capped at the cumulative max. */
  function Top(buckets: seq<u64>, max: u64): u64
    requires Sized(buckets)
  {
    var highest := Highest(buckets, BUCKETS);
    if highest == BUCKETS then 0 else Min(UpperBound(highest), max)
  }

  lemma {:induction false} CountInConcat(a: seq<u64>, c: seq<u64>, b: nat)
    ensures CountIn(a + c, b) == CountIn(a, b) + CountIn(c, b)
    decreases |c|
  {
    if c == [] {
      assert a + c == a;
    } else {
      CountInConcat(a, c[..|c| - 1], b);
      assert (a + c)[..|a + c| - 1] == a + c[..|c| - 1];
    }
  }

  lemma {:induction false} SumConcat(a: seq<u64>, c: seq<u64>)
    ensures SumOf(a + c) == SumOf(a) + SumOf(c)
    decreases |c|
  {
    if c == [] {
      assert a + c == a;
    } else {
      SumConcat(a, c[..|c| - 1]);
      assert (a + c)[..|a + c| - 1] == a + c[..|c| - 1];
    }
  }

  lemma {:induction false} MaxConcat(a: seq<u64>, c: seq<u64>)
    ensures MaxOf(a + c) == Max(MaxOf(a), MaxOf(c))
    decreases |c|
  {
    if c == [] {
      assert a + c == a;
    } else {
      MaxConcat(a, c[..|c| - 1]);
      assert (a + c)[..|a + c| - 1] == a + c[..|c| - 1];
    }
  }

  lemma {:induction false} CountedBucket(values: seq<u64>, i: nat)
    requires i < |values|
    ensures CountIn(values, Bucket(values[i])) > 0
  {
    if i < |values| - 1 {
      CountedBucket(values[..|values| - 1], i);
    }
  }

  /** The highest bucket in use is that of the largest value. */
  lemma HighestIsMax(buckets: seq<u64>, values: seq<u64>)
    requires Sized(buckets) && forall b | 0 <= b < BUCKETS :: buckets[b] == CountIn(values, b)
    ensures Highest(buckets, BUCKETS) == if values == [] then BUCKETS else Bucket(MaxOf(values))
  {
    if values != [] {
      var top := MaxOf(values);
      MaxIsThere(values);
      var i :| 0 <= i < |values| && values[i] == top;
      BucketInRange(top);
      CountedBucket(values, i);
      forall b | Bucket(top) < b < BUCKETS
        ensures CountIn(values, b) == 0
      {
        NoneAbove(values, b);
      }
    }
  }

  lemma {:induction false} NoneAbove(values: seq<u64>, b: nat)
    requires values != [] && Bucket(MaxOf(values)) < b < BUCKETS
    ensures CountIn(values, b) == 0
  {
    var last, rest := values[|values| - 1], values[..|values| - 1];
    BucketInRange(MaxOf(values));
    BucketsMonotone(last, MaxOf(values));
    if rest != [] {
      BucketsMonotone(MaxOf(rest), MaxOf(values));
      NoneAbove(rest, b);
    }
  }

  lemma BucketsMonotone(u: u64, v: u64)
    requires u <= v
    ensures Bucket(u) <= Bucket(v)
  {
    BucketInRange(v);
    AtMostUpper(u, Bucket(v));
  }

  /** A window is what was recorded in it, and no more. */
  ghost predicate Exact(w: Snapshot, since: seq<u64>)
  {
    && Counts(w, since)
    && w.max <= MaxOf(since) + MaxOf(since) / 8
  }

  lemma WindowCounts(current: Histogram, earlier: Histogram, before: seq<u64>, since: seq<u64>, b: nat)
    requires Holds(earlier, before) && Holds(current, before + since) && b < BUCKETS
    ensures Since(SnapshotOf(current), SnapshotOf(earlier)).buckets[b] == CountIn(since, b)
  {
    hide CountIn, Seen, Top;
    CountInConcat(before, since, b);
  }

  lemma WindowMax(buckets: seq<u64>, since: seq<u64>, max: u64)
    requires Sized(buckets) && forall b | 0 <= b < BUCKETS :: buckets[b] == CountIn(since, b)
    requires MaxOf(since) <= max
    ensures MaxOf(since) <= Top(buckets, max) <= MaxOf(since) + MaxOf(since) / 8
  {
    HighestIsMax(buckets, since);
    BucketInRange(MaxOf(since));
    BucketWidth(Bucket(MaxOf(since)));
  }

  /**
   The difference of two snapshots of one histogram counts exactly the values in between, its max
   bounds theirs to an eighth, and its sum is theirs exactly when the stored sum has not wrapped.
   */
  lemma WindowExact(current: Histogram, earlier: Histogram, before: seq<u64>, since: seq<u64>)
    requires Holds(earlier, before) && Holds(current, before + since)
    ensures var w := Since(SnapshotOf(current), SnapshotOf(earlier));
            && Exact(w, since)
            && (w.sum == SumOf(since) <==> earlier.sum + SumOf(since) < U64)
  {
    hide CountIn, MaxOf, SumOf, Seen, Top, Bucket, Wrap, Differences;
    var w := Since(SnapshotOf(current), SnapshotOf(earlier));
    assert forall b | 0 <= b < BUCKETS :: w.buckets[b] == CountIn(since, b) by {
      forall b | 0 <= b < BUCKETS
        ensures w.buckets[b] == CountIn(since, b)
      {
        WindowCounts(current, earlier, before, since, b);
      }
    }
    SeenAll(w.buckets, since);
    SumConcat(before, since);
    WindowSum(SumOf(before), SumOf(since));
    MaxConcat(before, since);
    WindowMax(w.buckets, since, current.max);
  }

  lemma WindowSum(before: nat, since: nat)
    ensures Minus(Wrap(before + since), Wrap(before)) == since <==> Wrap(before) + since < U64
  {
    var p := before % U64;
    assert (before + since) % U64 == (p + since) % U64;
  }

  /** quantile(1.0) is max, of a histogram and of any window of it. */
  lemma QuantileOfOne(current: Histogram, earlier: Histogram, before: seq<u64>, since: seq<u64>)
    requires Holds(earlier, before) && Holds(current, before + since)
    ensures Quantile(SnapshotOf(current), 1.0) == current.max
    ensures var w := Since(SnapshotOf(current), SnapshotOf(earlier)); Quantile(w, 1.0) == w.max
  {
    hide CountIn, Seen, Bucket, Upper, Quantile, Differences, Sized;
    var all, w := before + since, Since(SnapshotOf(current), SnapshotOf(earlier));
    SnapshotCounts(current, all);
    QuantileOfOneExact(SnapshotOf(current), all);
    BucketInRange(MaxOf(all));
    WindowExact(current, earlier, before, since);
    HighestIsMax(w.buckets, since);
    BucketInRange(MaxOf(since));
    QuantileOfOneExact(w, since);
  }

  // As the source runs them

  /** std::array counters, recorded into in place. */
  class LatencyHistogram {
    const buckets: array<u64>
    var sum: u64
    var max: u64

    ghost predicate Valid()
    {
      buckets.Length == BUCKETS
    }

    ghost function Contents(): (h: Histogram)
      requires Valid()
      reads this, buckets
      ensures Sized(h.buckets)
    {
      Histogram(buckets[..], sum, max)
    }

    constructor ()
      ensures Valid() && fresh(buckets) && Contents() == EMPTY
    {
      buckets := new u64[BUCKETS](_ => 0);
      sum, max := 0, 0;
    }

    method Record(value: u64)
      requires Valid()
      modifies this, buckets
      ensures Contents() == Recorded(old(Contents()), value)
    {
      BucketInRange(value);
      var b := Bucket(value);
      buckets[b] := Add64(buckets[b], 1);
      sum := Add64(sum, value);
      if max < value {
        max := value;
      }
      assert buckets[..] == old(buckets[..])[b := Add64(old(buckets[..])[b], 1)];
    }

    method TakeSnapshot() returns (s: Snapshot)
      requires Valid()
      ensures s == SnapshotOf(Contents())
    {
      var counts: seq<u64>, count: u64 := [], 0;
      for b := 0 to buckets.Length
        invariant counts == buckets[..b] && count == Seen(buckets[..], b)
      {
        counts := counts + [buckets[b]];
        count := Add64(count, buckets[b]);
      }
      s := Snapshot(counts, count, sum, max);
    }
  }

  method FindQuantile(s: Snapshot, q: real) returns (r: u64)
    requires Sized(s.buckets)
    ensures r == Quantile(s, q)
  {
    if s.count == 0 {
      return 0;
    }
    var rank := Rank(q, s.count);
    var seen: u64 := 0;
    for b := 0 to |s.buckets|
      invariant Scan(s, rank, b, seen) == Quantile(s, q)
    {
      seen := Add64(seen, s.buckets[b]);
      if seen >= rank {
        return Min(UpperBound(b), s.max);
      }
    }
    return s.max;
  }

  method Difference(current: Snapshot, earlier: Snapshot) returns (w: Snapshot)
    requires Sized(current.buckets) && Sized(earlier.buckets)
    ensures w == Since(current, earlier)
  {
    ghost var all := Since(current, earlier).buckets;
    var buckets: seq<u64>, count: u64 := [], 0;
    var highest := |current.buckets|;
    for b := 0 to |current.buckets|
      invariant buckets == all[..b] && count == Seen(all, b) && highest == Highest(all, b)
    {
      var d := Minus(current.buckets[b], earlier.buckets[b]);
      buckets := buckets + [d];
      count := Add64(count, d);
      if d != 0 {
        highest := b;
      }
    }
    assert buckets == all;
    w := Snapshot(buckets, count, Minus(current.sum, earlier.sum), 0);
    if highest != |current.buckets| {
      w := w.(max := Min(UpperBound(highest), current.max));
    }
  }
}
