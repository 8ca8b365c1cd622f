/**
 Records and snapshots as they run beside one another. A record is three atomic steps, which those
 of other threads and the reads of a snapshot may fall between; all that is used of the memory
 order is that no later snapshot reads an earlier value of the same cell.
 */
module ObservationAtomics {
  import opened ObservationBuckets
  import opened ObservationHistogram
  import opened Sequences
  import opened Words

  datatype Kind = Landing | Summing | Raising

  /** One step of the record of a value: its bucket counted, the sum added to or the max raised. */
  datatype Step = Step(kind: Kind, value: u64)

  function Stepped(h: Histogram, step: Step): (r: Histogram)
    requires Sized(h.buckets)
    ensures Sized(r.buckets)
  {
    match step.kind
    case Landing =>
      BucketInRange(step.value);
      var b := Bucket(step.value);
      h.(buckets := h.buckets[b := Add64(h.buckets[b], 1)])
    case Summing => h.(sum := Add64(h.sum, step.value))
    case Raising => h.(max := Max(h.max, step.value))
  }

  function After(steps: seq<Step>): (h: Histogram)
    ensures Sized(h.buckets)
  {
    if steps == [] then EMPTY else Stepped(After(steps[..|steps| - 1]), steps[|steps| - 1])
  }

  /** The values whose records have done that step. */
  function Values(kind: Kind, steps: seq<Step>): (values: seq<u64>)
    ensures |values| <= |steps|
  {
    if steps == [] then []
    else
      var last, before := steps[|steps| - 1], Values(kind, steps[..|steps| - 1]);
      if last.kind == kind then before + [last.value] else before
  }

  function ValueOf(kind: Kind, step: Step): seq<u64> { if step.kind == kind then [step.value] else [] }

  lemma ValuesLast(kind: Kind, before: seq<Step>, last: Step)
    ensures Values(kind, before + [last]) == Values(kind, before) + ValueOf(kind, last)
  {
    assert (before + [last])[..|before|] == before;
  }

  lemma {:induction false} ValuesConcat(kind: Kind, a: seq<Step>, c: seq<Step>)
    ensures Values(kind, a + c) == Values(kind, a) + Values(kind, c)
    decreases |c|
  {
    if c == [] {
      assert a + c == a;
      hide Values;
    } else {
      hide Values, ValueOf;
      var before, last := c[..|c| - 1], c[|c| - 1];
      ValuesConcat(kind, a, before);
      assert c == before + [last] && a + c == a + before + [last];
      ValuesLast(kind, a + before, last);
      ValuesLast(kind, before, last);
      Associates(Values(kind, a), Values(kind, before), ValueOf(kind, last));
    }
  }

  lemma ValuesSplit(kind: Kind, steps: seq<Step>, from: nat, to: nat)
    requires from <= to <= |steps|
    ensures Values(kind, steps[..to]) == Values(kind, steps[..from]) + Values(kind, steps[from..to])
  {
    hide Values;
    ValuesConcat(kind, steps[..from], steps[from..to]);
    assert steps[..to] == steps[..from] + steps[from..to];
  }

  /** Each cell follows the steps made to it, whatever the order. */
  ghost predicate Follows(h: Histogram, steps: seq<Step>)
  {
    && Sized(h.buckets)
    && (forall b | 0 <= b < BUCKETS :: h.buckets[b] == CountIn(Values(Landing, steps), b))
    && h.sum == Wrap(SumOf(Values(Summing, steps)))
    && h.max == MaxOf(Values(Raising, steps))
  }

  lemma {:induction false} AfterFollows(steps: seq<Step>)
    requires |steps| < U64
    ensures Follows(After(steps), steps)
  {
    if steps != [] {
      var before, last := steps[..|steps| - 1], steps[|steps| - 1];
      AfterFollows(before);
      StepFollows(After(before), before, last);
      assert before + [last] == steps;
    }
  }

  lemma StepFollows(h: Histogram, before: seq<Step>, last: Step)
    requires |before| + 1 < U64 && Follows(h, before)
    ensures Follows(Stepped(h, last), before + [last])
  {
    var steps, values := before + [last], Values(last.kind, before);
    assert steps[..|before|] == before;
    var more := values + [last.value];
    assert more[..|values|] == values;
    match last.kind
    case Landing =>
      BucketInRange(last.value);
      CountInBounded(values, Bucket(last.value));
    case Summing => WrappedSum(SumOf(values), last.value);
    case Raising =>
  }

  // All done

  lemma {:induction false} SumPermuted(values: seq<u64>, ys: seq<u64>)
    requires multiset(values) == multiset(ys)
    ensures SumOf(values) == SumOf(ys)
    decreases |values|
  {
    if values == [] {
      assert |multiset(ys)| == |ys|;
    } else {
      var rest, v := values[..|values| - 1], values[|values| - 1];
      assert values == rest + [v];
      assert v in multiset(ys);
      var i :| 0 <= i < |ys| && ys[i] == v;
      var before, after := ys[..i], ys[i + 1..];
      assert ys == before + [v] + after;
      SameRest(rest, v, before, after);
      SumPermuted(rest, before + after);
      SumConcat(before + [v], after);
      SumConcat(before, [v]);
      SumConcat(before, after);
      SumConcat([], [v]);
    }
  }

  lemma MaxPermuted(values: seq<u64>, ys: seq<u64>)
    requires multiset(values) == multiset(ys)
    ensures MaxOf(values) <= MaxOf(ys)
  {
    if values != [] {
      MaxIsThere(values);
      assert MaxOf(values) in multiset(ys);
      var i :| 0 <= i < |ys| && ys[i] == MaxOf(values);
      MaxOfBounds(ys, i);
    }
  }

  /** Once every record begun is done, the histogram is as if the values had been recorded one by one. */
  lemma DoneIsRecorded(steps: seq<Step>)
    requires |steps| < U64
    requires multiset(Values(Landing, steps)) == multiset(Values(Summing, steps)) == multiset(Values(Raising, steps))
    ensures Holds(After(steps), Values(Landing, steps))
  {
    hide After, Values, Holds;
    AfterFollows(steps);
    AnyOrder(After(steps), Values(Landing, steps), Values(Summing, steps), Values(Raising, steps));
  }

  lemma AnyOrder(h: Histogram, landed: seq<u64>, summed: seq<u64>, raised: seq<u64>)
    requires |landed| < U64 && Sized(h.buckets) && forall b | 0 <= b < BUCKETS :: h.buckets[b] == CountIn(landed, b)
    requires h.sum == Wrap(SumOf(summed)) && h.max == MaxOf(raised)
    requires multiset(landed) == multiset(summed) && multiset(landed) == multiset(raised)
    ensures Holds(h, landed)
  {
    hide CountIn, SumOf, MaxOf, Wrap;
    SumPermuted(landed, summed);
    MaxPermuted(landed, raised);
    MaxPermuted(raised, landed);
  }

  // Snapshots

  /** When a snapshot reads each cell, in numbers of steps made before. */
  datatype Reads = Reads(at: seq<nat>, sum: nat, max: nat)

  ghost predicate ReadsOf(r: Reads, steps: seq<Step>)
  {
    && |r.at| == BUCKETS && (forall b | 0 <= b < BUCKETS :: r.at[b] <= |steps|)
    && r.sum <= |steps| && r.max <= |steps|
  }

  /** No cell is read earlier. */
  ghost predicate Later(r: Reads, earlier: Reads)
  {
    && |r.at| == |earlier.at| == BUCKETS && (forall b | 0 <= b < BUCKETS :: earlier.at[b] <= r.at[b])
    && earlier.sum <= r.sum && earlier.max <= r.max
  }

  ghost function Read(steps: seq<Step>, r: Reads): (s: Snapshot)
    requires ReadsOf(r, steps)
    ensures Sized(s.buckets)
  {
    var buckets := seq(BUCKETS, b requires 0 <= b < BUCKETS => After(steps[..r.at[b]]).buckets[b]);
    Snapshot(buckets, Seen(buckets, BUCKETS), After(steps[..r.sum]).sum, After(steps[..r.max]).max)
  }

  /** Of a window's values, those in one bucket landed between the two reads of that bucket. */
  function LandedBetween(steps: seq<Step>, from: nat, to: nat): seq<u64>
    requires from <= to <= |steps|
  {
    Values(Landing, steps[from..to])
  }

  lemma BucketBetween(steps: seq<Step>, from: nat, to: nat, b: nat)
    requires |steps| < U64 && from <= to <= |steps| && b < BUCKETS
    ensures Minus(After(steps[..to]).buckets[b], After(steps[..from]).buckets[b]) ==
            CountIn(LandedBetween(steps, from, to), b)
  {
    AfterFollows(steps[..from]);
    AfterFollows(steps[..to]);
    hide After, Values, CountIn;
    ValuesSplit(Landing, steps, from, to);
    CountInConcat(Values(Landing, steps[..from]), LandedBetween(steps, from, to), b);
  }

  /** Each bucket of a window counts what landed between its two reads. */
  lemma WindowBuckets(steps: seq<Step>, r: Reads, earlier: Reads, b: nat)
    requires |steps| < U64 && ReadsOf(r, steps) && ReadsOf(earlier, steps) && Later(r, earlier) && b < BUCKETS
    ensures Since(Read(steps, r), Read(steps, earlier)).buckets[b] ==
            CountIn(LandedBetween(steps, earlier.at[b], r.at[b]), b)
  {
    hide After, Seen, Top;
    BucketBetween(steps, earlier.at[b], r.at[b], b);
  }

  ghost predicate Ordered(steps: seq<Step>, taken: seq<Reads>)
  {
    && (forall i | 0 <= i < |taken| :: ReadsOf(taken[i], steps))
    && (forall i | 0 < i < |taken| :: Later(taken[i], taken[i - 1]))
  }

  /** How often the windows between successive snapshots count a bucket. */
  ghost function TimesCounted(steps: seq<Step>, taken: seq<Reads>, b: nat): nat
    requires Ordered(steps, taken) && b < BUCKETS
  {
    if |taken| < 2 then 0
    else
      var w := Since(Read(steps, taken[|taken| - 1]), Read(steps, taken[|taken| - 2]));
      TimesCounted(steps, taken[..|taken| - 1], b) + w.buckets[b]
  }

  /**
   Wherever the reads fall between the steps of the records, the windows count each value once:
   together, what landed between the first and the last read of its bucket.
   */
  lemma {:induction false} CountedOnce(steps: seq<Step>, taken: seq<Reads>, b: nat)
    requires |steps| < U64 && Ordered(steps, taken) && b < BUCKETS && taken != []
    ensures taken[0].at[b] <= taken[|taken| - 1].at[b] <= |steps|
    ensures TimesCounted(steps, taken, b) ==
            CountIn(LandedBetween(steps, taken[0].at[b], taken[|taken| - 1].at[b]), b)
    decreases |taken|
  {
    hide Read, Since, CountIn, Values;
    var last := taken[|taken| - 1];
    assert ReadsOf(last, steps);
    if |taken| == 1 {
      NoneLanded(steps, last.at[b], b);
    } else {
      var before, prior := taken[..|taken| - 1], taken[|taken| - 2];
      assert Later(last, prior) && ReadsOf(prior, steps) && before[|before| - 1] == prior;
      CountedOnce(steps, before, b);
      WindowBuckets(steps, last, prior, b);
      CountedAlong(steps, taken[0].at[b], prior.at[b], last.at[b], b);
    }
  }

  lemma NoneLanded(steps: seq<Step>, at: nat, b: nat)
    requires at <= |steps|
    ensures CountIn(LandedBetween(steps, at, at), b) == 0
  {
  }

  lemma CountedAlong(steps: seq<Step>, from: nat, mid: nat, to: nat, b: nat)
    requires from <= mid <= to <= |steps|
    ensures CountIn(LandedBetween(steps, from, to), b) ==
            CountIn(LandedBetween(steps, from, mid), b) + CountIn(LandedBetween(steps, mid, to), b)
  {
    hide Values, CountIn;
    ValuesConcat(Landing, steps[from..mid], steps[mid..to]);
    assert steps[from..to] == steps[from..mid] + steps[mid..to];
    CountInConcat(LandedBetween(steps, from, mid), LandedBetween(steps, mid, to), b);
  }

  // Counts and quantiles agree

  function OfBucket(values: seq<u64>, b: nat): seq<u64>
  {
    if values == [] then []
    else
      var last, before := values[|values| - 1], OfBucket(values[..|values| - 1], b);
      if Bucket(last) == b then before + [last] else before
  }

  lemma {:induction false} OfBucketCount(values: seq<u64>, b: nat, c: nat)
    ensures CountIn(OfBucket(values, b), c) == if c == b then CountIn(values, b) else 0
    ensures |OfBucket(values, b)| == CountIn(values, b)
    decreases |values|
  {
    if values != [] {
      var last, rest := values[|values| - 1], values[..|values| - 1];
      OfBucketCount(rest, b, c);
      var kept := OfBucket(rest, b);
      assert (kept + [last])[..|kept|] == kept;
    }
  }

  /** The values a window counts, in its first n buckets. */
  ghost function WindowValues(steps: seq<Step>, r: Reads, earlier: Reads, n: nat): seq<u64>
    requires ReadsOf(r, steps) && ReadsOf(earlier, steps) && Later(r, earlier) && n <= BUCKETS
  {
    if n == 0 then []
    else
      WindowValues(steps, r, earlier, n - 1) + OfBucket(LandedBetween(steps, earlier.at[n - 1], r.at[n - 1]), n - 1)
  }

  lemma {:induction false} WindowValuesCount(steps: seq<Step>, r: Reads, earlier: Reads, n: nat, b: nat)
    requires ReadsOf(r, steps) && ReadsOf(earlier, steps) && Later(r, earlier) && n <= BUCKETS && b < BUCKETS
    ensures CountIn(WindowValues(steps, r, earlier, n), b) ==
            if b < n then CountIn(LandedBetween(steps, earlier.at[b], r.at[b]), b) else 0
    decreases n
  {
    hide OfBucket, LandedBetween, CountIn;
    if n == 0 {
      NoCount(b);
    } else {
      WindowValuesCount(steps, r, earlier, n - 1, b);
      var landed := LandedBetween(steps, earlier.at[n - 1], r.at[n - 1]);
      OfBucketCount(landed, n - 1, b);
      CountInConcat(WindowValues(steps, r, earlier, n - 1), OfBucket(landed, n - 1), b);
    }
  }

  lemma NoCount(b: nat)
    ensures CountIn([], b) == 0
  {
  }

  lemma {:induction false} WindowValuesFew(steps: seq<Step>, r: Reads, earlier: Reads, n: nat)
    requires ReadsOf(r, steps) && ReadsOf(earlier, steps) && Later(r, earlier) && n <= BUCKETS
    ensures |WindowValues(steps, r, earlier, n)| <= Below(Values(Landing, steps), n)
    decreases n
  {
    hide OfBucket, CountIn;
    if n > 0 {
      WindowValuesFew(steps, r, earlier, n - 1);
      var from, to, b := earlier.at[n - 1], r.at[n - 1], n - 1;
      OfBucketCount(LandedBetween(steps, from, to), b, b);
      CountedAlong(steps, 0, from, |steps|, b);
      CountedAlong(steps, from, to, |steps|, b);
      assert steps[0..|steps|] == steps;
    }
  }

  /** A window is a tally of the values it counts, so its count and its quantiles agree wherever the reads fell. */
  lemma WindowTallies(steps: seq<Step>, r: Reads, earlier: Reads)
    requires |steps| < U64 && ReadsOf(r, steps) && ReadsOf(earlier, steps) && Later(r, earlier)
    ensures Tallies(Since(Read(steps, r), Read(steps, earlier)), WindowValues(steps, r, earlier, BUCKETS))
  {
    hide Read, CountIn, WindowValues, Values, Seen, Differences, Top, Below, CountAtMost, Bucket, Upper;
    var w, values := Since(Read(steps, r), Read(steps, earlier)), WindowValues(steps, r, earlier, BUCKETS);
    forall b | 0 <= b < BUCKETS
      ensures w.buckets[b] == CountIn(values, b)
    {
      WindowBuckets(steps, r, earlier, b);
      WindowValuesCount(steps, r, earlier, BUCKETS, b);
    }
    WindowValuesFew(steps, r, earlier, BUCKETS);
    BelowIsAtMost(Values(Landing, steps), BUCKETS - 1);
    CountAtMostBounded(Values(Landing, steps), Upper(BUCKETS - 1));
    SeenAll(w.buckets, values);
  }

  /** Only the max may be late: a quantile of a window falls short of its value exactly when the max does. */
  lemma WindowQuantile(steps: seq<Step>, r: Reads, earlier: Reads, q: real, x: u64)
    requires |steps| < U64 && ReadsOf(r, steps) && ReadsOf(earlier, steps) && Later(r, earlier)
    requires AtQuantile(WindowValues(steps, r, earlier, BUCKETS), q, x)
    ensures var w := Since(Read(steps, r), Read(steps, earlier));
            Quantile(w, q) <= x + x / 8 && (x <= Quantile(w, q) <==> x <= w.max)
  {
    hide Read, Since, Quantile, Values, WindowValues, Tallies, AtQuantile;
    var values := WindowValues(steps, r, earlier, BUCKETS);
    WindowTallies(steps, r, earlier);
    QuantileBounds(Since(Read(steps, r), Read(steps, earlier)), values, q, x);
  }

  function ReadAt(n: nat): Reads { Reads(seq(BUCKETS, _ => n), n, n) }

  lemma {:induction false} ScanWithinMax(s: Snapshot, rank: u64, b: nat, seen: u64)
    requires Sized(s.buckets) && b <= BUCKETS
    ensures Scan(s, rank, b, seen) <= s.max
    decreases BUCKETS - b
  {
    if b < BUCKETS {
      ScanWithinMax(s, rank, b + 1, Add64(seen, s.buckets[b]));
    }
  }

  /** So it does when the snapshot falls between the landing of a first value and the raising of the max. */
  lemma MaxMayBeLate(v: u64, q: real)
    requires v > 0
    ensures var steps := [Step(Landing, v)];
            && ReadsOf(ReadAt(0), steps) && ReadsOf(ReadAt(1), steps) && Later(ReadAt(1), ReadAt(0))
            && var w := Since(Read(steps, ReadAt(1)), Read(steps, ReadAt(0)));
            w.count == 1 && Quantile(w, q) == 0 < v
  {
    var steps := [Step(Landing, v)];
    OneLanded(v);
    OneCounted(v);
    hide Read, Since, Seen, Differences, Scan;
    ScanWithinMax(Since(Read(steps, ReadAt(1)), Read(steps, ReadAt(0))), Rank(q, 1), 0, 0);
  }

  lemma OneLanded(v: u64)
    ensures var steps := [Step(Landing, v)];
            steps[..1] == steps && After(steps).max == 0 && LandedBetween(steps, 0, 1) == [v]
  {
    var steps := [Step(Landing, v)];
    assert steps[..0] == [] && steps[0..1] == steps == steps[..1];
  }

  lemma OneCounted(v: u64)
    ensures var steps := [Step(Landing, v)];
            && ReadsOf(ReadAt(0), steps) && ReadsOf(ReadAt(1), steps) && Later(ReadAt(1), ReadAt(0))
            && var w := Since(Read(steps, ReadAt(1)), Read(steps, ReadAt(0)));
            w.count == 1 && w.max == 0
  {
    var steps := [Step(Landing, v)];
    OneLanded(v);
    hide After, Values, LandedBetween, CountIn, Seen, Differences, Highest, Bucket, Upper;
    var w := Since(Read(steps, ReadAt(1)), Read(steps, ReadAt(0)));
    assert Read(steps, ReadAt(1)).max == 0;
    hide Read;
    forall b | 0 <= b < BUCKETS
      ensures w.buckets[b] == CountIn([v], b)
    {
      WindowBuckets(steps, ReadAt(1), ReadAt(0), b);
    }
    SeenAll(w.buckets, [v]);
  }

  // What is late

  /** In every thread a record lands before it is summed, and is summed before it raises the max. */
  ghost predicate InOrder(steps: seq<Step>)
  {
    forall n | 0 <= n <= |steps| ::
      && multiset(Values(Raising, steps[..n])) <= multiset(Values(Summing, steps[..n]))
      && multiset(Values(Summing, steps[..n])) <= multiset(Values(Landing, steps[..n]))
  }

  /** Landed, with the step still to come. */
  ghost function Pending(kind: Kind, steps: seq<Step>): multiset<u64>
  {
    multiset(Values(Landing, steps)) - multiset(Values(kind, steps))
  }

  /**
   The sum and the max of a window are those of what landed in it, but for the records under way: those
   at its start come in, and those at its end are left to a later window.
   */
  lemma LateInWindow(steps: seq<Step>, from: nat, to: nat, kind: Kind)
    requires InOrder(steps) && from <= to <= |steps|
    ensures multiset(Values(kind, steps[from..to])) + Pending(kind, steps[..to]) ==
            multiset(LandedBetween(steps, from, to)) + Pending(kind, steps[..from])
  {
    hide Values;
    ValuesSplit(kind, steps, from, to);
    ValuesSplit(Landing, steps, from, to);
    BehindLanding(steps, from, kind);
    BehindLanding(steps, to, kind);
  }

  lemma BehindLanding(steps: seq<Step>, n: nat, kind: Kind)
    requires InOrder(steps) && n <= |steps|
    ensures multiset(Values(kind, steps[..n])) <= multiset(Values(Landing, steps[..n]))
  {
    hide Values;
  }

  lemma SumAfter(steps: seq<Step>, n: nat)
    requires |steps| < U64 && n <= |steps|
    ensures After(steps[..n]).sum == Wrap(SumOf(Values(Summing, steps[..n])))
  {
    AfterFollows(steps[..n]);
    hide After, Values;
  }

  /**
   The sum of a window is that of the records summed between the two reads of it, exactly when the
   stored sum has not wrapped.
   */
  lemma WindowSummed(steps: seq<Step>, r: Reads, earlier: Reads)
    requires |steps| < U64 && ReadsOf(r, steps) && ReadsOf(earlier, steps) && Later(r, earlier)
    ensures var summed := SumOf(Values(Summing, steps[earlier.sum..r.sum]));
            Since(Read(steps, r), Read(steps, earlier)).sum == summed <==> Read(steps, earlier).sum + summed < U64
  {
    hide After, Values, SumOf, Seen, Top, Differences, Wrap;
    SumAfter(steps, earlier.sum);
    SumAfter(steps, r.sum);
    ValuesSplit(Summing, steps, earlier.sum, r.sum);
    var before, since := Values(Summing, steps[..earlier.sum]), Values(Summing, steps[earlier.sum..r.sum]);
    SumConcat(before, since);
    WindowSum(SumOf(before), SumOf(since));
  }
}
