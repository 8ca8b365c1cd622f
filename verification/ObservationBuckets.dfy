/**
 The log-linear buckets: values 0 to 7 have a bucket each, and every power of two from 8 up is
 cut into eight equal ones. 496 buckets cover uint64.
 */
module ObservationBuckets {
  import opened Arithmetic
  import opened Words

  const SUB_BUCKETS: nat := 8
  const BUCKETS: nat := 8 + 61 * SUB_BUCKETS

  /** The place of the leading bit, 63 - countl_zero. */
  function Octave(v: nat): nat
    requires v > 0
  {
    if v < 2 then 0 else 1 + Octave(v / 2)
  }

  function Bucket(v: nat): nat
    requires v < U64
  {
    if v < 8 then v
    else
      OctaveBounds(v);
      8 + (Octave(v) - 3) * SUB_BUCKETS + v / Pow2(Octave(v) - 3) % 8
  }

  function BucketOctave(b: nat): (o: nat)
    requires 8 <= b
    ensures 3 <= o
  {
    (b - 8) / SUB_BUCKETS + 3
  }

  function Lower(b: nat): nat
    requires b < BUCKETS
  {
    if b < 8 then b else (8 + (b - 8) % SUB_BUCKETS) * Pow2(BucketOctave(b) - 3)
  }

  function Upper(b: nat): nat
    requires b < BUCKETS
  {
    if b < 8 then b else Lower(b) + (Pow2(BucketOctave(b) - 3) - 1)
  }

  // Octaves

  lemma {:induction false} OctaveBounds(v: nat)
    requires v > 0
    ensures Pow2(Octave(v)) <= v < 2 * Pow2(Octave(v))
    ensures v >= 8 ==> Octave(v) >= 3
  {
    if v >= 2 {
      OctaveBounds(v / 2);
      if v >= 8 {
        assert v / 2 >= 4 && v / 2 / 2 >= 2 && v / 2 / 2 / 2 >= 1;
      }
    }
  }

  lemma OctaveAtLeast(v: nat, o: nat)
    requires v > 0 && Pow2(o) <= v
    ensures o <= Octave(v)
  {
    OctaveBounds(v);
    if Octave(v) < o {
      Pow2Monotone(Octave(v) + 1, o);
    }
  }

  lemma OctaveAtMost(v: nat, o: nat)
    requires v > 0 && v < Pow2(o + 1)
    ensures Octave(v) <= o
  {
    OctaveBounds(v);
    if o < Octave(v) {
      Pow2Monotone(o + 1, Octave(v));
    }
  }

  lemma OctaveUnique(v: nat, o: nat)
    requires v > 0 && Pow2(o) <= v < 2 * Pow2(o)
    ensures o == Octave(v)
  {
    OctaveBounds(v);
    OctaveAtLeast(v, o);
    OctaveAtMost(v, o);
  }

  // Buckets

  /** A bucket from 8 up starts at a multiple k of its width Pow2(e). */
  lemma BucketAt(e: nat, k: nat)
    requires e <= 60 && 8 <= k < 16
    ensures var b, w := e * SUB_BUCKETS + k, Pow2(e);
            && 8 <= b < BUCKETS && BucketOctave(b) == e + 3
            && Lower(b) == k * w && Upper(b) == k * w + w - 1
            && 8 * w <= Lower(b) <= Upper(b) < 16 * w
  {
    hide Pow2;
    var b := e * SUB_BUCKETS + k;
    assert (b - 8) / SUB_BUCKETS == e && (b - 8) % SUB_BUCKETS == k - 8;
    Scale(8, k, Pow2(e));
    Scale(k + 1, 16, Pow2(e));
    assert (k + 1) * Pow2(e) == k * Pow2(e) + Pow2(e);
  }

  /** Every bucket from 8 up is one of those. */
  lemma BucketShape(b: nat) returns (e: nat, k: nat)
    requires 8 <= b < BUCKETS
    ensures e <= 60 && 8 <= k < 16 && b == e * SUB_BUCKETS + k
  {
    e, k := (b - 8) / SUB_BUCKETS, 8 + (b - 8) % SUB_BUCKETS;
  }

  /** No bound overflows. */
  lemma BoundsFit(b: nat)
    requires b < BUCKETS
    ensures Lower(b) <= Upper(b) < U64
  {
    if b >= 8 {
      var e, k := BucketShape(b);
      BucketAt(e, k);
      Pow2Monotone(e, 60);
      Pow2Values();
    }
  }

  /** A value's bucket is the one whose bounds hold it, and no other. */
  lemma BucketExact(v: nat, b: nat)
    requires v < U64 && b < BUCKETS
    ensures Lower(b) <= v <= Upper(b) <==> b == Bucket(v)
  {
    if Lower(b) <= v <= Upper(b) && b >= 8 {
      HoldsIsBucket(v, b);
    }
    if b == Bucket(v) && v >= 8 {
      BucketHolds(v);
    }
  }

  lemma HoldsIsBucket(v: nat, b: nat)
    requires 8 <= b < BUCKETS && Lower(b) <= v <= Upper(b) && v < U64
    ensures v >= 8 && b == Bucket(v)
  {
    var e, k := BucketShape(b);
    BucketAt(e, k);
    EightTimes(e);
    OctaveUnique(v, e + 3);
    Quotient(v, k, Pow2(e));
    BucketOf(v, e, k);
  }

  lemma BucketOf(v: nat, e: nat, k: nat)
    requires 8 <= v < U64 && Octave(v) == e + 3 && v / Pow2(e) == k && 8 <= k < 16
    ensures Bucket(v) == e * SUB_BUCKETS + k
  {
    hide Pow2, Octave;
    assert k % 8 == k - 8;
  }

  lemma BucketHolds(v: nat)
    requires 8 <= v < U64
    ensures 8 <= Bucket(v) < BUCKETS && Lower(Bucket(v)) <= v <= Upper(Bucket(v))
  {
    OctaveBounds(v);
    OctaveSmall(v);
    var e := Octave(v) - 3;
    EightTimes(e);
    hide Pow2, Octave, Bucket, Lower, Upper;
    var k := EighthOf(v, Pow2(e));
    BucketOf(v, e, k);
    BucketAt(e, k);
  }

  lemma OctaveSmall(v: nat)
    requires 0 < v < U64
    ensures Octave(v) <= 63
  {
    Pow2Values();
    OctaveAtMost(v, 63);
  }

  lemma EighthOf(v: nat, w: nat) returns (k: nat)
    requires w > 0 && 8 * w <= v < 16 * w
    ensures k == v / w && 8 <= k < 16 && k * w <= v < k * w + w
  {
    k := v / w;
    Quotient(v, k, w);
    Below(8, k + 1, w);
    Below(k, 16, w);
  }

  lemma BucketInRange(v: nat)
    requires v < U64
    ensures Bucket(v) < BUCKETS && Lower(Bucket(v)) <= v <= Upper(Bucket(v))
  {
    if v >= 8 {
      BucketHolds(v);
    }
  }

  /** Buckets follow on from each other and end at the largest uint64. */
  lemma BucketsContiguous(b: nat)
    requires b < BUCKETS
    ensures if b + 1 < BUCKETS then Lower(b + 1) == Upper(b) + 1 else Upper(b) == U64 - 1
    ensures Lower(0) == 0
  {
    if b == BUCKETS - 1 {
      BucketAt(60, 15);
      Pow2Values();
    } else if b >= 8 {
      NextBucket(b);
    } else if b == 7 {
      assert Pow2(BucketOctave(8) - 3) == 1;
    }
  }

  lemma NextBucket(b: nat)
    requires 8 <= b < BUCKETS - 1
    ensures Lower(b + 1) == Upper(b) + 1
  {
    var e, k := BucketShape(b);
    BucketAt(e, k);
    if k == 15 {
      BucketAt(e + 1, 8);
    } else {
      BucketAt(e, k + 1);
      assert (k + 1) * Pow2(e) == k * Pow2(e) + Pow2(e);
    }
  }

  /** A bucket is at most an eighth of its lower bound wide. */
  lemma BucketWidth(b: nat)
    requires b < BUCKETS
    ensures Upper(b) <= Lower(b) + Lower(b) / 8
  {
    if b >= 8 {
      var e, k := BucketShape(b);
      BucketAt(e, k);
    }
  }

  /** The order of values is the order of their buckets. */
  lemma {:induction false} BucketsOrdered(a: nat, b: nat)
    requires a < b < BUCKETS
    ensures Upper(a) < Lower(b)
    decreases b
  {
    BucketsContiguous(b - 1);
    if a < b - 1 {
      BucketsOrdered(a, b - 1);
      BoundsFit(b - 1);
    }
  }

  /** At or below a bucket's upper bound are exactly the values of that bucket and those before. */
  lemma AtMostUpper(v: nat, b: nat)
    requires v < U64 && b < BUCKETS
    ensures v <= Upper(b) <==> Bucket(v) <= b
  {
    BucketInRange(v);
    if Bucket(v) < b {
      BucketsOrdered(Bucket(v), b);
      BoundsFit(b);
    } else if b < Bucket(v) {
      BucketsOrdered(b, Bucket(v));
    }
  }
}
