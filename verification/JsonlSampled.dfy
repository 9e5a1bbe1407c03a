/** Time-bucket downsampling: DecodeSinceSampled. */
module JsonlSampled {
  import opened Machine
  import opened Sequences
  import opened JsonlLines
  import opened JsonlReader
  import opened JsonlNaming
  import opened JsonlFilter
  import opened JsonlScan

  // ------------------------------------------------------- int64 arithmetic

  /** The seconds one bucket spans. */
  function BucketSeconds(now: int, cutoff: int, size: int): (r: int)
    requires size > 0
    ensures r > 0
  {
    var w := Wrap64(now - cutoff);
    var window := if w <= 0 then 1 else w;
    var s := TruncDiv(Wrap64(Wrap64(window + size) - 1), size);
    if s <= 0 then 1 else s
  }

  /** The bucket of a timestamp; late ones are clamped to the last bucket. */
  function Bucket(ts: int, cutoff: int, seconds: int, size: int): int
    requires seconds > 0
  {
    var b := TruncDiv(Wrap64(ts - cutoff), seconds);
    if b > size - 1 then size - 1 else b
  }

  // ------------------------------------------------------------ the sampler

  datatype Sampled = Sampled(ts: int, line: Line)

  predicate InBucket(stamp: Line -> Option<int>, bucketOf: int -> int, line: Line, b: int) {
    stamp(line).Some? && bucketOf(stamp(line).value) == b
  }

  /** Line `i` is the one its bucket keeps: no line of the bucket is newer, and none as new comes later. */
  predicate IsKept(lines: seq<Line>, stamp: Line -> Option<int>, bucketOf: int -> int, b: int, i: int) {
    && 0 <= i < |lines| && InBucket(stamp, bucketOf, lines[i], b)
    && forall j | 0 <= j < |lines| && InBucket(stamp, bucketOf, lines[j], b) ::
         var tj, ti := stamp(lines[j]).value, stamp(lines[i]).value;
         tj < ti || (tj == ti && j <= i)
  }

  /** The callback's work over all scanned lines. */
  method FillBuckets(lines: seq<Line>, stamp: Line -> Option<int>, bucketOf: int -> int)
    returns (buckets: map<int, Sampled>, ghost at: map<int, int>)
    ensures buckets.Keys == at.Keys
    ensures forall b <- at :: IsKept(lines, stamp, bucketOf, b, at[b]) && buckets[b].line == lines[at[b]]
    ensures forall i | 0 <= i < |lines| && stamp(lines[i]).Some? :: bucketOf(stamp(lines[i]).value) in buckets
  {
    buckets, at := map[], map[];
    for n := 0 to |lines|
      invariant buckets.Keys == at.Keys
      invariant forall b <- at :: IsKept(lines[..n], stamp, bucketOf, b, at[b])
      invariant forall b <- at :: buckets[b] == Sampled(stamp(lines[at[b]]).value, lines[at[b]])
      invariant forall i | 0 <= i < n && stamp(lines[i]).Some? :: bucketOf(stamp(lines[i]).value) in buckets
    {
      var ts := stamp(lines[n]);
      ghost var before := at;
      if ts.Some? {
        var bucket := bucketOf(ts.value);
        if !(bucket in buckets && buckets[bucket].ts > ts.value) {
          buckets := buckets[bucket := Sampled(ts.value, lines[n])];
          at := at[bucket := n];
        }
      }
      forall b | b in at ensures IsKept(lines[..n + 1], stamp, bucketOf, b, at[b]) {
        assert b in before ==> IsKept(lines[..n], stamp, bucketOf, b, before[b]);
        KeptStep(lines, n, stamp, bucketOf, b, if b in before then Some(before[b]) else None, at[b]);
      }
    }
    assert lines[..|lines|] == lines;
  }

  lemma KeptStep(lines: seq<Line>, n: nat, stamp: Line -> Option<int>, bucketOf: int -> int, b: int,
                 before: Option<int>, now: int)
    requires n < |lines|
    requires before.Some? ==> IsKept(lines[..n], stamp, bucketOf, b, before.value)
    requires before.None? ==> forall j | 0 <= j < n :: !InBucket(stamp, bucketOf, lines[j], b)
    requires now == n ==> InBucket(stamp, bucketOf, lines[n], b)
    requires now == n && before.Some? ==> stamp(lines[before.value]).value <= stamp(lines[n]).value
    requires now != n ==> before == Some(now)
    requires now != n && InBucket(stamp, bucketOf, lines[n], b) ==> stamp(lines[now]).value > stamp(lines[n]).value
    ensures IsKept(lines[..n + 1], stamp, bucketOf, b, now)
  {
    assert lines[..n + 1] == lines[..n] + [lines[n]];
  }

  /** The lines at the indices `w`. */
  function Pick(lines: seq<Line>, w: seq<int>): seq<Line>
    requires forall i <- w :: 0 <= i < |lines|
  {
    assert forall k | 0 <= k < |w| :: w[k] in w;
    seq(|w|, k requires 0 <= k < |w| => lines[w[k]])
  }

  /** The bucket of line `i`, or -1 when it has no timestamp. */
  function BucketAt(lines: seq<Line>, stamp: Line -> Option<int>, bucketOf: int -> int, i: int): int {
    if 0 <= i < |lines| && stamp(lines[i]).Some? then bucketOf(stamp(lines[i]).value) else -1
  }

  /** Line `i` is kept by one of the buckets `0` to `size - 1`. */
  predicate KeptInRange(lines: seq<Line>, stamp: Line -> Option<int>, bucketOf: int -> int, size: int, i: int) {
    var b := BucketAt(lines, stamp, bucketOf, i);
    0 <= b < size && IsKept(lines, stamp, bucketOf, b, i)
  }

  /** If line `j` falls in a bucket that is read out, some sampled line stands for that bucket. */
  ghost predicate Represented(lines: seq<Line>, stamp: Line -> Option<int>, bucketOf: int -> int, size: int,
                              w: seq<int>, j: int)
  {
    0 <= BucketAt(lines, stamp, bucketOf, j) < size ==>
      exists i <- w :: BucketAt(lines, stamp, bucketOf, i) == BucketAt(lines, stamp, bucketOf, j)
  }

  ghost predicate BucketsIncrease(lines: seq<Line>, stamp: Line -> Option<int>, bucketOf: int -> int, w: seq<int>) {
    forall k, l | 0 <= k < l < |w| :: BucketAt(lines, stamp, bucketOf, w[k]) < BucketAt(lines, stamp, bucketOf, w[l])
  }

  /**
   * The sample of `lines` over the buckets `0` to `size - 1`: the kept line of every non-empty
   * bucket, in bucket order.
   */
  ghost predicate IsSample(lines: seq<Line>, stamp: Line -> Option<int>, bucketOf: int -> int, size: int, w: seq<int>) {
    && (forall i <- w :: KeptInRange(lines, stamp, bucketOf, size, i))
    && BucketsIncrease(lines, stamp, bucketOf, w)
    && (forall j :: Represented(lines, stamp, bucketOf, size, w, j))
  }

  method Sample<T>(lines: seq<Line>, stamp: Line -> Option<int>, bucketOf: int -> int, size: nat, dec: Decoder<T>)
    returns (out: seq<T>)
    ensures exists w :: IsSample(lines, stamp, bucketOf, size, w) && out == Decoded(dec, Pick(lines, w))
  {
    var buckets; ghost var at;
    buckets, at := FillBuckets(lines, stamp, bucketOf);
    var kept := ReadBuckets(lines, stamp, bucketOf, size, buckets, at);
    out := DecodeAll(dec, kept);
  }

  /** The walk over the buckets in order; decoding follows in the same order. */
  method ReadBuckets(lines: seq<Line>, stamp: Line -> Option<int>, bucketOf: int -> int, size: nat,
                     buckets: map<int, Sampled>, ghost at: map<int, int>)
    returns (kept: seq<Line>)
    requires buckets.Keys == at.Keys
    requires forall b <- at :: IsKept(lines, stamp, bucketOf, b, at[b]) && buckets[b].line == lines[at[b]]
    requires forall i | 0 <= i < |lines| && stamp(lines[i]).Some? :: bucketOf(stamp(lines[i]).value) in buckets
    ensures exists w :: IsSample(lines, stamp, bucketOf, size, w) && kept == Pick(lines, w)
  {
    kept := [];
    ghost var w: seq<int> := [];
    for b := 0 to size
      invariant |kept| == |w|
      invariant forall i <- w :: KeptInRange(lines, stamp, bucketOf, b, i)
      invariant forall k | 0 <= k < |w| :: 0 <= w[k] < |lines| && kept[k] == lines[w[k]]
      invariant BucketsIncrease(lines, stamp, bucketOf, w)
      invariant forall c <- at | 0 <= c < b :: at[c] in w
    {
      if b in buckets {
        assert IsKept(lines, stamp, bucketOf, b, at[b]);
        NextBucket(lines, stamp, bucketOf, b, w, at[b]);
        kept := kept + [buckets[b].line];
        w := w + [at[b]];
      }
    }
    forall j ensures Represented(lines, stamp, bucketOf, size, w, j) {
      var c := BucketAt(lines, stamp, bucketOf, j);
      if 0 <= c < size {
        assert c in at && at[c] in w && IsKept(lines, stamp, bucketOf, c, at[c]);
      }
    }
    assert IsSample(lines, stamp, bucketOf, size, w) && kept == Pick(lines, w);
  }

  lemma NextBucket(lines: seq<Line>, stamp: Line -> Option<int>, bucketOf: int -> int, b: int, w: seq<int>, i: int)
    requires forall j <- w :: KeptInRange(lines, stamp, bucketOf, b, j)
    requires BucketsIncrease(lines, stamp, bucketOf, w) && 0 <= b && IsKept(lines, stamp, bucketOf, b, i)
    ensures BucketsIncrease(lines, stamp, bucketOf, w + [i])
    ensures forall j <- w + [i] :: KeptInRange(lines, stamp, bucketOf, b + 1, j)
  {
    forall k | 0 <= k < |w| ensures BucketAt(lines, stamp, bucketOf, w[k]) < b {
      assert w[k] in w && KeptInRange(lines, stamp, bucketOf, b, w[k]);
    }
  }

  // ---------------------------------------------------------- what it gives

  lemma {:induction false} IncreasingInts(xs: seq<int>, lo: int, hi: int)
    requires lo <= hi && forall k | 0 <= k < |xs| :: lo <= xs[k] < hi
    requires forall k, l | 0 <= k < l < |xs| :: xs[k] < xs[l]
    ensures |xs| <= hi - lo
  {
    if xs != [] {
      var last := xs[|xs| - 1];
      IncreasingInts(xs[..|xs| - 1], lo, last);
    }
  }

  /** At most one line per bucket, so at most `size` records. */
  lemma SampleBounded<T>(lines: seq<Line>, stamp: Line -> Option<int>, bucketOf: int -> int, size: nat, w: seq<int>,
                         dec: Decoder<T>)
    requires IsSample(lines, stamp, bucketOf, size, w)
    ensures |w| <= size && |Decoded(dec, Pick(lines, w))| <= size
  {
    var bs := seq(|w|, k requires 0 <= k < |w| => BucketAt(lines, stamp, bucketOf, w[k]));
    forall k | 0 <= k < |bs| ensures 0 <= bs[k] < size {
      assert w[k] in w && KeptInRange(lines, stamp, bucketOf, size, w[k]);
    }
    IncreasingInts(bs, 0, size);
    DecodedLength(dec, Pick(lines, w));
  }

  /** A line is in the sample exactly when its bucket keeps it, so the lines determine the sample. */
  lemma SampleMembers(lines: seq<Line>, stamp: Line -> Option<int>, bucketOf: int -> int, size: nat, w: seq<int>,
                      i: int)
    requires IsSample(lines, stamp, bucketOf, size, w)
    ensures i in w <==> KeptInRange(lines, stamp, bucketOf, size, i)
  {
    if KeptInRange(lines, stamp, bucketOf, size, i) {
      assert Represented(lines, stamp, bucketOf, size, w, i);
      var j :| j in w && BucketAt(lines, stamp, bucketOf, j) == BucketAt(lines, stamp, bucketOf, i);
      assert KeptInRange(lines, stamp, bucketOf, size, j);
      OneKept(lines, stamp, bucketOf, BucketAt(lines, stamp, bucketOf, i), i, j);
    }
  }

  lemma OneKept(lines: seq<Line>, stamp: Line -> Option<int>, bucketOf: int -> int, b: int, i: int, j: int)
    requires IsKept(lines, stamp, bucketOf, b, i) && IsKept(lines, stamp, bucketOf, b, j)
    ensures i == j
  {
    assert InBucket(stamp, bucketOf, lines[i], b) && InBucket(stamp, bucketOf, lines[j], b);
  }

  /** Line `l` is the last of its bucket. */
  predicate LastInBucket(lines: seq<Line>, stamp: Line -> Option<int>, bucketOf: int -> int, b: int, l: int) {
    && 0 <= l < |lines| && InBucket(stamp, bucketOf, lines[l], b)
    && forall j | l < j < |lines| :: !InBucket(stamp, bucketOf, lines[j], b)
  }

  /**
   * The reader's comment promises the last record of a bucket. The bucket keeps its last line if and
   * only if no earlier line of the bucket has a later timestamp.
   */
  lemma LastIsKept(lines: seq<Line>, stamp: Line -> Option<int>, bucketOf: int -> int, b: int, i: int, l: int)
    requires IsKept(lines, stamp, bucketOf, b, i) && LastInBucket(lines, stamp, bucketOf, b, l)
    ensures i == l <==> forall j | 0 <= j < l && InBucket(stamp, bucketOf, lines[j], b) ::
                          stamp(lines[j]).value <= stamp(lines[l]).value
  {
    assert InBucket(stamp, bucketOf, lines[i], b) && i <= l;
  }

  lemma {:induction false} LastOf(lines: seq<Line>, stamp: Line -> Option<int>, bucketOf: int -> int, b: int,
                                  i: int) returns (l: int)
    requires 0 <= i < |lines| && InBucket(stamp, bucketOf, lines[i], b)
    ensures i <= l && LastInBucket(lines, stamp, bucketOf, b, l)
    decreases |lines| - i
  {
    if j :| i < j < |lines| && InBucket(stamp, bucketOf, lines[j], b) {
      l := LastOf(lines, stamp, bucketOf, b, j);
    } else {
      l := i;
    }
  }

  /** No line of a bucket that is read out has a later timestamp than the bucket's last line. */
  ghost predicate LastIsNewest(lines: seq<Line>, stamp: Line -> Option<int>, bucketOf: int -> int, size: int) {
    forall j, l | 0 <= j < l < |lines| && 0 <= BucketAt(lines, stamp, bucketOf, l) < size
                  && BucketAt(lines, stamp, bucketOf, j) == BucketAt(lines, stamp, bucketOf, l)
                  && LastInBucket(lines, stamp, bucketOf, BucketAt(lines, stamp, bucketOf, l), l) ::
      stamp(lines[j]).value <= stamp(lines[l]).value
  }

  lemma KeptIsLast(lines: seq<Line>, stamp: Line -> Option<int>, bucketOf: int -> int, size: int, i: int)
    requires LastIsNewest(lines, stamp, bucketOf, size) && KeptInRange(lines, stamp, bucketOf, size, i)
    ensures LastInBucket(lines, stamp, bucketOf, BucketAt(lines, stamp, bucketOf, i), i)
  {
    var b := BucketAt(lines, stamp, bucketOf, i);
    var l := LastOf(lines, stamp, bucketOf, b, i);
    LastIsKept(lines, stamp, bucketOf, b, i, l);
    assert forall j | 0 <= j < l && InBucket(stamp, bucketOf, lines[j], b) :: BucketAt(lines, stamp, bucketOf, j) == b;
  }

  /**
   * For a whole sample: every bucket keeps its last record if and only if in no bucket an earlier line has
   * a later timestamp than the last.
   */
  lemma SampleKeepsLast(lines: seq<Line>, stamp: Line -> Option<int>, bucketOf: int -> int, size: nat, w: seq<int>)
    requires IsSample(lines, stamp, bucketOf, size, w)
    ensures (forall i <- w :: LastInBucket(lines, stamp, bucketOf, BucketAt(lines, stamp, bucketOf, i), i)) <==>
            LastIsNewest(lines, stamp, bucketOf, size)
  {
    if LastIsNewest(lines, stamp, bucketOf, size) {
      forall i | i in w ensures LastInBucket(lines, stamp, bucketOf, BucketAt(lines, stamp, bucketOf, i), i) {
        KeptIsLast(lines, stamp, bucketOf, size, i);
      }
    }
    if forall i <- w :: LastInBucket(lines, stamp, bucketOf, BucketAt(lines, stamp, bucketOf, i), i) {
      forall j, l | 0 <= j < l < |lines| && 0 <= BucketAt(lines, stamp, bucketOf, l) < size
                    && BucketAt(lines, stamp, bucketOf, j) == BucketAt(lines, stamp, bucketOf, l)
                    && LastInBucket(lines, stamp, bucketOf, BucketAt(lines, stamp, bucketOf, l), l)
        ensures stamp(lines[j]).value <= stamp(lines[l]).value
      {
        var b := BucketAt(lines, stamp, bucketOf, l);
        assert Represented(lines, stamp, bucketOf, size, w, l);
        var i :| i in w && BucketAt(lines, stamp, bucketOf, i) == b;
        assert KeptInRange(lines, stamp, bucketOf, size, i);
        assert i == l by {
          assert InBucket(stamp, bucketOf, lines[i], b) && InBucket(stamp, bucketOf, lines[l], b);
        }
        assert InBucket(stamp, bucketOf, lines[j], b);
      }
    }
  }

  /** A log in order of time keeps the last record of every bucket. */
  lemma LastIsKeptInOrder(lines: seq<Line>, stamp: Line -> Option<int>, bucketOf: int -> int, b: int, i: int, l: int)
    requires IsKept(lines, stamp, bucketOf, b, i) && LastInBucket(lines, stamp, bucketOf, b, l)
    requires forall j, k | 0 <= j < k < |lines| && stamp(lines[j]).Some? && stamp(lines[k]).Some? ::
               stamp(lines[j]).value <= stamp(lines[k]).value
    ensures i == l
  {
    LastIsKept(lines, stamp, bucketOf, b, i, l);
  }

  const OLDER: Line := [51]
  const NEWER: Line := [53]

  /** A field that reads the digits 3 and 5 as timestamps. */
  const DIGIT :=
    TsField("ts", (line: Line) => if line == OLDER then Number(3) else if line == NEWER then Number(5) else Other)

  /** Timestamps 5 and then 3 in one bucket: the record with 5 is kept although the other is the last. */
  lemma LastRecordDropped()
    ensures var lines, bucketOf := [NEWER, OLDER], Bucketer(0, BucketSeconds(10, 0, 1), 1);
            && LastInBucket(lines, Stamper(DIGIT), bucketOf, 0, 1)
            && IsKept(lines, Stamper(DIGIT), bucketOf, 0, 0)
            && IsSample(lines, Stamper(DIGIT), bucketOf, 1, [0]) && Pick(lines, [0]) == [NEWER]
  {
    var lines, stamp, bucketOf := [NEWER, OLDER], Stamper(DIGIT), Bucketer(0, BucketSeconds(10, 0, 1), 1);
    assert BucketSeconds(10, 0, 1) == 10;
    assert stamp(lines[0]) == Some(5) && stamp(lines[1]) == Some(3) && bucketOf(5) == 0 && bucketOf(3) == 0;
    assert IsKept(lines, stamp, bucketOf, 0, 0);
    assert KeptInRange(lines, stamp, bucketOf, 1, 0);
    forall j ensures Represented(lines, stamp, bucketOf, 1, [0], j) {
      assert BucketAt(lines, stamp, bucketOf, 0) == 0 && 0 in [0];
    }
  }

  /** With buckets that follow time, a later bucket holds a later line. */
  lemma LaterBucket(lines: seq<Line>, stamp: Line -> Option<int>, bucketOf: int -> int, i: int, j: int)
    requires 0 <= BucketAt(lines, stamp, bucketOf, i) < BucketAt(lines, stamp, bucketOf, j)
    requires forall s, t | s in lines && t in lines && stamp(s).Some? && stamp(t).Some?
                           && stamp(s).value <= stamp(t).value ::
               bucketOf(stamp(s).value) <= bucketOf(stamp(t).value)
    ensures 0 <= i < |lines| && 0 <= j < |lines| && stamp(lines[i]).Some? && stamp(lines[j]).Some?
    ensures stamp(lines[i]).value < stamp(lines[j]).value
  {
    assert lines[i] in lines && lines[j] in lines;
  }

  // ----------------------------------------------------------- the buckets

  lemma PositiveFactor(x: int, d: int)
    requires d > 0 && x * d > 0
    ensures x > 0
  {
  }

  lemma DivMonotone(a: int, b: int, d: int)
    requires d > 0 && a <= b
    ensures a / d <= b / d
  {
    var qa, qb := a / d, b / d;
    assert a == d * qa + a % d && b == d * qb + b % d;
    assert (qb - qa + 1) * d == d * qb - d * qa + d;
    PositiveFactor(qb - qa + 1, d);
  }

  /** The window and the rounding up of its share both fit an int64, or one-second buckets are enough. */
  predicate WindowFits(now: int, cutoff: int, size: int) {
    now - cutoff < TWO63 && (now - cutoff + size - 1 < TWO63 || size >= now - cutoff)
  }

  /** Rounding a share up covers the whole. */
  lemma ShareCovers(window: int, size: int)
    requires window > 0 && size > 0
    ensures (window + size - 1) / size * size >= window && (window + size - 1) / size > 0
  {
    var q, r := (window + size - 1) / size, (window + size - 1) % size;
    assert window + size - 1 == size * q + r;
    PositiveFactor(q, size);
  }

  /** Without overflow the seconds of a bucket are the window's share, rounded up. */
  lemma SecondsExact(now: int, cutoff: int, size: int)
    requires IsInt64(now) && IsInt64(cutoff) && 0 < size < TWO63
    requires 0 < now - cutoff && now - cutoff + size - 1 < TWO63
    ensures BucketSeconds(now, cutoff, size) == (now - cutoff + size - 1) / size
  {
    var d := now - cutoff;
    ShareCovers(d, size);
    assert Wrap64(Wrap64(d + size) - 1) == d + size - 1;
  }

  /** When rounding up overflows, or the window itself does, a bucket has one second. */
  lemma SecondsOne(now: int, cutoff: int, size: int)
    requires IsInt64(now) && IsInt64(cutoff) && 0 < size < TWO63
    requires 0 < now - cutoff && now - cutoff + size - 1 >= TWO63
    ensures BucketSeconds(now, cutoff, size) == 1
  {
    var d := now - cutoff;
    if d < TWO63 {
      assert Wrap64(Wrap64(d + size) - 1) == d + size - 1 - TWO64;
      DivMonotone(0, TWO64 - (d + size - 1), size);
    } else {
      assert Wrap64(d) == d - TWO64 <= 0;
      assert Wrap64(Wrap64(1 + size) - 1) == size && size / size == 1;
    }
  }

  /** The buckets together span the window if and only if its share is computed without overflow, or needs none. */
  lemma BucketsSpanWindow(now: int, cutoff: int, size: int)
    requires IsInt64(now) && IsInt64(cutoff) && 0 < size < TWO63
    ensures BucketSeconds(now, cutoff, size) * size >= now - cutoff <==> WindowFits(now, cutoff, size)
  {
    var d := now - cutoff;
    if d > 0 && d + size - 1 < TWO63 {
      SecondsExact(now, cutoff, size);
      ShareCovers(d, size);
    } else if d > 0 {
      SecondsOne(now, cutoff, size);
    } else {
      PositiveProduct(BucketSeconds(now, cutoff, size), size);
    }
  }

  /** A cutoff at the smallest int64, which takes everything, makes buckets of one second. */
  lemma WindowTooLong()
    ensures BucketSeconds(1_700_000_000, -TWO63, 10) == 1 && !WindowFits(1_700_000_000, -TWO63, 10)
  {
    SecondsOne(1_700_000_000, -TWO63, 10);
  }

  lemma PositiveProduct(a: int, b: int)
    requires a > 0 && b > 0
    ensures a * b > 0
  {
  }

  /** A timestamp before `now` has its own bucket, without being clamped. */
  predicate OwnBucket(ts: int, now: int, cutoff: int, size: int)
    requires size > 0
  {
    var s := BucketSeconds(now, cutoff, size);
    0 <= (ts - cutoff) / s <= size - 1 && Bucket(ts, cutoff, s, size) == (ts - cutoff) / s
  }

  /** On exactly those windows, only timestamps at or after `now` are ever clamped. */
  lemma ClampingIsForTheFuture(now: int, cutoff: int, size: int)
    requires IsInt64(now) && IsInt64(cutoff) && 0 < size < TWO63
    ensures (forall ts | cutoff <= ts < now :: OwnBucket(ts, now, cutoff, size)) <==> WindowFits(now, cutoff, size)
  {
    if WindowFits(now, cutoff, size) {
      forall ts | cutoff <= ts < now ensures OwnBucket(ts, now, cutoff, size) {
        OwnBucketInWindow(ts, now, cutoff, size);
      }
    } else {
      SecondsOne(now, cutoff, size);
      assert !OwnBucket(now - 1, now, cutoff, size);
    }
  }

  lemma OwnBucketInWindow(ts: int, now: int, cutoff: int, size: int)
    requires IsInt64(now) && IsInt64(cutoff) && 0 < size < TWO63
    requires WindowFits(now, cutoff, size) && cutoff <= ts < now
    ensures OwnBucket(ts, now, cutoff, size)
  {
    var s := BucketSeconds(now, cutoff, size);
    BucketsSpanWindow(now, cutoff, size);
    QuotientWithin(ts - cutoff, s, size);
    assert Wrap64(ts - cutoff) == ts - cutoff;
  }

  lemma QuotientWithin(d: int, s: int, size: int)
    requires 0 <= d < s * size && s > 0
    ensures 0 <= d / s <= size - 1
  {
    var q, r := d / s, d % s;
    assert d == s * q + r;
    assert (size - q) * s == s * size - s * q;
    PositiveFactor(size - q, s);
    DivMonotone(0, d, s);
  }

  /** Without overflow buckets follow time. */
  lemma BucketMonotone(s: int, t: int, cutoff: int, seconds: int, size: int)
    requires seconds > 0 && cutoff <= s <= t && t - cutoff < TWO63
    ensures Bucket(s, cutoff, seconds, size) <= Bucket(t, cutoff, seconds, size)
    ensures size > 0 ==> 0 <= Bucket(s, cutoff, seconds, size) < size
  {
    DivMonotone(0, s - cutoff, seconds);
    DivMonotone(s - cutoff, t - cutoff, seconds);
  }

  /** The bucket a timestamp should have, with exact arithmetic. */
  function ExactBucket(ts: int, cutoff: int, seconds: int, size: int): int
    requires seconds > 0
  {
    var b := (ts - cutoff) / seconds;
    if b > size - 1 then size - 1 else b
  }

  /**
   * A scanned timestamp gets its exact bucket if and only if its distance from the cutoff fits an
   * int64, or there is one bucket and the wrapped distance is still within it.
   */
  lemma BucketExact(ts: int, cutoff: int, seconds: int, size: int)
    requires IsInt64(ts) && IsInt64(cutoff) && cutoff <= ts && 0 < seconds < TWO63 && size > 0
    ensures Bucket(ts, cutoff, seconds, size) == ExactBucket(ts, cutoff, seconds, size) <==>
              ts - cutoff < TWO63 || (size == 1 && TWO64 - (ts - cutoff) < seconds)
  {
    var d := ts - cutoff;
    if d < TWO63 {
      assert Wrap64(d) == d;
    } else {
      OverflowedBucket(ts, cutoff, seconds, size);
      QuotientPositive(d, seconds);
      if size == 1 {
        QuotientPositive(TWO64 - d, seconds);
      }
    }
  }

  /** With an overflow the bucket is the wrapped distance's: not positive, and zero when that is within one bucket. */
  lemma OverflowedBucket(ts: int, cutoff: int, seconds: int, size: int)
    requires IsInt64(ts) && IsInt64(cutoff) && ts - cutoff >= TWO63 && 0 < seconds && size > 0
    ensures Bucket(ts, cutoff, seconds, size) == -((TWO64 - (ts - cutoff)) / seconds) <= 0
  {
    var m := TWO64 - (ts - cutoff);
    assert Wrap64(ts - cutoff) == -m && m > 0;
    DivMonotone(0, m, seconds);
  }

  lemma QuotientPositive(d: int, s: int)
    requires d > 0 && s > 0
    ensures d / s > 0 <==> d >= s
    ensures d / s >= 0
  {
    var q, r := d / s, d % s;
    assert d == s * q + r;
    DivMonotone(0, d, s);
    if d >= s {
      PositiveFactor(q, s);
    } else {
      assert (1 - q) * s == s - s * q;
      PositiveFactor(1 - q, s);
    }
  }

  /** A line whose distance overflows can be lost: its bucket is negative and never read out. */
  lemma OverflowLosesLine()
    ensures Bucket(TWO63 - 1, -1, BucketSeconds(1_700_000_000, -1, 10), 10) < 0
  {
    assert BucketSeconds(1_700_000_000, -1, 10) == 170_000_001;
    assert Wrap64(TWO63) == -TWO63;
    assert TWO63 / 170_000_001 > 0;
  }

  // ------------------------------------------------------------- the reader

  method DecodeSinceSampled<T>(dir: Folder, n: Naming, cutoff: int, now: int, later: int, offset: int, ts: TsField,
                               extra: Filter, size: int, dec: Decoder<T>)
    returns (out: seq<T>, err: Option<Error>)
    // the clock is read once for the window (`now`) and once more for the scan (`later`)
    ensures var scan := ScanDates(dir, n, ScanDays(cutoff, later, offset), And([TsGte(ts, cutoff), extra]), Always, []);
            && err == scan.0
            && (size <= 0 ==> out == Decoded(dec, scan.1))
            && (size > 0 && err.Some? ==> out == [])
            && (size > 0 && err.None? ==> exists w ::
                  && IsSample(scan.1, Stamper(ts), Bucketer(cutoff, BucketSeconds(now, cutoff, size), size), size, w)
                  && out == Decoded(dec, Pick(scan.1, w)))
  {
    if size <= 0 {
      out, err := DecodeSince(dir, n, cutoff, later, offset, ts, extra, dec);
      return;
    }
    var lines;
    err, lines := ScanSince(dir, n, cutoff, later, offset, ts, extra, Always);
    if err.Some? {
      return [], err;
    }
    out := Sample(lines, Stamper(ts), Bucketer(cutoff, BucketSeconds(now, cutoff, size), size), size, dec);
  }

  function Stamper(ts: TsField): Line -> Option<int> {
    (line: Line) => ParseTimestamp(line, ts)
  }

  function Bucketer(cutoff: int, seconds: int, size: int): int -> int
    requires seconds > 0
  {
    (t: int) => Bucket(t, cutoff, seconds, size)
  }

  predicate Earlier(a: Line, b: Line, ts: TsField) {
    var s, t := ParseTimestamp(a, ts), ParseTimestamp(b, ts);
    s.Some? && t.Some? && s.value < t.value
  }

  /** The distance of every timestamp from the cutoff fits an int64. */
  predicate DistancesFit(lines: seq<Line>, ts: TsField, cutoff: int) {
    forall l <- lines :: var t := ParseTimestamp(l, ts); t.Some? ==> cutoff <= t.value < cutoff + TWO63
  }

  predicate StampsIncrease(lines: seq<Line>, ts: TsField) {
    forall k, l | 0 <= k < l < |lines| :: Earlier(lines[k], lines[l], ts)
  }

  /**
   * What the sampled reader promises: at most `size` records, and of lines whose timestamps increase
   * strictly when their distances from the cutoff fit an int64.
   */
  lemma SampledPromise<T>(lines: seq<Line>, ts: TsField, cutoff: int, seconds: int, size: nat, w: seq<int>,
                          dec: Decoder<T>)
    requires seconds > 0 && IsSample(lines, Stamper(ts), Bucketer(cutoff, seconds, size), size, w)
    ensures |Decoded(dec, Pick(lines, w))| <= size
    ensures DistancesFit(lines, ts, cutoff) ==> StampsIncrease(Pick(lines, w), ts)
  {
    var stamp, bucketOf := Stamper(ts), Bucketer(cutoff, seconds, size);
    SampleBounded(lines, stamp, bucketOf, size, w, dec);
    if DistancesFit(lines, ts, cutoff) {
      forall s, t | s in lines && t in lines && stamp(s).Some? && stamp(t).Some? && stamp(s).value <= stamp(t).value
        ensures bucketOf(stamp(s).value) <= bucketOf(stamp(t).value)
      {
        BucketMonotone(stamp(s).value, stamp(t).value, cutoff, seconds, size);
      }
      forall k, l | 0 <= k < l < |w|
        ensures Earlier(Pick(lines, w)[k], Pick(lines, w)[l], ts)
      {
        assert w[k] in w && KeptInRange(lines, stamp, bucketOf, size, w[k]);
        LaterBucket(lines, stamp, bucketOf, w[k], w[l]);
      }
    }
  }

  lemma {:induction false} ScannedPass(ps: seq<Line>, f: Filter)
    ensures forall l <- Scanned(ps, f) :: Passes(f, l)
  {
    if ps != [] && |ps[0]| < MAX_LINE {
      ScannedPass(ps[1..], f);
    }
  }

  lemma {:induction false} FeedFrom(lines: seq<Line>, h: Handler, seen: seq<Line>)
    ensures forall l <- Feed(lines, h, seen).seen :: l in seen || l in lines
  {
    if lines != [] {
      FeedFrom(lines[1..], h, seen + [lines[0]]);
    }
  }

  /** A handler is only given lines that pass the filter. */
  lemma {:induction false} ScanPasses(dir: Folder, n: Naming, dates: seq<string>, f: Filter, h: Handler,
                                      seen: seq<Line>)
    requires forall l <- seen :: Passes(f, l)
    ensures forall l <- ScanDates(dir, n, dates, f, h, seen).1 :: Passes(f, l)
  {
    if dates != [] {
      var lines := DayLines(dir, n, dates[0], f);
      ScannedPass(Pieces(Front(Open(dir, n.FileName(dates[0])))), f);
      FeedFrom(lines, h, seen);
      OneFile(Open(dir, n.FileName(dates[0])), f, h, seen);
      ScanPasses(dir, n, dates[1..], f, h, Feed(lines, h, seen).seen);
    }
  }

  /** The lines one call of the sampled reader is given. */
  function ScannedLines(dir: Folder, n: Naming, cutoff: int, later: int, offset: int, ts: TsField, extra: Filter)
    : seq<Line>
  {
    ScanDates(dir, n, ScanDays(cutoff, later, offset), And([TsGte(ts, cutoff), extra]), Always, []).1
  }

  /**
   * The promise for a whole call of the sampled reader: at most `size` records, and of lines whose
   * timestamps increase strictly unless some timestamp is 2^63 seconds or more after the cutoff, which no
   * int64 timestamp is when the cutoff is not negative.
   */
  lemma SampledReaderPromise<T>(dir: Folder, n: Naming, cutoff: int, now: int, later: int, offset: int, ts: TsField,
                                extra: Filter, size: nat, dec: Decoder<T>, w: seq<int>)
    requires size > 0
    requires IsSample(ScannedLines(dir, n, cutoff, later, offset, ts, extra), Stamper(ts),
                      Bucketer(cutoff, BucketSeconds(now, cutoff, size), size), size, w)
    ensures var lines := ScannedLines(dir, n, cutoff, later, offset, ts, extra);
            && |Decoded(dec, Pick(lines, w))| <= size
            && ((forall l <- lines :: var t := ParseTimestamp(l, ts); t.Some? ==> t.value < cutoff + TWO63) ==>
                  StampsIncrease(Pick(lines, w), ts))
            && ((forall l <- lines :: var t := ParseTimestamp(l, ts); t.Some? ==> IsInt64(t.value)) && cutoff >= 0 ==>
                  StampsIncrease(Pick(lines, w), ts))
  {
    var f := And([TsGte(ts, cutoff), extra]);
    var lines := ScannedLines(dir, n, cutoff, later, offset, ts, extra);
    ScanPasses(dir, n, ScanDays(cutoff, later, offset), f, Always, []);
    forall l | l in lines
      ensures var t := ParseTimestamp(l, ts); t.Some? ==> cutoff <= t.value
    {
      if ts.path != "" {
        SinceFilter(ts, cutoff, extra, l);
      }
    }
    SampledPromise(lines, ts, cutoff, BucketSeconds(now, cutoff, size), size, w, dec);
  }
}
