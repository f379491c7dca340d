/**
 * The range arithmetic of `distribute` in superpermutations.go: `count` units
 * are split into min(32, count) contiguous buckets with inclusive bounds. The
 * goroutine launched per bucket and the wait group are not modelled; the
 * buckets are returned in order instead.
 */
module Distribution {
  import opened Factorials

  /** The inclusive index range [start, end] handed to one callback. */
  datatype Bucket = Bucket(start: int, end: int)

  /** `maxGoroutines`. */
  const MaxGoroutines: int := 32

  function Min(a: int, b: int): int
  {
    if a < b then a else b
  }

  /** How many indices an inclusive bucket covers. */
  function Size(b: Bucket): int
  {
    b.end - b.start + 1
  }

  /** The i-th bucket, for buckets of `size` units of which the first `drop` get one more. */
  function BucketAt(i: int, size: int, drop: int): Bucket
  {
    var start := i * size + Min(i, drop);
    Bucket(start, start + size - 1 + (if i < drop then 1 else 0))
  }

  /**
   * The buckets `distribute(count, cb)` hands to its callbacks, in launch order.
   * A count of zero divides by zero in the source, hence the precondition.
   */
  function Buckets(count: int): (bs: seq<Bucket>)
    requires count >= 1
    ensures |bs| == Min(MaxGoroutines, count)
    ensures forall i :: 0 <= i < |bs| ==> 0 <= bs[i].start <= bs[i].end < count
  {
    var bucketCount := Min(MaxGoroutines, count);
    var bucketSize := count / bucketCount;
    var bucketDrop := count % bucketCount;
    BucketsTileAux(count, bucketCount, bucketSize, bucketDrop);
    seq(bucketCount, i requires 0 <= i < bucketCount => BucketAt(i, bucketSize, bucketDrop))
  }

  /**
   * `distribute` as the source computes it: one start/end pair per pass of the
   * counting loop.
   */
  method Distribute(count: int) returns (buckets: seq<Bucket>)
    requires count >= 1
    ensures buckets == Buckets(count)
  {
    var bucketCount := Min(MaxGoroutines, count);
    var bucketSize := count / bucketCount;
    var bucketDrop := count % bucketCount;
    buckets := [];
    for i := 0 to bucketCount
      invariant buckets == Buckets(count)[..i]
    {
      var start := i * bucketSize + Min(i, bucketDrop);
      var end := start + bucketSize - 1;
      if i < bucketDrop {
        end := end + 1;
      }
      buckets := buckets + [Bucket(start, end)];
    }
  }

  /**
   * The buckets tile [0, count) in order: the first starts at 0, each next one
   * starts right after the previous end, the last ends at count - 1; their sizes
   * are count / |bs| plus one for exactly the first count % |bs| of them, so any
   * two differ by at most one.
   */
  lemma BucketsTile(count: int)
    requires count >= 1
    ensures var bs := Buckets(count);
      && bs[0].start == 0
      && bs[|bs| - 1].end == count - 1
      && (forall i :: 0 < i < |bs| ==> bs[i].start == bs[i - 1].end + 1)
      && (forall i :: 0 <= i < |bs| ==>
            Size(bs[i]) == count / |bs| + (if i < count % |bs| then 1 else 0))
      && (forall i, j :: 0 <= i < |bs| && 0 <= j < |bs| ==> 1 <= Size(bs[i]) <= Size(bs[j]) + 1)
  {
    var bs := Buckets(count);
    var bucketCount := Min(MaxGoroutines, count);
    BucketsTileAux(count, bucketCount, count / bucketCount, count % bucketCount);
  }

  lemma BucketsTileAux(count: int, bucketCount: int, size: int, drop: int)
    requires count >= 1 && bucketCount == Min(MaxGoroutines, count)
    requires size == count / bucketCount && drop == count % bucketCount
    ensures size >= 1 && 0 <= drop < bucketCount
    ensures BucketAt(0, size, drop).start == 0
    ensures BucketAt(bucketCount - 1, size, drop).end == count - 1
    ensures forall i :: 0 < i < bucketCount ==>
      BucketAt(i, size, drop).start == BucketAt(i - 1, size, drop).end + 1
    ensures forall i :: 0 <= i < bucketCount ==>
      Size(BucketAt(i, size, drop)) == size + (if i < drop then 1 else 0)
    ensures forall i :: 0 <= i < bucketCount ==>
      0 <= BucketAt(i, size, drop).start <= BucketAt(i, size, drop).end < count
  {
    BucketSizePositive(count, bucketCount, size, drop);
    LastBucketEnd(bucketCount, size, drop);
    forall i | 0 < i < bucketCount
      ensures BucketAt(i, size, drop).start == BucketAt(i - 1, size, drop).end + 1
    {
      NextBucket(i, size, drop);
    }
    forall i | 0 <= i < bucketCount
      ensures 0 <= BucketAt(i, size, drop).start <= BucketAt(i, size, drop).end < count
    {
      BucketInRange(count, bucketCount, size, drop, i);
    }
  }

  lemma BucketSizePositive(count: int, bucketCount: int, size: int, drop: int)
    requires 1 <= bucketCount <= count
    requires size == count / bucketCount && drop == count % bucketCount
    ensures size >= 1 && 0 <= drop < bucketCount && count == bucketCount * size + drop
  {
    if size < 1 {
      MulStep(bucketCount, size, 1);
    }
  }

  lemma BucketInRange(count: int, bucketCount: int, size: int, drop: int, i: int)
    requires size >= 1 && 0 <= drop < bucketCount && count == bucketCount * size + drop
    requires 0 <= i < bucketCount
    ensures 0 <= BucketAt(i, size, drop).start <= BucketAt(i, size, drop).end < count
  {
    LastBucketEnd(bucketCount, size, drop);
    if i < bucketCount - 1 {
      MulStep(size, i, bucketCount - 1);
    }
  }

  lemma NextBucket(i: int, size: int, drop: int)
    requires i > 0
    ensures BucketAt(i, size, drop).start == BucketAt(i - 1, size, drop).end + 1
  {
    assert i * size == (i - 1) * size + size;
  }

  lemma LastBucketEnd(bucketCount: int, size: int, drop: int)
    requires 0 <= drop < bucketCount
    ensures BucketAt(bucketCount - 1, size, drop).end == bucketCount * size + drop - 1
  {
    assert (bucketCount - 1) * size + size == bucketCount * size;
  }

  /**
   * Every index in [0, count) lies in exactly one bucket: the one returned.
   */
  lemma BucketOf(count: int, x: int) returns (b: int)
    requires count >= 1 && 0 <= x < count
    ensures 0 <= b < |Buckets(count)|
    ensures Buckets(count)[b].start <= x <= Buckets(count)[b].end
    ensures forall c :: 0 <= c < |Buckets(count)| && Buckets(count)[c].start <= x <= Buckets(count)[c].end ==> c == b
  {
    var bs := Buckets(count);
    BucketsTile(count);
    BucketsOrdered(count);
    b := Locate(count, x, |bs| - 1);
  }

  /** A later bucket starts after an earlier one ends. */
  lemma BucketsOrdered(count: int)
    requires count >= 1
    ensures forall i, j :: 0 <= i < j < |Buckets(count)| ==> Buckets(count)[i].end < Buckets(count)[j].start
  {
    var bs := Buckets(count);
    BucketsTile(count);
    forall i, j | 0 <= i < j < |bs|
      ensures bs[i].end < bs[j].start
    {
      OrderedFrom(bs, i, j);
    }
  }

  lemma {:induction false} OrderedFrom(bs: seq<Bucket>, i: int, j: int)
    requires 0 <= i < j < |bs|
    requires forall k :: 0 < k < |bs| ==> bs[k].start == bs[k - 1].end + 1
    requires forall k :: 0 <= k < |bs| ==> bs[k].start <= bs[k].end
    ensures bs[i].end < bs[j].start
    decreases j - i
  {
    if j > i + 1 {
      OrderedFrom(bs, i, j - 1);
    }
  }

  lemma {:induction false} Locate(count: int, x: int, m: int) returns (b: int)
    requires count >= 1 && 0 <= m < |Buckets(count)|
    requires 0 <= x <= Buckets(count)[m].end
    requires Buckets(count)[0].start == 0
    requires forall i :: 0 < i < |Buckets(count)| ==> Buckets(count)[i].start == Buckets(count)[i - 1].end + 1
    ensures 0 <= b <= m && Buckets(count)[b].start <= x <= Buckets(count)[b].end
    decreases m
  {
    if m == 0 || Buckets(count)[m].start <= x {
      b := m;
    } else {
      b := Locate(count, x, m - 1);
    }
  }

  /** Up to 32 units, every bucket holds the single index it is numbered by. */
  lemma SmallCountSingletons(count: int)
    requires 1 <= count <= MaxGoroutines
    ensures |Buckets(count)| == count
    ensures forall i :: 0 <= i < count ==> Buckets(count)[i] == Bucket(i, i)
  {
    assert count / count == 1 && count % count == 0;
  }
}
