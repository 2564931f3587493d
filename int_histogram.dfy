/** IntHistogram: a fixed-width histogram over an integer range, the
    integer bookkeeping only (bucket sizing, bucket index, bucket widths and
    counting). */
module Histogram {
  import opened JavaInt

  /** The sum of a sequence of counts. */
  function Total(s: seq<int>): int
  {
    if s == [] then 0 else Total(s[..|s| - 1]) + s[|s| - 1]
  }

  /** Raising one count by `d` raises the total by `d`. */
  lemma {:induction false} TotalUpdate(s: seq<int>, i: nat, d: int)
    requires i < |s|
    ensures Total(s[i := s[i] + d]) == Total(s) + d
  {
    var s' := s[i := s[i] + d];
    assert s'[..|s| - 1] == if i == |s| - 1 then s[..|s| - 1] else s[..|s| - 1][i := s[i] + d];
    if i < |s| - 1 {
      TotalUpdate(s[..|s| - 1], i, d);
    }
  }

  /** A sequence of zeros totals zero. */
  lemma {:induction false} TotalZeros(s: seq<int>)
    requires forall i :: 0 <= i < |s| ==> s[i] == 0
    ensures Total(s) == 0
  {
    if s != [] {
      TotalZeros(s[..|s| - 1]);
    }
  }

  /** `q` is the quotient of `a` by `w`: its bounds characterise it. */
  lemma QuotientUnique(a: int, w: int, q: int)
    requires 0 <= a && 0 < w && q * w <= a < (q + 1) * w
    ensures a / w == q
  {
    var r := a / w;
    assert r * w <= a < r * w + w;
    if r < q {
      MulMonotone(r + 1, q, w);
    } else if r > q {
      MulMonotone(q + 1, r, w);
    }
  }

  /** The quotient of a range by a bucket count no larger than it is at
      least one, and that many buckets of that width fit in the range. */
  lemma DivShape(range: int, n: int)
    requires 1 <= n <= range
    ensures 1 <= range / n && n * (range / n) <= range
  {
    var w := range / n;
    assert range == w * n + range % n;
  }

  lemma MulMonotone(a: int, b: int, w: int)
    requires a <= b && 0 < w
    ensures a * w <= b * w
  {
  }

  /** A count of a non-negative sequence is at most its total. */
  lemma {:induction false} TotalAtLeast(s: seq<int>, i: nat)
    requires i < |s| && forall j :: 0 <= j < |s| ==> s[j] >= 0
    ensures s[i] <= Total(s)
  {
    var p := s[..|s| - 1];
    if i < |s| - 1 {
      TotalAtLeast(p, i);
      TotalNonNegative(p);
    } else {
      TotalNonNegative(p);
    }
  }

  /** A sequence of non-negative counts has a non-negative total. */
  lemma {:induction false} TotalNonNegative(s: seq<int>)
    requires forall j :: 0 <= j < |s| ==> s[j] >= 0
    ensures Total(s) >= 0
  {
    if s != [] {
      TotalNonNegative(s[..|s| - 1]);
    }
  }

  /** Equal modulo 2^32: what a Java `int` can tell apart. */
  predicate SameMod32(a: int, b: int)
  {
    (a - b) % TWO_32 == 0
  }

  /** Congruences modulo 2^32 add up. */
  lemma SameMod32Add(a: int, b: int, c: int, d: int)
    requires SameMod32(a, b) && SameMod32(c, d)
    ensures SameMod32(a + c, b + d)
  {
    var k := (a - b) / TWO_32;
    var l := (c - d) / TWO_32;
    assert a - b == k * TWO_32;
    assert c - d == l * TWO_32;
    assert (a + c) - (b + d) == (k + l) * TWO_32;
  }

  class IntHistogram {
    /** `_bucketsNum`: at most one bucket per value of the range. */
    const bucketsNum: int
    const min: int
    const max: int
    /** `_width`: the width of every bucket but the last. */
    const width: int
    /** `_buckets`: the count of each bucket, a Java `int`. */
    const buckets: array<int32>
    /** `_tuplesNum`: the number of values added, a Java `int`. */
    var tuplesNum: int32
    /** The number of values added, without wrap-around. */
    ghost var added: nat

    /** The fixed shape set up by the constructor. The range `max - min + 1`
        fits in a Java int. */
    predicate Shape()
    {
      && min <= max
      && IsInt32(min) && IsInt32(max) && max - min + 1 <= INT_MAX
      && 1 <= bucketsNum <= max - min + 1
      && width == (max - min + 1) / bucketsNum
      && 1 <= width && bucketsNum * width <= max - min + 1
      && buckets.Length == bucketsNum
    }

    /** `_tuplesNum` is the number of values added and the counts add up to
        it, both modulo 2^32 as Java's `int` wraps. While no more than
        INT_MAX values have been added nothing has wrapped: the counts are
        non-negative and add up to exactly that number. */
    ghost predicate Valid()
      reads this, buckets
    {
      && Shape()
      && tuplesNum == Wrap32(added)
      && SameMod32(Total(buckets[..]), added)
      && (added <= INT_MAX ==>
            (forall i :: 0 <= i < buckets.Length ==> buckets[i] >= 0) && Total(buckets[..]) == added)
    }

    /** `IntHistogram(buckets, min, max)`: `min(buckets, max - min + 1)`
        buckets of width `(max - min + 1) / bucketsNum`, all empty. */
    constructor (buckets: int, min: int, max: int)
      requires IsInt32(buckets) && IsInt32(min) && IsInt32(max)
      requires buckets >= 1 && min <= max && max - min + 1 <= INT_MAX
      ensures Valid() && fresh(this.buckets)
      ensures bucketsNum == if max - min + 1 < buckets then max - min + 1 else buckets
      ensures this.min == min && this.max == max
      ensures width == (max - min + 1) / bucketsNum && width >= 1
      ensures this.buckets.Length == bucketsNum
      ensures forall i :: 0 <= i < bucketsNum ==> this.buckets[i] == 0
      ensures tuplesNum == 0 && added == 0
    {
      var n := if max - min + 1 < buckets then max - min + 1 else buckets;
      bucketsNum := n;
      this.min := min;
      this.max := max;
      DivShape(max - min + 1, n);
      width := (max - min + 1) / n;
      this.buckets := new int32[n](_ => 0);
      tuplesNum := 0;
      added := 0;
      new;
      TotalZeros(this.buckets[..]);
    }

    /** `getBucket(value)`: the bucket of a value at least `min`. Bucket
        `i` below the last holds `[min + i * width, min + (i + 1) * width)`;
        the last bucket holds everything from `min + (bucketsNum - 1) * width`
        up, values above `max` included. */
    function GetBucket(value: int): (i: int)
      requires Shape()
      requires min <= value && value - min + 1 <= INT_MAX
      ensures 0 <= i < bucketsNum
      ensures i < bucketsNum - 1 ==> min + i * width <= value < min + (i + 1) * width
      ensures i == bucketsNum - 1 <==> min + (bucketsNum - 1) * width <= value
    {
      if value - min + 1 <= width * (bucketsNum - 1) then
        var q := (value - min) / width;
        assert q * width <= value - min < q * width + width;
        assert q < bucketsNum - 1 by {
          if q >= bucketsNum - 1 {
            MulMonotone(bucketsNum - 1, q, width);
          }
        }
        q
      else bucketsNum - 1
    }

    /** The converse: a value in bucket `i`'s interval lands in bucket `i`. */
    lemma BucketOfValue(value: int, i: int)
      requires Shape()
      requires min <= value && value - min + 1 <= INT_MAX
      requires 0 <= i < bucketsNum - 1 && min + i * width <= value < min + (i + 1) * width
      ensures GetBucket(value) == i
    {
      MulMonotone(i + 1, bucketsNum - 1, width);
      QuotientUnique(value - min, width, i);
    }

    /** `getBucketWidth(id)`: `width` for every bucket but the last, which
        takes the rest of the range and so is at least as wide. */
    function GetBucketWidth(id: int): (w: int)
      requires Shape()
      ensures id != bucketsNum - 1 ==> w == width
      ensures id == bucketsNum - 1 ==> w >= width && min + (bucketsNum - 1) * width + w == max + 1
    {
      if id == bucketsNum - 1 then (max - min + 1) - width * (bucketsNum - 1) else width
    }

    /** The widths of the first `k` buckets, added up. */
    function WidthSum(k: nat): int
      requires Shape() && k <= bucketsNum
    {
      if k == 0 then 0 else WidthSum(k - 1) + GetBucketWidth(k - 1)
    }

    /** The buckets below the last cover `width` values each. */
    lemma {:induction false} WidthSumPrefix(k: nat)
      requires Shape() && k < bucketsNum
      ensures WidthSum(k) == k * width
    {
      if k > 0 {
        WidthSumPrefix(k - 1);
      }
    }

    /** The bucket widths add up to the whole range: the buckets tile
        `[min, max]`. */
    lemma WidthsCoverRange()
      requires Shape()
      ensures WidthSum(bucketsNum) == max - min + 1
    {
      WidthSumPrefix(bucketsNum - 1);
    }

    /** `addValue(v)`: one more value, counted in its bucket and in the
        total, each with Java's 32-bit `++`. */
    method AddValue(v: int)
      requires Valid()
      requires min <= v && v - min + 1 <= INT_MAX
      modifies this, buckets
      ensures Valid()
      ensures added == old(added) + 1
      ensures tuplesNum == Wrap32(old(tuplesNum) as int + 1)
      ensures buckets[..] == old(buckets[..])[GetBucket(v) := Wrap32(old(buckets[GetBucket(v)]) as int + 1)]
    {
      var i := GetBucket(v);
      ghost var b: seq<int> := buckets[..];
      var c: int32 := Wrap32(buckets[i] as int + 1);
      TotalUpdate(b, i, c as int - b[i]);
      assert b[i := b[i] + (c as int - b[i])] == b[i := c];
      SameMod32Add(Total(b), added, c as int - b[i], 1);
      WrapAddLeft(added, 1);
      if added + 1 <= INT_MAX {
        TotalAtLeast(b, i);
      }
      tuplesNum := Wrap32(tuplesNum as int + 1);
      buckets[i] := c;
      added := added + 1;
      assert buckets[..] == b[i := c];
    }

    /** Up to INT_MAX values nothing wraps: `_tuplesNum` is the number of
        values added and the bucket counts add up to it. */
    lemma CountsAddUp()
      requires Valid() && added <= INT_MAX
      ensures tuplesNum == added == Total(buckets[..])
      ensures forall i :: 0 <= i < bucketsNum ==> 0 <= buckets[i] <= tuplesNum
    {
      forall i | 0 <= i < bucketsNum
        ensures buckets[i] <= tuplesNum
      {
        TotalAtLeast(buckets[..], i);
      }
    }
  }
}
