/**
 * IntHistogram, integer part: a fixed number of equal-width buckets over
 * [min, max], a value's bucket, and the counts addValue keeps. Every
 * computation is Java `int` arithmetic and wraps where the source's does.
 */
module Histograms {
  import opened Wrappers
  import opened JavaInts

  /** The fields the constructor fixes: the bucket count, zeroOffset, the shifted bounds and the width. */
  datatype Shape = Shape(buckets: int, zeroOffset: int32, min: int32, max: int32, width: int32)

  predicate WellShaped(s: Shape)
  {
    s.buckets >= 1 && s.width >= 1 && s.min >= 0
  }


  /**
   * The constructor: the bucket count is capped at max - min + 1, a
   * negative min moves both bounds up by -min, and the width is the
   * range divided by the bucket count. A negative count is a
   * NegativeArraySizeException, a zero count a division by zero.
   */
  function Layout(buckets: int32, min: int32, max: int32): (r: Result<Shape>)
  {
    var range := Wrap32(max as int - min as int + 1);
    var n := if buckets > range then range else buckets;
    if n < 0 then Err(NegativeArraySizeException)
    else
      var z: int32 := if min < 0 then Wrap32(-(min as int)) else 0;
      if n == 0 then Err(ArithmeticException)
      else Ok(Shape(n as int, z, Wrap32(min as int + z as int), Wrap32(max as int + z as int), Wrap32(JavaDiv(range as int, n as int))))
  }

  /** A value congruent to x modulo 2^32 and inside the int range is x wrapped. */
  lemma {:induction false} WrapTo(x: int, y: int)
    requires INT_MIN <= y <= INT_MAX && (x - y) % TWO_32 == 0
    ensures Wrap32(x) as int == y
  {
    var k := (x - y) / TWO_32;
    assert x == y + k * TWO_32;
    WrapShift(y, k);
  }

  /**
   * The bucket count is min(buckets, max - min + 1) (the range wrapped to
   * 32 bits), and the constructor succeeds exactly when that is at least
   * 1. The width is then at least 1, the buckets cover the range and the
   * part left over, fewer values than there are buckets, goes to the last
   * one; the shifted min is never negative.
   */
  lemma {:induction false} LayoutFacts(buckets: int32, min: int32, max: int32)
    ensures var range := Wrap32(max as int - min as int + 1) as int; var n := Min(buckets as int, range);
      var r := Layout(buckets, min, max);
      (r.Ok? <==> n >= 1) &&
      (r.Err? ==> r.error == if n < 0 then NegativeArraySizeException else ArithmeticException) &&
      (r.Ok? ==> (WellShaped(r.value) && r.value.buckets == n &&
        r.value.buckets * r.value.width as int <= range < r.value.buckets * r.value.width as int + r.value.buckets))
  {
    var range := Wrap32(max as int - min as int + 1) as int;
    var n := Min(buckets as int, range);
    var r := Layout(buckets, min, max);
    if r.Ok? {
      var w := JavaDiv(range, n);
      PositiveDiv(range, n);
      assert r.value.width as int == w;
      assert r.value.buckets == n;
      ShiftedMin(min);
    }
  }

  /** The quotient of two positive ints, where Java's and Dafny's division agree. */
  lemma {:induction false} PositiveDiv(range: int, n: int)
    requires 1 <= n <= range <= INT_MAX
    ensures var w := JavaDiv(range, n); w == range / n && Wrap32(w) as int == w && 1 <= w && n * w <= range < n * w + n
  {
    var w := range / n;
    DivBounds(range, n);
    RangeFits(n, w, range);
    QuotientSmaller(range, n);
    assert JavaDiv(range, n) == w;
  }

  /** Moving a negative min up by -min, wrapped, lands on 0. */
  lemma {:induction false} ShiftedMin(min: int32)
    ensures var z: int32 := if min < 0 then Wrap32(-(min as int)) else 0; Wrap32(min as int + z as int) as int == if min < 0 then 0 else min as int
  {
    if min < 0 {
      assert min as int + Wrap32(-(min as int)) as int == 0 || min as int + Wrap32(-(min as int)) as int == -TWO_32;
      WrapTo(min as int + Wrap32(-(min as int)) as int, 0);
    }
  }

  lemma {:induction false} RangeFits(n: int, w: int, range: int)
    requires 1 <= n <= range && w == range / n
    ensures w >= 1 && n * w <= range < n * w + n
  {
    DivBounds(range, n);
  }

  /**
   * For bounds in order the shift keeps their distance: the shifted min is
   * min or 0, and the shifted max is that plus max - min.
   */
  lemma {:induction false} LayoutShift(buckets: int32, min: int32, max: int32)
    requires min <= max && Layout(buckets, min, max).Ok?
    ensures var s := Layout(buckets, min, max).value;
      s.min as int == (if min < 0 then 0 else min as int) && s.max as int - s.min as int == max as int - min as int &&
      (min < 0 ==> (s.zeroOffset as int + min as int) % TWO_32 == 0) && (min >= 0 ==> s.zeroOffset == 0)
  {
    var s := Layout(buckets, min, max).value;
    var z := s.zeroOffset as int;
    assert s.min == Wrap32(min as int + z) && s.max == Wrap32(max as int + z);
    RangeOk(buckets, min, max);
    if min < 0 {
      assert z == Wrap32(-(min as int)) as int;
      assert (z + min as int) % TWO_32 == 0;
      WrapTo(min as int + z, 0);
      WrapTo(max as int + z, max as int - min as int);
    }
  }

  /** A layout that succeeds has a range that did not wrap. */
  lemma {:induction false} RangeOk(buckets: int32, min: int32, max: int32)
    requires min <= max && Layout(buckets, min, max).Ok?
    ensures max as int - min as int + 1 <= INT_MAX
  {
    var x := max as int - min as int + 1;
    if x > INT_MAX {
      WrapTo(x, x - TWO_32);
    }
  }

  /**
   * getBucket: -1 for a shifted value outside [min, max]; otherwise its
   * offset from min divided by the width, capped at the last bucket.
   */
  function BucketOf(s: Shape, v: int32): (b: int)
    requires WellShaped(s)
    ensures var x := Wrap32(v as int + s.zeroOffset as int) as int;
      (b == -1 <==> x < s.min as int || x > s.max as int) &&
      (b != -1 ==> (0 <= b < s.buckets && b * s.width as int <= x - s.min as int &&
        (b == s.buckets - 1 || x - s.min as int < (b + 1) * s.width as int)))
  {
    var x := Wrap32(v as int + s.zeroOffset as int);
    if x < s.min || x > s.max then -1
    else
      // both operands are non-negative, where Java's division agrees with Dafny's
      var q := (x as int - s.min as int) / s.width as int;
      BucketBounds(x as int - s.min as int, s.width as int, s.buckets);
      Min(q, s.buckets - 1)
  }

  /** The capped quotient starts at or below the offset, and ends above it unless it is the last bucket. */
  lemma {:induction false} BucketBounds(d: int, w: int, n: int)
    requires 0 <= d && 1 <= w && 1 <= n
    ensures var b := Min(d / w, n - 1);
      0 <= b < n && b * w <= d && (b == n - 1 || d < (b + 1) * w)
  {
    var q := d / w;
    DivBounds(d, w);
    var b := Min(q, n - 1);
    if b < q {
      assert b * w <= q * w by {
        assert (q - b) * w >= 0;
      }
    }
    assert (b + 1) * w == b * w + w;
  }

  /**
   * For a histogram built over [min, max] with min <= max, getBucket
   * returns -1 exactly for the values outside [min, max], whatever the
   * shift wraps to.
   */
  lemma {:induction false} BucketInRange(buckets: int32, min: int32, max: int32, v: int32)
    requires min <= max && Layout(buckets, min, max).Ok?
    ensures WellShaped(Layout(buckets, min, max).value) &&
      (BucketOf(Layout(buckets, min, max).value, v) == -1 <==> v < min || v > max)
  {
    LayoutFacts(buckets, min, max);
    LayoutShift(buckets, min, max);
    RangeOk(buckets, min, max);
    var s := Layout(buckets, min, max).value;
    var d := v as int - min as int;
    if min < 0 {
      var x := v as int + s.zeroOffset as int;
      assert (x - d) % TWO_32 == 0;
      if d <= INT_MAX {
        WrapTo(x, d);
      } else {
        WrapTo(x, d - TWO_32);
      }
    }
  }

  function Sum(xs: seq<int32>): int
  {
    if |xs| == 0 then 0 else Sum(xs[..|xs| - 1]) + xs[|xs| - 1] as int
  }

  /** Replacing one count changes the sum by the difference. */
  lemma {:induction false} SumUpdate(xs: seq<int32>, i: nat, x: int32)
    requires i < |xs|
    ensures Sum(xs[i := x]) == Sum(xs) - xs[i] as int + x as int
    decreases |xs|
  {
    var n := |xs| - 1;
    assert xs[i := x][..n] == if i == n then xs[..n] else xs[..n][i := x];
    if i < n {
      SumUpdate(xs[..n], i, x);
    }
  }

  lemma {:induction false} SumZeros(xs: seq<int32>)
    requires forall i :: 0 <= i < |xs| ==> xs[i] == 0
    ensures Sum(xs) == 0
    decreases |xs|
  {
    if |xs| > 0 {
      SumZeros(xs[..|xs| - 1]);
    }
  }

  class IntHistogram {
    const histogram: array<int32>
    const min: int32
    const max: int32
    const width: int32
    const zeroOffset: int32
    var ntup: int32

    function ShapeOf(): Shape
      reads this
    {
      Shape(histogram.Length, zeroOffset, min, max, width)
    }

    /** The counts sum to ntup, both kept modulo 2^32 as Java's int does. */
    ghost predicate Valid()
      reads this, histogram
    {
      WellShaped(ShapeOf()) && Wrap32(Sum(histogram[..])) == ntup
    }

    constructor Init(s: Shape)
      requires WellShaped(s)
      ensures ShapeOf() == s && ntup == 0 && Valid()
      ensures fresh(histogram) && forall i :: 0 <= i < histogram.Length ==> histogram[i] == 0
    {
      histogram := new int32[s.buckets](_ => 0);
      zeroOffset := s.zeroOffset;
      min := s.min;
      max := s.max;
      width := s.width;
      ntup := 0;
      new;
      SumZeros(histogram[..]);
    }

    /** new IntHistogram(buckets, min, max), with the constructor's exceptions as errors. */
    static method New(buckets: int32, min: int32, max: int32) returns (r: Result<IntHistogram>)
      ensures r.Err? <==> Layout(buckets, min, max).Err?
      ensures r.Err? ==> r.error == Layout(buckets, min, max).error
      ensures r.Ok? ==> (fresh(r.value) && fresh(r.value.histogram) && r.value.Valid() &&
        r.value.ShapeOf() == Layout(buckets, min, max).value && r.value.ntup == 0 &&
        forall i :: 0 <= i < r.value.histogram.Length ==> r.value.histogram[i] == 0)
    {
      var n := buckets;
      var range := Wrap32(max as int - min as int + 1);
      if n > range {
        n := range;
      }
      if n < 0 {
        return Err(NegativeArraySizeException);
      }
      var z: int32 := 0;
      if min < 0 {
        z := Wrap32(-(min as int));
      }
      if n == 0 {
        return Err(ArithmeticException);
      }
      LayoutFacts(buckets, min, max);
      var w := Wrap32(JavaDiv(range as int, n as int));
      var h := new IntHistogram.Init(Shape(n as int, z, Wrap32(min as int + z as int), Wrap32(max as int + z as int), w));
      r := Ok(h);
    }

    function GetBucket(v: int32): (b: int)
      reads this
      requires WellShaped(ShapeOf())
      ensures b == -1 || 0 <= b < histogram.Length
    {
      BucketOf(ShapeOf(), v)
    }

    /** addValue: one more in the value's bucket and in ntup, or nothing for a value outside the range. */
    method AddValue(v: int32)
      requires Valid()
      modifies this, histogram
      ensures Valid()
      ensures var b := GetBucket(v);
        (b == -1 ==> histogram[..] == old(histogram[..]) && ntup == old(ntup)) &&
        (b != -1 ==> (histogram[..] == old(histogram[..])[b := Wrap32(old(histogram[b]) as int + 1)] &&
          ntup == Wrap32(old(ntup) as int + 1)))
    {
      var bucket := GetBucket(v);
      if bucket != -1 {
        ghost var before := histogram[..];
        var x := Wrap32(histogram[bucket] as int + 1);
        histogram[bucket] := x;
        ntup := Wrap32(ntup as int + 1);
        assert histogram[..] == before[bucket := x];
        SumUpdate(before, bucket, x);
        SumOneMore(Sum(before), before[bucket] as int, x);
      }
    }
  }

  /** Adding one to a count, wrapped, adds one to the wrapped sum. */
  lemma {:induction false} SumOneMore(sum: int, count: int, x: int32)
    requires x == Wrap32(count + 1)
    ensures Wrap32(sum - count + x as int) == Wrap32(Wrap32(sum) as int + 1)
  {
    var k := (x as int - (count + 1)) / TWO_32;
    assert x as int == count + 1 + k * TWO_32;
    assert sum - count + x as int == (sum + 1) + k * TWO_32;
    WrapShift(sum + 1, k);
    Wrap32Add(sum, 1);
  }
}
