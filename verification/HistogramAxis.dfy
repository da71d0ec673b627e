/** How one axis of a histogram quantizes values into buckets, and the
    ranges it advertises for them. */
module HistogramAxis {
  import opened Wrappers

  const TWO_64: nat := 0x1_0000_0000_0000_0000
  const INT64_MIN: int := -0x8000_0000_0000_0000
  const INT64_MAX: int := 0x7fff_ffff_ffff_ffff

  datatype Scale = Linear | Log2

  datatype Axis = Axis(scale: Scale, min: int, quant: int, buckets: nat) {
    predicate Ok() {
      quant > 0 && buckets > 0
    }
  }

  function Pow2(n: nat): (p: nat)
    ensures p > 0
  {
    if n == 0 then 1 else 2 * Pow2(n - 1)
  }

  lemma {:induction false} Pow2Add(m: nat, n: nat)
    ensures Pow2(m + n) == Pow2(m) * Pow2(n)
  {
    if m > 0 {
      Pow2Add(m - 1, n);
      Doubled(Pow2(m - 1), Pow2(n));
      assert Pow2(m + n) == 2 * Pow2(m - 1 + n);
    }
  }

  lemma Doubled(x: nat, y: nat)
    ensures 2 * (x * y) == 2 * x * y
  {
  }

  lemma Pow2Small()
    ensures Pow2(6) == 64 && Pow2(8) == 0x100 && Pow2(16) == 0x1_0000
  {
    assert Pow2(1) == 2;
    Pow2Add(1, 1);
    Pow2Add(2, 2);
    Pow2Add(4, 2);
    Pow2Add(4, 4);
    Pow2Add(8, 8);
  }

  /** The largest power of two that is a 64-bit integer. */
  lemma Pow2Of62()
    ensures Pow2(62) == 0x4000_0000_0000_0000 <= INT64_MAX < Pow2(63)
  {
    Pow2Small();
    Pow2Add(16, 16);
    Pow2Add(32, 16);
    Pow2Add(48, 8);
    Pow2Add(56, 6);
    assert Pow2(63) == 2 * Pow2(62);
  }

  lemma {:induction false} Pow2Grows(m: nat, n: nat)
    requires m <= n
    ensures Pow2(m) <= Pow2(n)
    decreases n
  {
    if m < n {
      Pow2Grows(m, n - 1);
    }
  }

  /** A power of two is a 64-bit integer up to the 62nd. */
  lemma Pow2Fits(n: nat)
    ensures Pow2(n) <= INT64_MAX <==> n <= 62
  {
    Pow2Of62();
    if n <= 62 {
      Pow2Grows(n, 62);
    } else {
      Pow2Grows(63, n);
    }
  }

  /** The upper edge of bucket `i`, in quantization units above the minimum. */
  function Quants(i: nat, scale: Scale): nat {
    if i == 0 then 0 else if scale.Linear? then i else Pow2(i - 1)
  }

  /** The least value of bucket `i > 0`. */
  function Floor(ac: Axis, i: nat): int
    requires i > 0
  {
    ac.min + Quants(i - 1, ac.scale) * ac.quant
  }

  /** The first bucket is open below, the last one above. */
  predicate InBucket(ac: Axis, v: int, i: nat) {
    && i < ac.buckets
    && (i > 0 ==> Floor(ac, i) <= v)
    && (i < ac.buckets - 1 ==> v < Floor(ac, i + 1))
  }

  lemma MulLess(x: int, y: int, d: int)
    requires x < y && d > 0
    ensures x * d < y * d
  {
  }

  lemma DivLess(v: int, q: int, d: int)
    requires d > 0
    ensures v / d < q <==> v < q * d
  {
    assert v == d * (v / d) + v % d;
    if v / d < q {
      assert (v / d + 1) * d <= q * d;
    } else {
      assert q * d <= (v / d) * d;
    }
  }

  lemma {:induction false} FloorIncreases(ac: Axis, i: nat, j: nat)
    requires ac.Ok() && 0 < i < j
    ensures Floor(ac, i) < Floor(ac, j)
    decreases j
  {
    MulLess(Quants(j - 2, ac.scale), Quants(j - 1, ac.scale), ac.quant);
    if i < j - 1 {
      FloorIncreases(ac, i, j - 1);
    }
  }

  lemma BucketUnique(ac: Axis, v: int, i: nat, j: nat)
    requires ac.Ok() && InBucket(ac, v, i) && InBucket(ac, v, j)
    ensures i == j
  {
    if i + 1 < j {
      FloorIncreases(ac, i + 1, j);
    } else if j + 1 < i {
      FloorIncreases(ac, j + 1, i);
    }
  }

  /** Buckets of a linear axis: the first has what is below the minimum, each inner
      one is one quantization unit wide, and the last has the rest. */
  lemma LinearBuckets(ac: Axis, v: int, b: nat)
    requires ac.Ok() && ac.scale.Linear? && b < ac.buckets
    ensures InBucket(ac, v, b) <==>
            && (b > 0 ==> ac.min + (b - 1) * ac.quant <= v)
            && (b < ac.buckets - 1 ==> v < ac.min + b * ac.quant)
  {
  }

  /** Buckets of a logarithmic axis: the first has what is below the minimum, the
      second is one quantization unit wide, and each later one ends twice as far
      above the minimum as it begins. */
  lemma Log2Buckets(ac: Axis, v: int, b: nat)
    requires ac.Ok() && ac.scale.Log2? && b < ac.buckets
    ensures InBucket(ac, v, b) <==>
            && (b > 0 ==> Floor(ac, b) <= v)
            && (b < ac.buckets - 1 ==> v < Floor(ac, b + 1))
    ensures Floor(ac, 1) == ac.min && Floor(ac, 2) == ac.min + ac.quant
    ensures b >= 2 ==> Floor(ac, b + 1) - ac.min == 2 * (Floor(ac, b) - ac.min)
  {
    assert Pow2(0) == 1;
    if b >= 2 {
      Doubled(Pow2(b - 2), ac.quant);
    }
  }

  /** No operation of the quantizer leaves 64 bits. */
  predicate Quantizable(ac: Axis, v: int)
    requires ac.Ok()
  {
    v < ac.min ||
    (v - ac.min <= INT64_MAX &&
     var units := (v - ac.min) / ac.quant;
     if ac.scale.Linear? then units < INT64_MAX else ac.buckets <= 64 || units < Pow2(62))
  }

  method LinearBucket(value: int, ac: Axis, units: int) returns (bucket: Option<nat>)
    requires ac.Ok() && ac.scale.Linear? && value >= ac.min && units == (value - ac.min) / ac.quant
    ensures bucket.Some? <==> units < INT64_MAX
    ensures bucket.Some? ==> InBucket(ac, value, bucket.value)
  {
    if units + 1 > INT64_MAX {
      return None;
    }
    var b := if units + 1 < ac.buckets - 1 then units + 1 else ac.buckets - 1;
    if b > 0 {
      DivLess(value - ac.min, b - 1, ac.quant);
    }
    DivLess(value - ac.min, b, ac.quant);
    return Some(b);
  }

  method Log2Bucket(value: int, ac: Axis, units: int) returns (bucket: Option<nat>)
    requires ac.Ok() && ac.scale.Log2? && value >= ac.min && units == (value - ac.min) / ac.quant
    ensures bucket.Some? <==> ac.buckets <= 64 || units < Pow2(62)
    ensures bucket.Some? ==> InBucket(ac, value, bucket.value)
  {
    var i := 1;
    while i < ac.buckets
      invariant 1 <= i <= 64 && (ac.buckets > 1 ==> i <= ac.buckets)
      invariant Floor(ac, i) <= value && (i > 1 ==> units >= Pow2(i - 2))
    {
      Pow2Fits(i - 1);
      if Pow2(i - 1) > INT64_MAX {
        return None;
      }
      DivLess(value - ac.min, Pow2(i - 1), ac.quant);
      if units < Pow2(i - 1) {
        Pow2Grows(i - 1, 62);
        return Some(i);
      }
      i := i + 1;
    }
    if ac.buckets > 1 {
      FloorIncreases(ac, ac.buckets - 1, i);
    }
    return Some(ac.buckets - 1);
  }

  /** The bucket that holds the value, unless an operation leaves 64 bits. */
  method GetBucketForAxis(value: int, ac: Axis) returns (bucket: Option<nat>)
    requires ac.Ok()
    ensures bucket.Some? <==> Quantizable(ac, value)
    ensures bucket.Some? ==> InBucket(ac, value, bucket.value)
  {
    if value < ac.min {
      return Some(0);
    }
    if value - ac.min > INT64_MAX {
      return None;
    }
    var units := (value - ac.min) / ac.quant;
    match ac.scale {
      case Linear => bucket := LinearBucket(value, ac, units);
      case Log2 => bucket := Log2Bucket(value, ac, units);
    }
  }

  /** The inclusive range of bucket `k`, clipped to 64 bits at the open ends. */
  function RangeOf(ac: Axis, k: nat): (int, int) {
    (if k == 0 then INT64_MIN else Floor(ac, k),
     if k == ac.buckets - 1 then INT64_MAX else Floor(ac, k + 1) - 1)
  }

  lemma RangeIsBucket(ac: Axis, k: nat, v: int)
    requires k < ac.buckets && INT64_MIN <= v <= INT64_MAX
    ensures RangeOf(ac, k).0 <= v <= RangeOf(ac, k).1 <==> InBucket(ac, v, k)
  {
  }

  /** How wide the range of an inner bucket is: one unit on a linear axis; on a
      logarithmic one, one unit for the first and then as much as lies between
      the minimum and its beginning. */
  predicate Width(ac: Axis, range: (int, int), i: nat) {
    range.1 + 1 - range.0 == if ac.scale.Linear? || i <= 1 then ac.quant else range.0 - ac.min
  }

  lemma RangeWidth(ac: Axis, i: nat)
    requires ac.Ok() && 1 <= i < ac.buckets - 1
    ensures Width(ac, RangeOf(ac, i), i)
  {
    if ac.scale.Linear? {
      LinearBuckets(ac, 0, i);
      assert i * ac.quant == (i - 1) * ac.quant + ac.quant;
    } else {
      Log2Buckets(ac, 0, i);
    }
  }

  /** The largest product and the largest edge are 64-bit integers, and there
      is one below the minimum. */
  predicate EdgesFit(ac: Axis) {
    && ac.min - 1 >= INT64_MIN
    && (ac.buckets > 2 ==>
          Quants(ac.buckets - 2, ac.scale) * ac.quant <= INT64_MAX && Floor(ac, ac.buckets - 1) <= INT64_MAX)
  }

  /** Unless an operation leaves 64 bits, the ranges partition the 64-bit
      integers, in order and without gaps, and each is exactly the set of values
      that quantize into its bucket. */
  method GetAxisBucketRanges(ac: Axis) returns (ranges: Option<seq<(int, int)>>)
    requires ac.Ok()
    ensures ranges.Some? <==> EdgesFit(ac)
    ensures ranges.Some? ==> |ranges.value| == ac.buckets
    ensures ranges.Some? ==> forall i, v | 0 <= i < |ranges.value| && INT64_MIN <= v <= INT64_MAX ::
              ranges.value[i].0 <= v <= ranges.value[i].1 <==> InBucket(ac, v, i)
    ensures ranges.Some? ==> forall i | 1 <= i < |ranges.value| :: ranges.value[i].0 == ranges.value[i - 1].1 + 1
    ensures ranges.Some? ==> ranges.value[0].0 == INT64_MIN && ranges.value[|ranges.value| - 1].1 == INT64_MAX
    ensures ranges.Some? && ac.buckets > 1 ==> ranges.value[0].1 == ac.min - 1
    ensures ranges.Some? ==> forall i | 1 <= i < |ranges.value| - 1 :: Width(ac, ranges.value[i], i)
  {
    ranges := FillRanges(ac);
    if ranges.Some? {
      forall i, v | 0 <= i < |ranges.value| && INT64_MIN <= v <= INT64_MAX
        ensures ranges.value[i].0 <= v <= ranges.value[i].1 <==> InBucket(ac, v, i)
      {
        RangeIsBucket(ac, i, v);
      }
      forall i | 1 <= i < |ranges.value| - 1
        ensures Width(ac, ranges.value[i], i)
      {
        RangeWidth(ac, i);
      }
    }
  }

  /** A product or an edge that leaves 64 bits early means that the last does. */
  lemma EdgeTooLarge(ac: Axis, i: nat)
    requires ac.Ok() && 1 <= i < ac.buckets - 1
    requires Quants(i, ac.scale) * ac.quant > INT64_MAX || Floor(ac, i + 1) > INT64_MAX
    ensures !EdgesFit(ac)
  {
    if i + 1 < ac.buckets - 1 {
      FloorIncreases(ac, i + 1, ac.buckets - 1);
    }
  }

  method FillRanges(ac: Axis) returns (ranges: Option<seq<(int, int)>>)
    requires ac.Ok()
    ensures ranges.Some? <==> EdgesFit(ac)
    ensures ranges.Some? ==> |ranges.value| == ac.buckets
    ensures ranges.Some? ==> forall k | 0 <= k < |ranges.value| :: ranges.value[k] == RangeOf(ac, k)
  {
    var ret := seq(ac.buckets, i => (0, 0));
    var min := ac.min;
    var i := 1;
    while i < ac.buckets - 1
      invariant 1 <= i && (ac.buckets > 1 ==> i <= ac.buckets - 1) && |ret| == ac.buckets
      invariant min == Floor(ac, i)
      invariant i > 1 ==> Quants(i - 1, ac.scale) * ac.quant <= INT64_MAX && min <= INT64_MAX
      invariant forall k | 1 <= k < i < ac.buckets :: ret[k] == RangeOf(ac, k)
    {
      var width := Quants(i, ac.scale) * ac.quant;
      if width > INT64_MAX || ac.min + width > INT64_MAX {
        EdgeTooLarge(ac, i);
        return None;
      }
      var maxExclusive := ac.min + width;
      ret := ret[i := (min, maxExclusive - 1)];
      min := maxExclusive;
      i := i + 1;
    }
    if ac.min - 1 < INT64_MIN {
      return None;
    }
    var last := ac.buckets - 1;
    ret := ret[0 := (ret[0].0, ac.min - 1)];
    ret := ret[last := (min, ret[last].1)];
    ret := ret[0 := (INT64_MIN, ret[0].1)];
    ret := ret[last := (ret[last].0, INT64_MAX)];
    assert Floor(ac, 1) == ac.min;
    return Some(ret);
  }
}
