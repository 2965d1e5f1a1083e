/** One axis of a performance histogram: which bucket a value falls into, and the value range
    that is reported for each bucket. */
module HistogramAxis {
  const INT64_MIN := -0x8000_0000_0000_0000
  const INT64_MAX := 0x7FFF_FFFF_FFFF_FFFF

  datatype Scale = Linear | Log2

  datatype Axis = Axis(scale: Scale, min: int, quantSize: int, buckets: int) {
    /** What the histogram's constructor asserts. */
    predicate Valid() {
      buckets > 0 && quantSize > 0
    }
  }

  function Pow2(n: nat): (p: nat)
    ensures p > 0
  {
    if n == 0 then 1 else 2 * Pow2(n - 1)
  }

  /** `get_quants`: how many quanta above the minimum bucket i ends. */
  function Quants(i: int, scale: Scale): int
    requires i >= 1
  {
    match scale
    case Linear => i
    case Log2 => Pow2(i - 1)
  }

  /** The least value of bucket b, for every bucket but the first. */
  function Low(ac: Axis, b: int): int
    requires b >= 1
  {
    if b == 1 then ac.min else ac.min + Quants(b - 1, ac.scale) * ac.quantSize
  }

  /** The values that bucket b stands for, both ends included. */
  function RangeOf(ac: Axis, b: int): (int, int)
    requires 0 <= b < ac.buckets
  {
    (if b == 0 then INT64_MIN else Low(ac, b),
     if b == ac.buckets - 1 then INT64_MAX else Low(ac, b + 1) - 1)
  }

  predicate Within(v: int, r: (int, int)) {
    r.0 <= v <= r.1
  }

  lemma QuotientBelow(x: int, d: int, m: int)
    requires x >= 0 && d > 0
    ensures x / d < m <==> x < m * d
  {
    var q := x / d;
    assert q * d <= x < q * d + d;
    if q < m {
      assert (q + 1) * d <= m * d;
    } else {
      assert m * d <= q * d;
    }
  }

  /** The least bucket from i on whose quanta exceed q, or the last bucket. */
  function FirstAbove(q: int, i: int, buckets: int): int
    requires 1 <= i
    decreases buckets - i
  {
    if i >= buckets then buckets - 1
    else if q < Quants(i, Log2) then i
    else FirstAbove(q, i + 1, buckets)
  }

  /** `get_bucket_for_axis` as a value. */
  function Bucket(v: int, ac: Axis): int
    requires ac.Valid()
  {
    if v < ac.min then 0 else
    var q := (v - ac.min) / ac.quantSize;
    match ac.scale
    case Linear => if q + 1 < ac.buckets - 1 then q + 1 else ac.buckets - 1
    case Log2 => FirstAbove(q, 1, ac.buckets)
  }

  method BucketForAxis(v: int, ac: Axis) returns (b: int)
    requires ac.Valid()
    ensures b == Bucket(v, ac)
  {
    if v < ac.min {
      return 0;
    }
    var q := (v - ac.min) / ac.quantSize;
    match ac.scale {
      case Linear =>
        b := if q + 1 < ac.buckets - 1 then q + 1 else ac.buckets - 1;
      case Log2 =>
        var i := 1;
        while i < ac.buckets
          invariant 1 <= i && FirstAbove(q, i, ac.buckets) == FirstAbove(q, 1, ac.buckets)
        {
          if q < Quants(i, Log2) {
            return i;
          }
          i := i + 1;
        }
        b := ac.buckets - 1;
    }
  }

  /** `get_axis_bucket_ranges`. */
  method AxisBucketRanges(ac: Axis) returns (ret: seq<(int, int)>)
    requires ac.Valid()
    ensures |ret| == ac.buckets
    ensures forall b | 0 <= b < ac.buckets :: ret[b] == RangeOf(ac, b)
  {
    ret := seq(ac.buckets, _ => (0, 0));
    var min := ac.min;
    var i := 1;
    while i < ac.buckets - 1
      invariant 1 <= i && (i <= ac.buckets - 1 || i == 1) && |ret| == ac.buckets
      invariant min == Low(ac, i)
      invariant forall b | 1 <= b < i :: ret[b] == RangeOf(ac, b)
    {
      var maxExclusive := ac.min + Quants(i, ac.scale) * ac.quantSize;
      ret := ret[i := (min, maxExclusive - 1)];
      min := maxExclusive;
      i := i + 1;
    }
    var last := ac.buckets - 1;
    ret := ret[0 := (ret[0].0, ac.min - 1)];
    ret := ret[last := (min, ret[last].1)];
    ret := ret[0 := (INT64_MIN, ret[0].1)];
    ret := ret[last := (ret[last].0, INT64_MAX)];
  }

  lemma {:induction false} FirstAboveBounds(q: int, i: int, buckets: int)
    requires 1 <= i <= buckets
    requires i >= 2 ==> q >= Quants(i - 1, Log2)
    ensures var b := FirstAbove(q, i, buckets);
            && i - 1 <= b < buckets
            && (b >= 2 ==> q >= Quants(b - 1, Log2))
            && (1 <= b < buckets - 1 ==> q < Quants(b, Log2))
            && (b == i - 1 ==> i == buckets)
    decreases buckets - i
  {
    if i == buckets && i >= 3 {
      assert Pow2(i - 2) == 2 * Pow2(i - 3);
    } else if i < buckets && q >= Quants(i, Log2) {
      FirstAboveBounds(q, i + 1, buckets);
    }
  }

  /** Every 64-bit value lies in the range reported for the bucket that counts it. */
  lemma BucketMatchesRange(v: int, ac: Axis)
    requires ac.Valid() && INT64_MIN <= v <= INT64_MAX
    ensures 0 <= Bucket(v, ac) < ac.buckets
    ensures Within(v, RangeOf(ac, Bucket(v, ac)))
  {
    if v >= ac.min {
      var x := v - ac.min;
      var q := x / ac.quantSize;
      var b := Bucket(v, ac);
      if ac.scale.Log2? {
        FirstAboveBounds(q, 1, ac.buckets);
      }
      if b >= 2 {
        QuotientBelow(x, ac.quantSize, Quants(b - 1, ac.scale));
      }
      if 1 <= b < ac.buckets - 1 {
        QuotientBelow(x, ac.quantSize, Quants(b, ac.scale));
      }
    }
  }

  lemma {:induction false} Pow2Grows(m: nat, n: nat)
    requires m < n
    ensures Pow2(m) < Pow2(n)
    decreases n
  {
    if m < n - 1 {
      Pow2Grows(m, n - 1);
    }
  }

  lemma MulGrows(m: int, n: int, d: int)
    requires m < n && d > 0
    ensures m * d < n * d
  {
  }

  lemma LowGrows(ac: Axis, b: int, c: int)
    requires ac.Valid() && 1 <= b < c
    ensures Low(ac, b) < Low(ac, c)
  {
    if ac.scale.Log2? && b >= 2 {
      Pow2Grows(b - 2, c - 2);
    }
    var m := if b == 1 then 0 else Quants(b - 1, ac.scale);
    var n := Quants(c - 1, ac.scale);
    assert m < n;
    MulGrows(m, n, ac.quantSize);
  }

  /** No two reported ranges overlap, so the bucket of a value is the only one that reports it. */
  lemma RangesArePartition(v: int, ac: Axis, b: int)
    requires ac.Valid() && INT64_MIN <= v <= INT64_MAX && 0 <= b < ac.buckets
    ensures Within(v, RangeOf(ac, b)) <==> b == Bucket(v, ac)
  {
    var c := Bucket(v, ac);
    BucketMatchesRange(v, ac);
    if b < c {
      if b + 1 < c {
        LowGrows(ac, b + 1, c);
      }
    } else if c < b {
      if c + 1 < b {
        LowGrows(ac, c + 1, b);
      }
    }
  }

  /** The reported ranges adjoin, the second bucket starts at the minimum, and the inner buckets are
      one quantum wide on a linear axis; on a logarithmic one the first is, and each later one is
      as wide as all inner ones before it together. */
  lemma RangeWidths(ac: Axis, b: int)
    requires ac.Valid() && 1 <= b < ac.buckets
    ensures RangeOf(ac, 0).0 == -0x8000_0000_0000_0000 && RangeOf(ac, ac.buckets - 1).1 == 0x7FFF_FFFF_FFFF_FFFF
    ensures RangeOf(ac, b - 1).1 + 1 == RangeOf(ac, b).0
    ensures RangeOf(ac, 1).0 == ac.min
    ensures b < ac.buckets - 1 ==>
              var width := RangeOf(ac, b).1 + 1 - RangeOf(ac, b).0;
              width == if ac.scale.Linear? || b == 1 then ac.quantSize else RangeOf(ac, b).0 - ac.min
  {
    if 2 <= b < ac.buckets - 1 {
      var m := Quants(b - 1, ac.scale);
      match ac.scale
      case Linear => SumTimes(m, 1, ac.quantSize);
      case Log2 => SumTimes(m, m, ac.quantSize);
    }
  }

  lemma SumTimes(m: int, n: int, d: int)
    ensures (m + n) * d == m * d + n * d
  {
  }

  // ---------- Where 64 bits are enough ----------

  predicate In64(x: int) {
    INT64_MIN <= x <= INT64_MAX
  }

  /** No value that `get_axis_bucket_ranges` computes overflows. */
  ghost predicate RangesFit(ac: Axis) {
    && In64(ac.min - 1)
    && forall i | 1 <= i < ac.buckets - 1 :: LimitFits(ac, i)
  }

  predicate LimitFits(ac: Axis, i: int)
    requires i >= 1
  {
    var quants := Quants(i, ac.scale);
    In64(quants) && In64(quants * ac.quantSize) && In64(ac.min + quants * ac.quantSize)
  }

  lemma QuantsGrow(ac: Axis, i: int, j: int)
    requires ac.Valid() && 1 <= i <= j
    ensures 1 <= Quants(i, ac.scale) <= Quants(j, ac.scale)
    ensures Quants(i, ac.scale) <= Quants(i, ac.scale) * ac.quantSize <= Quants(j, ac.scale) * ac.quantSize
  {
    if ac.scale.Log2? && i < j {
      Pow2Grows(i - 1, j - 1);
    }
    var m, n := Quants(i, ac.scale), Quants(j, ac.scale);
    if m < n {
      MulGrows(m, n, ac.quantSize);
    }
    if 1 < ac.quantSize {
      MulGrows(1, ac.quantSize, m);
    }
  }

  /** The ranges are free of overflow exactly when the lower limit of the last bucket is, and the
      first bucket is not empty. */
  lemma RangesFitExactly(ac: Axis)
    requires ac.Valid() && In64(ac.min)
    ensures RangesFit(ac) <==>
            && ac.min > INT64_MIN
            && (ac.buckets > 2 ==> var span := Quants(ac.buckets - 2, ac.scale) * ac.quantSize;
                                   span <= INT64_MAX && ac.min + span <= INT64_MAX)
  {
    if ac.buckets > 2 {
      var last := ac.buckets - 2;
      QuantsGrow(ac, last, last);
      assert RangesFit(ac) ==> LimitFits(ac, last);
      forall i | 1 <= i <= last
        ensures LimitFits(ac, last) ==> LimitFits(ac, i)
      {
        QuantsGrow(ac, i, last);
      }
    }
  }

  /** No value that the loop of `get_bucket_for_axis` computes from round i on overflows. */
  predicate SearchFits(q: int, i: int, buckets: int)
    requires 1 <= i
    decreases buckets - i
  {
    i >= buckets || (In64(Quants(i, Log2)) && (q < Quants(i, Log2) || SearchFits(q, i + 1, buckets)))
  }

  /** No value that `get_bucket_for_axis` computes overflows. */
  predicate BucketFits(v: int, ac: Axis)
    requires ac.Valid()
  {
    v < ac.min || (
      && In64(v - ac.min)
      && var q := (v - ac.min) / ac.quantSize;
         match ac.scale
         case Linear => In64(q + 1)
         case Log2 => SearchFits(q, 1, ac.buckets))
  }

  lemma Pow62()
    ensures Pow2(62) == 0x4000_0000_0000_0000 && Pow2(63) == 0x8000_0000_0000_0000
  {
    assert Pow2(8) == 0x100;
    assert Pow2(16) == 0x1_0000;
    assert Pow2(24) == 0x100_0000;
    assert Pow2(32) == 0x1_0000_0000;
    assert Pow2(40) == 0x100_0000_0000;
    assert Pow2(48) == 0x1_0000_0000_0000;
    assert Pow2(56) == 0x100_0000_0000_0000;
    assert Pow2(62) == 0x4000_0000_0000_0000;
  }

  lemma {:induction false} SearchFitsExactly(q: int, i: int, buckets: int)
    requires 1 <= i <= 64 && In64(q) && (i >= 2 ==> q >= Quants(i - 1, Log2))
    ensures SearchFits(q, i, buckets) <==> buckets <= 64 || q < Pow2(62)
    decreases 64 - i
  {
    Pow62();
    if i < 63 {
      Pow2Grows(i - 1, 62);
    }
    if i < 64 && i < buckets && q >= Quants(i, Log2) {
      SearchFitsExactly(q, i + 1, buckets);
    }
  }

  /** The bucket of a 64-bit value is found without overflow exactly when its distance from the
      minimum fits, and on top of that: on a linear axis one more than the quotient fits, on a
      logarithmic one there are at most 64 buckets or the quotient is below 2^62. */
  lemma BucketFitsExactly(v: int, ac: Axis)
    requires ac.Valid() && In64(v) && In64(ac.min)
    ensures var q := (v - ac.min) / ac.quantSize;
            BucketFits(v, ac) <==>
            v < ac.min ||
            (v - ac.min <= INT64_MAX &&
             if ac.scale.Linear? then q < INT64_MAX else ac.buckets <= 64 || q < Pow2(62))
  {
    if v >= ac.min && v - ac.min <= INT64_MAX {
      var x := v - ac.min;
      var q := x / ac.quantSize;
      QuotientBelow(x, ac.quantSize, INT64_MAX + 1);
      QuotientBelow(x, ac.quantSize, 0);
      MulGrows(INT64_MAX, INT64_MAX + 1, ac.quantSize);
      if ac.scale.Log2? {
        SearchFitsExactly(q, 1, ac.buckets);
      }
    }
  }
}
