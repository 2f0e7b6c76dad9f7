/** Weighted sample blocks of fit_isotonic.py over the reals: sums, merging, and the squared error of a fit. */
module Blocks {
  datatype Block = Block(ageMin: int, ageMax: int, weight: real, weightedY: real, weightedY2: real, samples: int) {
    function Mean(): real
      requires weight != 0.0
    {
      weightedY / weight
    }
  }

  /** Samples have positive weight. */
  ghost predicate Positive(s: seq<Block>) {
    forall b <- s :: b.weight > 0.0
  }

  function SumW(s: seq<Block>): real {
    if s == [] then 0.0 else SumW(s[..|s| - 1]) + s[|s| - 1].weight
  }

  function SumY(s: seq<Block>): real {
    if s == [] then 0.0 else SumY(s[..|s| - 1]) + s[|s| - 1].weightedY
  }

  function SumY2(s: seq<Block>): real {
    if s == [] then 0.0 else SumY2(s[..|s| - 1]) + s[|s| - 1].weightedY2
  }

  function SumN(s: seq<Block>): int {
    if s == [] then 0 else SumN(s[..|s| - 1]) + s[|s| - 1].samples
  }

  /** merge_blocks: the block that covers a non-empty list; the source rejects an empty one, and never passes one. */
  function Merged(s: seq<Block>): Block
    requires s != []
  {
    Block(s[0].ageMin, s[|s| - 1].ageMax, SumW(s), SumY(s), SumY2(s), SumN(s))
  }

  lemma {:induction false} SumsAppend(a: seq<Block>, b: seq<Block>)
    ensures SumW(a + b) == SumW(a) + SumW(b) && SumY(a + b) == SumY(a) + SumY(b)
    ensures SumY2(a + b) == SumY2(a) + SumY2(b) && SumN(a + b) == SumN(a) + SumN(b)
  {
    if b == [] {
      assert a + b == a;
    } else {
      SumsAppend(a, b[..|b| - 1]);
      assert (a + b)[..|a + b| - 1] == a + b[..|b| - 1];
    }
  }

  lemma {:induction false} SumWPositive(s: seq<Block>)
    requires Positive(s)
    ensures SumW(s) >= 0.0 && (s != [] ==> SumW(s) > 0.0)
  {
    if s != [] {
      SumWPositive(s[..|s| - 1]);
    }
  }

  /** Merging two merged blocks is merging everything they cover. */
  lemma MergeTwo(a: seq<Block>, b: seq<Block>)
    requires a != [] && b != []
    ensures Merged([Merged(a), Merged(b)]) == Merged(a + b)
  {
    SumsAppend(a, b);
    var x, y := Merged(a), Merged(b);
    assert [x, y] == [x] + [y];
    SumsAppend([x], [y]);
    SumsOne(x);
    SumsOne(y);
  }

  lemma SumsOne(b: Block)
    ensures SumW([b]) == b.weight && SumY([b]) == b.weightedY && SumY2([b]) == b.weightedY2 && SumN([b]) == b.samples
  {
    assert [b][..0] == [];
  }

  // ----- the squared error of a fit -----

  /** The weighted squared error of assigning the value `z` to the samples of a block. */
  function Err(b: Block, z: real): real {
    b.weightedY2 - 2.0 * z * b.weightedY + z * z * b.weight
  }

  function Cost(s: seq<Block>, z: seq<real>): real
    requires |z| == |s|
  {
    if s == [] then 0.0 else Cost(s[..|s| - 1], z[..|s| - 1]) + Err(s[|s| - 1], z[|s| - 1])
  }

  lemma {:induction false} CostAppend(a: seq<Block>, b: seq<Block>, y: seq<real>, z: seq<real>)
    requires |y| == |a| && |z| == |b|
    ensures Cost(a + b, y + z) == Cost(a, y) + Cost(b, z)
  {
    if b == [] {
      assert a + b == a && y + z == y;
    } else {
      var n := |b| - 1;
      CostAppend(a, b[..n], y, z[..n]);
      assert (a + b)[..|a| + n] == a + b[..n];
      assert (y + z)[..|a| + n] == y + z[..n];
    }
  }

  ghost predicate NonIncreasing(z: seq<real>) {
    forall i, j | 0 <= i < j < |z| :: z[i] >= z[j]
  }

  function Constant(n: nat, m: real): (z: seq<real>)
    ensures |z| == n && forall i | 0 <= i < n :: z[i] == m
  {
    seq(n, _ => m)
  }

  /** The error of a constant, from the sums. */
  function ErrOfSums(w: real, y: real, y2: real, m: real): real {
    y2 - 2.0 * m * y + m * m * w
  }

  lemma {:induction false} CostOfConstant(s: seq<Block>, m: real)
    ensures Cost(s, Constant(|s|, m)) == ErrOfSums(SumW(s), SumY(s), SumY2(s), m)
  {
    hide Err, ErrOfSums;
    ErrOfOne(m);
    if s != [] {
      var n := |s| - 1;
      CostOfConstant(s[..n], m);
      assert Constant(|s|, m)[..n] == Constant(n, m);
      ErrAdds(SumW(s[..n]), SumY(s[..n]), SumY2(s[..n]), s[n].weight, s[n].weightedY, s[n].weightedY2, m);
    }
  }

  lemma ErrOfOne(m: real)
    ensures ErrOfSums(0.0, 0.0, 0.0, m) == 0.0
    ensures forall b: Block :: Err(b, m) == ErrOfSums(b.weight, b.weightedY, b.weightedY2, m)
  {
  }

  lemma ErrAdds(w: real, y: real, y2: real, v: real, x: real, x2: real, m: real)
    ensures ErrOfSums(w, y, y2, m) + ErrOfSums(v, x, x2, m) == ErrOfSums(w + v, y + x, y2 + x2, m)
  {
    assert m * m * (w + v) == m * m * w + m * m * v;
  }

  // ----- pooling -----

  /** The deviation of a prefix from the mean `m`. */
  ghost function Dev(s: seq<Block>, m: real): real {
    SumY(s) - m * SumW(s)
  }

  /** Every proper prefix averages less than `m`, and the whole averages exactly `m`. */
  ghost predicate Pooled(s: seq<Block>, m: real) {
    && (forall j | 0 < j < |s| :: Dev(s[..j], m) < 0.0)
    && Dev(s, m) == 0.0
  }

  ghost function Moment(s: seq<Block>, z: seq<real>, m: real): real
    requires |z| == |s|
  {
    if s == [] then 0.0
    else Moment(s[..|s| - 1], z[..|s| - 1], m) + Times(z[|s| - 1], Gap(s[|s| - 1], m))
  }

  /** The deviation of one block from the mean `m`. */
  ghost function Gap(b: Block, m: real): real {
    b.weightedY - m * b.weight
  }

  lemma DevStep(s: seq<Block>, m: real)
    requires s != []
    ensures Dev(s, m) == Dev(s[..|s| - 1], m) + Gap(s[|s| - 1], m)
  {
    var w := s[|s| - 1].weight;
    assert m * (SumW(s[..|s| - 1]) + w) == m * SumW(s[..|s| - 1]) + m * w;
  }

  /** Summation by parts: with every prefix deviation at most zero, a non-increasing fit gains nothing. */
  lemma {:induction false} MomentBound(s: seq<Block>, z: seq<real>, m: real)
    requires |z| == |s| && s != [] && NonIncreasing(z)
    requires forall j | 0 <= j <= |s| :: Dev(s[..j], m) <= 0.0
    ensures Moment(s, z, m) <= Dev(s, m) * z[|s| - 1]
  {
    hide Dev, Gap, Times;
    var n := |s| - 1;
    var t, y := s[..n], z[..n];
    var d := Gap(s[n], m);
    DevStep(s, m);
    if n == 0 {
      assert t == [];
      DevOfNone(m);
      MomentStep(0.0, 0.0, d, z[n], z[n]);
    } else {
      forall j | 0 <= j <= |t|
        ensures Dev(t[..j], m) <= 0.0
      {
        assert t[..j] == s[..j];
      }
      MomentBound(t, y, m);
      assert t[..n] == t;
      MomentStep(Moment(t, y, m), Dev(t, m), d, z[n], z[n - 1]);
    }
  }

  lemma MomentStep(moment: real, dev: real, d: real, x: real, y: real)
    requires moment <= dev * y && dev <= 0.0 && x <= y
    ensures moment + Times(x, d) <= (dev + d) * x
  {
    ScaleNonPositive(dev, x, y);
    assert (dev + d) * x == dev * x + x * d;
  }

  lemma ScaleNonPositive(d: real, x: real, y: real)
    requires d <= 0.0 && x <= y
    ensures d * y <= d * x
  {
  }

  /** The weighted squared distance of a fit from the value `m`. */
  ghost function Distance(s: seq<Block>, z: seq<real>, m: real): real
    requires |z| == |s|
  {
    if s == [] then 0.0
    else Distance(s[..|s| - 1], z[..|s| - 1], m) + SquareTimes(z[|s| - 1] - m, s[|s| - 1].weight)
  }

  function SquareTimes(d: real, w: real): real {
    w * (d * d)
  }

  /** The error of a fit exceeds that of a constant by twice the moment's shortfall and the distance. */
  lemma {:induction false} CostAgainstConstant(s: seq<Block>, z: seq<real>, m: real)
    requires |z| == |s|
    ensures Cost(s, z) - Cost(s, Constant(|s|, m)) == 2.0 * (Times(m, Dev(s, m)) - Moment(s, z, m)) + Distance(s, z, m)
  {
    hide Err, Dev, SquareTimes, Times, Gap;
    if s == [] {
      DevOfNone(m);
      assert Times(m, 0.0) == 0.0 by {
        TimesZero(m);
      }
    } else {
      var n := |s| - 1;
      CostAgainstConstant(s[..n], z[..n], m);
      assert Constant(|s|, m)[..n] == Constant(n, m);
      DevStep(s, m);
      ErrAgainst(s[n], z[n], m);
      AddTerms(m, Dev(s[..n], m), Gap(s[n], m));
    }
  }

  lemma DevOfNone(m: real)
    ensures Dev([], m) == 0.0
  {
  }

  lemma TimesZero(m: real)
    ensures Times(m, 0.0) == 0.0
  {
  }

  lemma AddTerms(m: real, dev: real, d: real)
    ensures Times(m, dev) + Times(m, d) == Times(m, dev + d)
  {
  }

  lemma ErrAgainst(b: Block, z: real, m: real)
    ensures var d := Gap(b, m);
            Err(b, z) - Err(b, m) == 2.0 * (Times(m, d) - Times(z, d)) + SquareTimes(z - m, b.weight)
  {
    var w, y := b.weight, b.weightedY;
    var sq := (z - m) * (z - m);
    assert w * sq == w * z * z - 2.0 * w * z * m + w * m * m;
    assert m * (y - m * w) - z * (y - m * w) == m * y - m * m * w - z * y + z * m * w;
  }

  lemma ProductNonNegative(x: real, y: real)
    requires x >= 0.0 && y >= 0.0
    ensures x * y >= 0.0
  {
  }

  /** A non-increasing fit to a pooled block errs more than the mean by at least its distance from it. */
  lemma PooledDistance(s: seq<Block>, z: seq<real>, m: real)
    requires |z| == |s| && s != [] && Pooled(s, m) && NonIncreasing(z)
    ensures Cost(s, z) >= Cost(s, Constant(|s|, m)) + Distance(s, z, m)
  {
    hide Dev, Pooled, Moment, Cost, NonIncreasing, Distance;
    PooledDeviations(s, m);
    MomentBound(s, z, m);
    CostAgainstConstant(s, z, m);
    NoShortfall(m, Dev(s, m), Moment(s, z, m), z[|s| - 1]);
  }

  lemma {:induction false} DistanceAtLeast(s: seq<Block>, z: seq<real>, m: real, c: real)
    requires |z| == |s| && Positive(s)
    requires forall i | 0 <= i < |z| :: (c - m) * (c - m) <= (z[i] - m) * (z[i] - m)
    ensures Distance(s, z, m) >= SquareTimes(c - m, SumW(s))
  {
    if s != [] {
      var n := |s| - 1;
      DistanceAtLeast(s[..n], z[..n], m, c);
      MoreSquare(c - m, z[n] - m, SumW(s[..n]), s[n].weight);
    } else {
      assert SquareTimes(c - m, 0.0) == 0.0;
    }
  }

  lemma MoreSquare(d: real, e: real, w: real, v: real)
    requires v > 0.0 && d * d <= e * e
    ensures SquareTimes(d, w) + SquareTimes(d, v) == SquareTimes(d, w + v)
    ensures SquareTimes(d, v) <= SquareTimes(e, v)
  {
    ProductNonNegative(v, e * e - d * d);
    assert v * (e * e - d * d) == v * (e * e) - v * (d * d);
    assert (w + v) * (d * d) == w * (d * d) + v * (d * d);
  }

  /** A pooled block's mean is the best non-increasing fit to its samples. */
  lemma PooledIsOptimal(s: seq<Block>, z: seq<real>, m: real)
    requires |z| == |s| && s != [] && Positive(s) && Pooled(s, m) && NonIncreasing(z)
    ensures Cost(s, z) >= Cost(s, Constant(|s|, m))
  {
    hide Cost, Pooled, Distance;
    PooledDistance(s, z, m);
    SquaresAreNotNegative(z, m);
    DistanceAtLeast(s, z, m, m);
    assert SquareTimes(m - m, SumW(s)) == 0.0;
  }

  lemma SquaresAreNotNegative(z: seq<real>, m: real)
    ensures forall i | 0 <= i < |z| :: (m - m) * (m - m) <= (z[i] - m) * (z[i] - m)
  {
  }

  /** The error of a constant exceeds that of the mean by its distance from it. */
  lemma ConstantAgainstMean(s: seq<Block>, c: real, m: real)
    requires Pooled(s, m)
    ensures Cost(s, Constant(|s|, c)) == Cost(s, Constant(|s|, m)) + SquareTimes(c - m, SumW(s))
  {
    hide ErrOfSums, SquareTimes, Pooled, Dev;
    PooledDeviations(s, m);
    CostOfConstant(s, c);
    CostOfConstant(s, m);
    PooledWhole(s, m);
    ErrAboutMean(SumW(s), SumY(s), SumY2(s), c, m);
  }

  lemma ErrAboutMean(w: real, y: real, y2: real, c: real, m: real)
    requires m * w == y
    ensures ErrOfSums(w, y, y2, c) == ErrOfSums(w, y, y2, m) + SquareTimes(c - m, w)
  {
    assert w * ((c - m) * (c - m)) == c * c * w - 2.0 * c * (m * w) + m * m * w;
    assert m * (m * w) == m * m * w;
  }

  lemma PooledDeviations(s: seq<Block>, m: real)
    requires Pooled(s, m)
    ensures Dev(s, m) == 0.0 && forall j | 0 <= j <= |s| :: Dev(s[..j], m) <= 0.0
  {
    hide Dev;
    DevOfNone(m);
    assert s[..0] == [] && s[..|s|] == s;
  }

  lemma NoShortfall(m: real, dev: real, moment: real, x: real)
    requires dev == 0.0 && moment <= dev * x
    ensures 2.0 * (Times(m, dev) - moment) >= 0.0
  {
  }

  lemma DevAppend(a: seq<Block>, b: seq<Block>, m: real)
    ensures Dev(a + b, m) == Dev(a, m) + Dev(b, m)
  {
    SumsAppend(a, b);
    assert m * (SumW(a) + SumW(b)) == m * SumW(a) + m * SumW(b);
  }

  /** Raising the reference mean lowers every deviation. */
  lemma DevShift(s: seq<Block>, a: real, m: real)
    ensures Dev(s, m) == Dev(s, a) + Times(a - m, SumW(s))
  {
    assert (a - m) * SumW(s) == a * SumW(s) - m * SumW(s);
  }

  lemma PooledWhole(s: seq<Block>, m: real)
    ensures Dev(s, m) == 0.0 <==> m * SumW(s) == SumY(s)
  {
  }

  lemma PooledMeans(s: seq<Block>, t: seq<Block>, a: real, b: real, m: real)
    requires s != [] && t != [] && Positive(s) && Positive(t) && Dev(s, a) == 0.0 && Dev(t, b) == 0.0
    requires a < b && m * SumW(s + t) == SumY(s + t)
    ensures a < m < b && Times(a - m, SumW(s)) + Times(b - m, SumW(t)) == 0.0
  {
    hide Dev, Times;
    SumWPositive(s);
    SumWPositive(t);
    SumsAppend(s, t);
    PooledWhole(s, a);
    PooledWhole(t, b);
    BetweenMeans(SumW(s), SumW(t), a, b, m);
  }

  /** Pooling a block with a following block of larger mean keeps the prefix property. */
  lemma PoolingKeeps(s: seq<Block>, t: seq<Block>, a: real, b: real, m: real)
    requires s != [] && t != [] && Positive(s) && Positive(t) && Pooled(s, a) && Pooled(t, b)
    requires a < b && m * SumW(s + t) == SumY(s + t)
    ensures Pooled(s + t, m) && a < m < b
  {
    hide Dev, Times;
    PooledMeans(s, t, a, b, m);
    PooledWhole(s + t, m);
    forall j | 0 < j < |s + t|
      ensures Dev((s + t)[..j], m) < 0.0
    {
      if j <= |s| {
        assert (s + t)[..j] == s[..j];
        HeadPrefix(s, j, a, m);
      } else {
        assert (s + t)[..j] == s + t[..j - |s|];
        TailPrefix(s, t, j - |s|, a, b, m);
      }
    }
  }

  lemma HeadPrefix(s: seq<Block>, j: nat, a: real, m: real)
    requires Positive(s) && Pooled(s, a) && 0 < j <= |s| && a < m
    ensures Dev(s[..j], m) < 0.0
  {
    hide Dev, Times;
    PooledDeviations(s, a);
    PrefixPositive(s, j);
    SumWPositive(s[..j]);
    DevShift(s[..j], a, m);
    TimesBelow(a - m, SumW(s[..j]));
  }

  lemma TimesBelow(x: real, y: real)
    requires x < 0.0 && y > 0.0
    ensures Times(x, y) < 0.0
  {
  }

  lemma TailPrefix(s: seq<Block>, t: seq<Block>, k: nat, a: real, b: real, m: real)
    requires Positive(s) && Positive(t) && Pooled(s, a) && Pooled(t, b) && k < |t| && a < m < b
    requires Times(a - m, SumW(s)) + Times(b - m, SumW(t)) == 0.0
    ensures Dev(s + t[..k], m) < 0.0
  {
    hide Dev, Times;
    PooledDeviations(s, a);
    PooledDeviations(t, b);
    DevAppend(s, t[..k], m);
    DevShift(s, a, m);
    DevShift(t[..k], b, m);
    PrefixWeight(t, k);
    ScaleBound(b - m, SumW(t[..k]), SumW(t));
  }

  function Times(x: real, y: real): real {
    x * y
  }

  lemma ScaleBound(d: real, x: real, y: real)
    requires d > 0.0 && x < y
    ensures Times(d, x) < Times(d, y)
  {
  }

  lemma PrefixPositive(s: seq<Block>, j: nat)
    requires Positive(s) && j <= |s|
    ensures Positive(s[..j])
  {
  }

  lemma PrefixWeight(s: seq<Block>, j: nat)
    requires Positive(s) && j < |s|
    ensures SumW(s[..j]) < SumW(s)
  {
    assert s == s[..j] + s[j..];
    SumsAppend(s[..j], s[j..]);
    SumWPositive(s[j..]);
  }

  lemma BetweenMeans(w: real, v: real, a: real, b: real, m: real)
    requires w > 0.0 && v > 0.0 && a < b && m * (w + v) == a * w + b * v
    ensures a < m < b
    ensures Times(a - m, w) + Times(b - m, v) == 0.0
  {
    assert (a - m) * w + (b - m) * v == a * w + b * v - m * (w + v);
    MeanAbove(w, v, a, b, m);
    MeanAbove(v, w, -b, -a, -m);
  }

  lemma MeanAbove(w: real, v: real, a: real, b: real, m: real)
    requires w > 0.0 && v > 0.0 && a < b && m * (w + v) == a * w + b * v
    ensures a < m
  {
    var x := (m - a) * (w + v);
    assert x == (b - a) * v;
    ProductPositive(b - a, v);
    PositiveFactor(m - a, w + v);
  }

  lemma ProductPositive(x: real, y: real)
    requires x > 0.0 && y > 0.0
    ensures x * y > 0.0
  {
  }

  lemma PositiveFactor(x: real, y: real)
    requires y > 0.0 && x * y > 0.0
    ensures x > 0.0
  {
  }
}
