/** Weighted pool-adjacent-violators for a non-increasing response (fit_isotonic.py), and its optimality. */
module Pava {
  import opened Blocks

  ghost function Flatten(segs: seq<seq<Block>>): seq<Block> {
    if segs == [] then [] else Flatten(segs[..|segs| - 1]) + segs[|segs| - 1]
  }

  /** Each fitted block is the merge of its segment of the points, and is pooled. */
  ghost predicate FittedTo(fitted: seq<Block>, segs: seq<seq<Block>>) {
    && |fitted| == |segs|
    && forall k | 0 <= k < |segs| :: SegmentOk(fitted[k], segs[k])
  }

  ghost predicate SegmentOk(b: Block, seg: seq<Block>) {
    seg != [] && Positive(seg) && b == Merged(seg) && b.weight > 0.0 && Pooled(seg, b.Mean())
  }

  /** Means do not increase over the first `n` blocks. */
  ghost predicate MeansFall(fitted: seq<Block>, n: int)
    requires n <= |fitted| && Positive(fitted)
  {
    forall k | 0 <= k < n - 1 :: fitted[k].Mean() >= fitted[k + 1].Mean()
  }

  lemma SinglePoint(p: Block)
    requires p.weight > 0.0
    ensures SegmentOk(p, [p])
  {
    SumsOne(p);
    assert [p][..0] == [] && [p][..1] == [p];
    assert Merged([p]) == p;
    assert p.weightedY == p.Mean() * p.weight;
  }

  lemma MergeSegments(a: Block, b: Block, s: seq<Block>, t: seq<Block>)
    requires SegmentOk(a, s) && SegmentOk(b, t) && a.Mean() < b.Mean()
    ensures SegmentOk(Merged([a, b]), s + t) && Merged([a, b]).weight > 0.0
  {
    hide Pooled, Merged;
    MergeTwo(s, t);
    MergedMean(s + t) by {
      assert forall x <- s + t :: x in s || x in t;
    }
    PoolingKeeps(s, t, a.Mean(), b.Mean(), Merged(s + t).Mean());
  }

  lemma MergedMean(s: seq<Block>)
    requires s != [] && Positive(s)
    ensures Merged(s).weight > 0.0 && Merged(s).Mean() * SumW(s) == SumY(s)
  {
    SumWPositive(s);
  }

  lemma FlattenPush(segs: seq<seq<Block>>, seg: seq<Block>)
    ensures Flatten(segs + [seg]) == Flatten(segs) + seg
  {
    assert (segs + [seg])[..|segs|] == segs;
  }

  lemma NothingFlattens()
    ensures Flatten([]) == []
  {
  }

  lemma FlattenMerge(segs: seq<seq<Block>>, s: seq<Block>, t: seq<Block>)
    ensures Flatten(segs + [s, t]) == Flatten(segs + [s + t])
  {
    assert segs + [s, t] == (segs + [s]) + [t];
    FlattenPush(segs + [s], t);
    FlattenPush(segs, s);
    FlattenPush(segs, s + t);
  }

  /** pava_decreasing */
  method PavaDecreasing(points: seq<Block>) returns (fitted: seq<Block>, ghost segs: seq<seq<Block>>)
    requires Positive(points)
    ensures FittedTo(fitted, segs) && Flatten(segs) == points
    ensures Positive(fitted) && MeansFall(fitted, |fitted|)
  {
    hide SegmentOk, Flatten, Merged;
    NothingFlattens();
    fitted, segs := [], [];
    var i := 0;
    while i < |points|
      invariant 0 <= i <= |points|
      invariant FittedTo(fitted, segs) && Flatten(segs) == points[..i]
      invariant Positive(fitted) && MeansFall(fitted, |fitted|)
    {
      var point := points[i];
      SinglePoint(point);
      FlattenPush(segs, [point]);
      fitted, segs := fitted + [point], segs + [[point]];
      assert points[..i + 1] == points[..i] + [point];
      while |fitted| >= 2 && fitted[|fitted| - 2].Mean() < fitted[|fitted| - 1].Mean()
        invariant FittedTo(fitted, segs) && Flatten(segs) == points[..i + 1]
        invariant |fitted| >= 1 && Positive(fitted) && MeansFall(fitted, |fitted| - 1)
        decreases |fitted|
      {
        var n := |fitted|;
        MergeSegments(fitted[n - 2], fitted[n - 1], segs[n - 2], segs[n - 1]);
        FlattenMerge(segs[..n - 2], segs[n - 2], segs[n - 1]);
        assert segs == segs[..n - 2] + [segs[n - 2], segs[n - 1]];
        assert fitted[n - 2..] == [fitted[n - 2], fitted[n - 1]];
        segs := segs[..n - 2] + [segs[n - 2] + segs[n - 1]];
        fitted := fitted[..n - 2] + [Merged(fitted[n - 2..])];
      }
      i := i + 1;
    }
    assert points[..i] == points;
  }

  /** The fit that assigns to every point the mean of its pooled block. */
  ghost function FitOf(fitted: seq<Block>, segs: seq<seq<Block>>): (z: seq<real>)
    requires FittedTo(fitted, segs)
    ensures |z| == |Flatten(segs)|
  {
    if segs == [] then [] else
    var n := |segs| - 1;
    FitOf(fitted[..n], segs[..n]) + Constant(|segs[n]|, fitted[n].Mean())
  }

  /** PAVA is optimal: no non-increasing assignment has a smaller weighted squared error. */
  lemma {:induction false} PavaIsOptimal(fitted: seq<Block>, segs: seq<seq<Block>>, z: seq<real>)
    requires FittedTo(fitted, segs) && |z| == |Flatten(segs)| && NonIncreasing(z)
    ensures Cost(Flatten(segs), z) >= Cost(Flatten(segs), FitOf(fitted, segs))
  {
    if segs != [] {
      var n := |segs| - 1;
      var head, seg := Flatten(segs[..n]), segs[n];
      var y, x := z[..|head|], z[|head|..];
      assert z == y + x;
      PavaIsOptimal(fitted[..n], segs[..n], y);
      assert SegmentOk(fitted[n], seg);
      PooledIsOptimal(seg, x, fitted[n].Mean());
      CostAppend(head, seg, y, x);
      CostAppend(head, seg, FitOf(fitted[..n], segs[..n]), Constant(|seg|, fitted[n].Mean()));
    }
  }

  lemma {:induction false} FallingFrom(fitted: seq<Block>, i: nat, j: nat)
    requires Positive(fitted) && MeansFall(fitted, |fitted|) && i <= j < |fitted|
    ensures fitted[i].Mean() >= fitted[j].Mean()
  {
    if i < j {
      FallingFrom(fitted, i, j - 1);
      assert fitted[j - 1].Mean() >= fitted[j - 1 + 1].Mean();
    }
  }

  /** The fit is itself non-increasing, so PAVA's error is the least among non-increasing assignments. */
  lemma {:induction false} FitIsFeasible(fitted: seq<Block>, segs: seq<seq<Block>>)
    requires FittedTo(fitted, segs) && Positive(fitted) && MeansFall(fitted, |fitted|)
    ensures NonIncreasing(FitOf(fitted, segs))
    ensures segs != [] ==> AtLeast(FitOf(fitted, segs), fitted[|fitted| - 1].Mean())
  {
    if segs != [] {
      var n := |segs| - 1;
      FitIsFeasible(fitted[..n], segs[..n]);
      if n > 0 {
        assert fitted[n - 1].Mean() >= fitted[n - 1 + 1].Mean();
        assert fitted[..n][n - 1] == fitted[n - 1];
        AtLeastLess(FitOf(fitted[..n], segs[..n]), fitted[n - 1].Mean(), fitted[n].Mean());
      }
      AppendConstant(FitOf(fitted[..n], segs[..n]), |segs[n]|, fitted[n].Mean());
    }
  }

  ghost predicate AtLeast(z: seq<real>, m: real) {
    forall i | 0 <= i < |z| :: z[i] >= m
  }

  lemma AtLeastLess(z: seq<real>, m: real, x: real)
    requires AtLeast(z, m) && x <= m
    ensures AtLeast(z, x)
  {
  }

  lemma AppendConstant(z: seq<real>, n: nat, m: real)
    requires NonIncreasing(z) && AtLeast(z, m)
    ensures NonIncreasing(z + Constant(n, m)) && AtLeast(z + Constant(n, m), m)
  {
    var r := z + Constant(n, m);
    forall i, j | 0 <= i < j < |r|
      ensures r[i] >= r[j] && r[i] >= m
    {
      assert i < |z| ==> r[i] == z[i];
      assert j < |z| ==> r[j] == z[j];
    }
  }

  // ----- the pooled blocks are the only ones -----

  /** A proper suffix of a pooled block averages more than the block. */
  lemma SuffixOfPooled(s: seq<Block>, m: real, k: nat)
    requires Pooled(s, m) && k < |s|
    ensures Dev(s[k..], m) >= 0.0
  {
    hide Dev;
    PooledDeviations(s, m);
    assert s == s[..k] + s[k..];
    DevAppend(s[..k], s[k..], m);
  }

  /** Lowering the reference mean raises the deviation. */
  lemma DevAbove(s: seq<Block>, m: real, c: real)
    requires s != [] && Positive(s) && Dev(s, m) >= 0.0 && c < m
    ensures Dev(s, c) > 0.0
  {
    hide Dev, Times;
    SumWPositive(s);
    DevShift(s, m, c);
    TimesAbove(m - c, SumW(s));
  }

  lemma TimesAbove(x: real, y: real)
    requires x > 0.0 && y > 0.0
    ensures Times(x, y) > 0.0
  {
  }

  lemma PositiveParts(a: seq<Block>, b: seq<Block>)
    requires Positive(a + b)
    ensures Positive(a) && Positive(b)
  {
    assert forall x <- a :: x in a + b;
    assert forall x <- b :: x in a + b;
  }

  /** Where all means lie above `c`, so does the average of every suffix of the points. */
  lemma {:induction false} SuffixAbove(fitted: seq<Block>, segs: seq<seq<Block>>, k: nat, c: real)
    requires FittedTo(fitted, segs) && k < |Flatten(segs)| && Positive(fitted)
    requires forall i | 0 <= i < |fitted| :: fitted[i].Mean() > c
    ensures Dev(Flatten(segs)[k..], c) > 0.0
  {
    hide Dev, Pooled;
    var n := |segs| - 1;
    var head, seg := Flatten(segs[..n]), segs[n];
    assert SegmentOk(fitted[n], seg);
    var m := fitted[n].Mean();
    if k < |head| {
      SuffixAbove(fitted[..n], segs[..n], k, c);
      SuffixOfPooled(seg, m, 0);
      assert seg[0..] == seg && Flatten(segs)[k..] == head[k..] + seg;
      DevAbove(seg, m, c);
      DevAppend(head[k..], seg, c);
    } else {
      var j := k - |head|;
      SuffixOfPooled(seg, m, j);
      assert seg == seg[..j] + seg[j..] && Flatten(segs)[k..] == seg[j..];
      PositiveParts(seg[..j], seg[j..]);
      DevAbove(seg[j..], m, c);
    }
  }

  /** No partition into pooled blocks with falling means ends in a longer block than another one. */
  lemma LastBlockIsLongest(a: seq<Block>, segs: seq<seq<Block>>, b: seq<Block>, tegs: seq<seq<Block>>)
    requires FittedTo(a, segs) && FittedTo(b, tegs) && Flatten(segs) == Flatten(tegs) && segs != [] && tegs != []
    requires Positive(a) && MeansFall(a, |a|)
    ensures |tegs[|tegs| - 1]| <= |segs[|segs| - 1]|
  {
    hide Dev;
    var n, l := |segs| - 1, |tegs| - 1;
    var s, t := segs[n], tegs[l];
    if |t| > |s| {
      assert SegmentOk(a[n], s) && SegmentOk(b[l], t);
      var m := b[l].Mean();
      var head, k := Flatten(segs[..n]), |t| - |s|;
      var p := head[|head| - k..];
      assert t == p + s by {
        SuffixesAgree(head, s, Flatten(tegs[..l]), t);
      }
      assert t[..k] == p;
      DevAppend(p, s, m);
      var c := a[n].Mean();
      if c <= m {
        LessMean(s, c, m);
        assert false;
      }
      forall i | 0 <= i < n
        ensures a[..n][i].Mean() > m
      {
        FallingFrom(a, i, n);
      }
      SuffixAbove(a[..n], segs[..n], |head| - k, m);
    }
  }

  lemma SuffixesAgree(head: seq<Block>, s: seq<Block>, init: seq<Block>, t: seq<Block>)
    requires head + s == init + t && |s| < |t|
    ensures |t| - |s| <= |head| && t == head[|head| - (|t| - |s|)..] + s
  {
    var whole := head + s;
    assert t == whole[|init|..];
  }

  /** The deviation from a mean no less than a block's own is not positive. */
  lemma LessMean(s: seq<Block>, c: real, m: real)
    requires s != [] && Positive(s) && Pooled(s, c) && c <= m
    ensures Dev(s, m) <= 0.0
  {
    hide Dev, Times;
    PooledDeviations(s, c);
    SumWPositive(s);
    DevShift(s, c, m);
    TimesNotAbove(c - m, SumW(s));
  }

  lemma TimesNotAbove(x: real, y: real)
    requires x <= 0.0 && y > 0.0
    ensures Times(x, y) <= 0.0
  {
  }

  /** The points have only one partition into pooled blocks with non-increasing means: the one PAVA finds. */
  lemma {:induction false} PavaIsUnique(a: seq<Block>, segs: seq<seq<Block>>, b: seq<Block>, tegs: seq<seq<Block>>)
    requires FittedTo(a, segs) && FittedTo(b, tegs) && Flatten(segs) == Flatten(tegs)
    requires Positive(a) && MeansFall(a, |a|) && Positive(b) && MeansFall(b, |b|)
    ensures segs == tegs && a == b
    decreases |segs|
  {
    hide Pooled, Merged;
    if segs == [] || tegs == [] {
      NoPoints(a, segs);
      NoPoints(b, tegs);
    } else {
      var n, l := |segs| - 1, |tegs| - 1;
      LastBlockIsLongest(a, segs, b, tegs);
      LastBlockIsLongest(b, tegs, a, segs);
      SameEnds(Flatten(segs[..n]), segs[n], Flatten(tegs[..l]), tegs[l]);
      assert SegmentOk(a[n], segs[n]) && SegmentOk(b[l], tegs[l]);
      PavaIsUnique(a[..n], segs[..n], b[..l], tegs[..l]);
      assert segs == segs[..n] + [segs[n]] && tegs == tegs[..l] + [tegs[l]];
      assert a == a[..n] + [a[n]] && b == b[..l] + [b[l]];
    }
  }

  lemma NoPoints(a: seq<Block>, segs: seq<seq<Block>>)
    requires FittedTo(a, segs)
    ensures segs == [] <==> Flatten(segs) == []
  {
    if segs != [] {
      assert SegmentOk(a[|segs| - 1], segs[|segs| - 1]);
    }
  }

  lemma SameEnds(a: seq<Block>, s: seq<Block>, b: seq<Block>, t: seq<Block>)
    requires a + s == b + t && |s| == |t|
    ensures a == b && s == t
  {
    assert a == (a + s)[..|a|] && b == (b + t)[..|b|];
    assert s == (a + s)[|a|..] && t == (b + t)[|b|..];
  }
}
