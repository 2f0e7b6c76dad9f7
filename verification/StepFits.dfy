/**
 Why it is enough to coarsen the pooled blocks (fit_isotonic.py): the best coarsening into K groups is a best
 non-increasing step function with K steps on the points themselves.
 */
module StepFits {
  import opened Blocks
  import opened Pava
  import opened ReducedFit
  import opened Coarsening
  import opened Sets

  // ----- one value for each pooled block -----

  lemma {:induction false} Closest(z: seq<real>, m: real) returns (i: nat)
    requires z != []
    ensures i < |z| && forall j | 0 <= j < |z| :: (z[i] - m) * (z[i] - m) <= (z[j] - m) * (z[j] - m)
  {
    var n := |z| - 1;
    if n == 0 {
      i := 0;
    } else {
      i := Closest(z[..n], m);
      if (z[n] - m) * (z[n] - m) < (z[i] - m) * (z[i] - m) {
        i := n;
      }
    }
  }

  /** On a pooled block, the value of a non-increasing fit closest to the mean does no worse than the fit. */
  lemma OneValueWillDo(seg: seq<Block>, m: real, z: seq<real>) returns (i: nat)
    requires |z| == |seg| && seg != [] && Positive(seg) && Pooled(seg, m) && NonIncreasing(z)
    ensures i < |z| && Cost(seg, Constant(|seg|, z[i])) <= Cost(seg, z)
  {
    hide Cost, Pooled, Distance, SquareTimes;
    i := Closest(z, m);
    DistanceAtLeast(seg, z, m, z[i]);
    PooledDistance(seg, z, m);
    ConstantAgainstMean(seg, z[i], m);
  }

  /** A merged block errs like the points it merges. */
  lemma MergedErr(seg: seq<Block>, c: real)
    requires seg != []
    ensures Err(Merged(seg), c) == Cost(seg, Constant(|seg|, c))
  {
    CostOfConstant(seg, c);
  }

  /** The values of a fit. */
  ghost function Values(z: seq<real>): set<real> {
    set x | x in z
  }

  /** Steps inside a pooled block can be moved to its ends: one value for each block, without new values. */
  lemma {:induction false} MoveSteps(blocks: seq<Block>, segs: seq<seq<Block>>, z: seq<real>) returns (v: seq<real>)
    requires FittedTo(blocks, segs) && |z| == |Flatten(segs)| && NonIncreasing(z)
    ensures |v| == |blocks| && NonIncreasing(v) && Values(v) <= Values(z)
    ensures Cost(blocks, v) <= Cost(Flatten(segs), z)
  {
    hide Cost, Merged;
    if segs == [] {
      v := [];
      NoCost();
    } else {
      var n := |segs| - 1;
      var head, seg := Flatten(segs[..n]), segs[n];
      var y, x := z[..|head|], z[|head|..];
      assert z == y + x;
      var u := MoveSteps(blocks[..n], segs[..n], y);
      assert SegmentOk(blocks[n], seg);
      var i := OneValueWillDo(seg, blocks[n].Mean(), x);
      v := u + [x[i]];
      CostAppend(head, seg, y, x);
      CostPush(blocks, u, x[i]);
      MergedErr(seg, x[i]);
      ValuesPush(y, x, u, i);
    }
  }

  lemma NoCost()
    ensures Cost([], []) == 0.0
  {
  }

  lemma CostPush(s: seq<Block>, u: seq<real>, c: real)
    requires |s| == |u| + 1
    ensures Cost(s, u + [c]) == Cost(s[..|u|], u) + Err(s[|u|], c)
  {
    assert (u + [c])[..|u|] == u;
  }

  lemma ValuesPush(y: seq<real>, x: seq<real>, u: seq<real>, i: nat)
    requires NonIncreasing(y + x) && NonIncreasing(u) && Values(u) <= Values(y) && i < |x|
    ensures NonIncreasing(u + [x[i]]) && Values(u + [x[i]]) <= Values(y + x)
  {
    var z := y + x;
    forall j | 0 <= j < |u|
      ensures u[j] in y && u[j] >= x[i]
    {
      assert u[j] in Values(u);
      var k :| 0 <= k < |y| && y[k] == u[j];
      assert z[k] == y[k] && z[|y| + i] == x[i];
    }
  }

  // ----- a non-increasing fit is a step function -----

  /** With `k` values a non-increasing fit has `k` steps. */
  lemma {:induction false} StepsOf(v: seq<real>) returns (cuts: seq<nat>, values: seq<real>)
    requires NonIncreasing(v)
    ensures IsPartition(cuts, |Values(v)|, |v|, |v|) && |values| == |Values(v)|
    ensures Ascending(cuts, cuts[|cuts| - 1]) && StepFit(cuts, values) == v
    ensures values != [] ==> values[|values| - 1] == v[|v| - 1]
  {
    hide IsPartition, StepFit, Ascending, Values;
    CountValues(v);
    if v == [] {
      cuts, values := [0], [];
      NoSteps();
    } else {
      var n := |v| - 1;
      cuts, values := StepsOf(v[..n]);
      PartitionSize(cuts, |values|, n, n);
      if n > 0 && v[n - 1] == v[n] {
        LongerStep(cuts, values, v);
        cuts := cuts[|cuts| - 1 := n + 1];
      } else {
        NextStep(cuts, values, v);
        cuts, values := cuts + [n + 1], values + [v[n]];
      }
    }
  }

  /** A last value that differs from the one before is a new one. */
  lemma CountValues(v: seq<real>)
    requires NonIncreasing(v)
    ensures v == [] ==> |Values(v)| == 0
    ensures var n := |v| - 1;
            v != [] ==> |Values(v)| == |Values(v[..n])| + if n > 0 && v[n - 1] == v[n] then 0 else 1
  {
    if v == [] {
      assert Values(v) == {};
    } else {
      var n := |v| - 1;
      if n > 0 && v[n - 1] == v[n] {
        assert v[n] == v[..n][n - 1];
        assert Values(v) == Values(v[..n]);
      } else {
        assert Values(v) == Values(v[..n]) + {v[n]} && v[n] !in Values(v[..n]);
      }
    }
  }

  lemma NoSteps()
    ensures IsPartition([0], 0, 0, 0) && Ascending([0], 0) && StepFit([0], []) == []
  {
  }

  lemma PartitionSize(cuts: seq<nat>, k: nat, e: nat, n: nat)
    requires IsPartition(cuts, k, e, n)
    ensures |cuts| == k + 1 && (e > 0 ==> k > 0)
  {
  }

  lemma LongerStep(cuts: seq<nat>, values: seq<real>, v: seq<real>)
    requires |v| > 1 && |cuts| > 1 && IsPartition(cuts, |values|, |v| - 1, |v| - 1)
    requires Ascending(cuts, cuts[|cuts| - 1]) && StepFit(cuts, values) == v[..|v| - 1]
    requires values[|values| - 1] == v[|v| - 2] == v[|v| - 1]
    ensures var longer := cuts[|cuts| - 1 := |v|];
            && IsPartition(longer, |values|, |v|, |v|) && Ascending(longer, longer[|longer| - 1])
            && StepFit(longer, values) == v
  {
    var k := |cuts| - 1;
    var longer := cuts[k := |v|];
    AscendingInit(cuts);
    assert longer[..k] == cuts[..k];
  }

  lemma NextStep(cuts: seq<nat>, values: seq<real>, v: seq<real>)
    requires v != [] && cuts != [] && IsPartition(cuts, |values|, |v| - 1, |v| - 1)
    requires Ascending(cuts, cuts[|cuts| - 1]) && StepFit(cuts, values) == v[..|v| - 1]
    ensures var more := cuts + [|v|];
            && IsPartition(more, |values| + 1, |v|, |v|) && Ascending(more, more[|more| - 1])
            && StepFit(more, values + [v[|v| - 1]]) == v
  {
    hide IsPartition, Ascending, StepFit;
    NextCuts(cuts, |values|, |v|);
    StepFitPush(cuts, values, |v|, v[|v| - 1]);
    assert v == v[..|v| - 1] + Constant(1, v[|v| - 1]);
  }

  lemma StepFitPush(cuts: seq<nat>, values: seq<real>, e: nat, c: real)
    requires cuts != [] && cuts[0] == 0 && |values| == |cuts| - 1 && cuts[|cuts| - 1] < e
    requires Ascending(cuts, cuts[|cuts| - 1]) && Ascending(cuts + [e], e)
    ensures StepFit(cuts + [e], values + [c]) == StepFit(cuts, values) + Constant(e - cuts[|cuts| - 1], c)
  {
    hide Ascending;
    var more := cuts + [e];
    assert more[..|cuts|] == cuts && (values + [c])[..|values|] == values;
  }

  lemma NextCuts(cuts: seq<nat>, k: nat, n: nat)
    requires n > 0 && IsPartition(cuts, k, n - 1, n - 1)
    ensures |cuts| == k + 1 && cuts[0] == 0 && cuts[k] == n - 1
    ensures IsPartition(cuts + [n], k + 1, n, n) && Ascending(cuts + [n], n)
  {
  }

  // ----- fewer steps than groups -----

  /** A partition that attains the optimum. */
  lemma {:induction false} OptIsAttained(s: seq<Block>, k: nat, e: nat) returns (cuts: seq<nat>)
    requires Positive(s) && e <= |s| && Opt(s, k, e).Fin?
    ensures IsPartition(cuts, k, e, |s|) && PathCost(s, cuts) == Opt(s, k, e).cost
    decreases k
  {
    hide SegCost;
    if k == 0 {
      cuts := [0];
    } else {
      var b := LastStart(s, k, e, e);
      var before := OptIsAttained(s, k - 1, b);
      cuts := before + [e];
      assert cuts[..k] == before;
    }
  }

  lemma {:induction false} OptFalls(s: seq<Block>, j: nat, k: nat)
    requires Consistent(s) && 1 <= j <= k <= |s|
    ensures Positive(s) && Opt(s, j, |s|).Fin? && Opt(s, k, |s|).Fin?
    ensures Opt(s, k, |s|).cost <= Opt(s, j, |s|).cost
  {
    ConsistentIsPositive(s);
    OptIsFinite(s, j, |s|);
    if j < k {
      OptFalls(s, j, k - 1);
      MoreStepsNeverCostMore(s, k - 1, |s|);
    }
  }

  /** The best coarsening into `k` groups costs no more than any into fewer. */
  lemma BestOfFewer(s: seq<Block>, k: nat, fit: Fit, cuts: seq<nat>, j: nat)
    requires Consistent(s) && Positive(s) && IsBestFit(s, k, fit) && IsPartition(cuts, j, |s|, |s|) && j <= k
    ensures fit.cost <= PathCost(s, cuts)
  {
    hide PathCost;
    var chosen :| BestCuts(s, k, fit, chosen);
    FewerCutsThanBlocks(chosen, k, |s|);
    FewerCutsThanBlocks(cuts, j, |s|);
    if s != [] {
      OptFalls(s, j, k);
      var best := OptIsAttained(s, k, |s|);
      assert fit.cost <= PathCost(s, best);
      OptIsLowerBound(s, cuts, j, |s|);
    }
  }

  lemma FewerCutsThanBlocks(cuts: seq<nat>, k: nat, n: nat)
    requires IsPartition(cuts, k, n, n)
    ensures k <= n && (n > 0 ==> k > 0)
  {
    ManyCuts(cuts, k);
  }

  lemma {:induction false} ManyCuts(cuts: seq<nat>, i: nat)
    requires i < |cuts| && forall j | 0 <= j < |cuts| - 1 :: cuts[j] < cuts[j + 1]
    ensures i <= cuts[i]
  {
    if i > 0 {
      ManyCuts(cuts, i - 1);
      assert cuts[i - 1] < cuts[i - 1 + 1];
    }
  }

  // ----- the joined optimality -----

  /**
   No non-increasing assignment to the points with at most `k` values has a smaller squared error than the best
   coarsening of the pooled blocks into `k` groups.
   */
  lemma BestStepFit(blocks: seq<Block>, segs: seq<seq<Block>>, k: nat, fit: Fit, z: seq<real>)
    requires FittedTo(blocks, segs) && Consistent(blocks) && Positive(blocks) && IsBestFit(blocks, k, fit)
    requires |z| == |Flatten(segs)| && NonIncreasing(z) && |Values(z)| <= k
    ensures fit.cost <= Cost(Flatten(segs), z)
  {
    hide Cost, IsBestFit, StepFit, FittedTo, IsPartition, PathCost;
    var v := MoveSteps(blocks, segs, z);
    SubsetSize(Values(v), Values(z));
    var cuts, values := StepsOf(v);
    assert IsPartition(cuts, |Values(v)|, |blocks|, |blocks|);
    BestOfFewer(blocks, k, fit, cuts, |Values(v)|);
    PartitionCost(blocks, cuts, values, v);
  }

  lemma PartitionCost(s: seq<Block>, cuts: seq<nat>, values: seq<real>, v: seq<real>)
    requires Consistent(s) && Positive(s) && |v| == |s| && IsPartition(cuts, |values|, |s|, |s|)
    requires Ascending(cuts, cuts[|cuts| - 1]) && StepFit(cuts, values) == v
    ensures PathCost(s, cuts) <= Cost(s, v)
  {
    hide PathCost, StepFit, Cost;
    PathIsLeastSquares(s, cuts, values);
    assert s[..|s|] == s;
  }

  /** The assignment that gives every point the value of its pooled block. */
  ghost function OnPoints(segs: seq<seq<Block>>, v: seq<real>): (z: seq<real>)
    requires |v| == |segs|
    ensures |z| == |Flatten(segs)|
  {
    if segs == [] then [] else
    var n := |segs| - 1;
    OnPoints(segs[..n], v[..n]) + Constant(|segs[n]|, v[n])
  }

  lemma ValuesOfRun(z: seq<real>, n: nat, values: seq<real>, c: real)
    requires Values(z) <= Values(values)
    ensures Values(z + Constant(n, c)) <= Values(values + [c])
  {
    forall x | x in Values(z + Constant(n, c))
      ensures x in values + [c]
    {
      if x in z {
        assert x in Values(z);
      }
    }
  }

  lemma LastIsLeast(values: seq<real>)
    requires NonIncreasing(values) && values != []
    ensures NonIncreasing(values[..|values| - 1]) && AtLeast(values[..|values| - 1], values[|values| - 1])
  {
  }

  lemma {:induction false} SpreadFalls(segs: seq<seq<Block>>, v: seq<real>)
    requires |v| == |segs| && NonIncreasing(v)
    ensures NonIncreasing(OnPoints(segs, v)) && Values(OnPoints(segs, v)) <= Values(v)
    ensures forall m | AtLeast(v, m) :: AtLeast(OnPoints(segs, v), m)
  {
    if segs != [] {
      var n := |segs| - 1;
      LastIsLeast(v);
      SpreadFalls(segs[..n], v[..n]);
      AppendConstant(OnPoints(segs[..n], v[..n]), |segs[n]|, v[n]);
      ValuesOfRun(OnPoints(segs[..n], v[..n]), |segs[n]|, v[..n], v[n]);
      assert v == v[..n] + [v[n]];
    }
  }

  lemma {:induction false} StepFitFalls(cuts: seq<nat>, values: seq<real>)
    requires cuts != [] && cuts[0] == 0 && Ascending(cuts, cuts[|cuts| - 1]) && |values| == |cuts| - 1
    requires NonIncreasing(values)
    ensures NonIncreasing(StepFit(cuts, values)) && Values(StepFit(cuts, values)) <= Values(values)
    ensures forall m | AtLeast(values, m) :: AtLeast(StepFit(cuts, values), m)
  {
    var k := |values|;
    if k > 0 {
      AscendingInit(cuts);
      LastIsLeast(values);
      StepFitFalls(cuts[..k], values[..k - 1]);
      AppendConstant(StepFit(cuts[..k], values[..k - 1]), cuts[k] - cuts[k - 1], values[k - 1]);
      ValuesOfRun(StepFit(cuts[..k], values[..k - 1]), cuts[k] - cuts[k - 1], values[..k - 1], values[k - 1]);
      assert values == values[..k - 1] + [values[k - 1]];
    }
  }

  lemma {:induction false} SpreadCost(blocks: seq<Block>, segs: seq<seq<Block>>, v: seq<real>)
    requires FittedTo(blocks, segs) && |v| == |blocks|
    ensures Cost(Flatten(segs), OnPoints(segs, v)) == Cost(blocks, v)
  {
    hide Merged;
    if segs != [] {
      var n := |segs| - 1;
      SpreadCost(blocks[..n], segs[..n], v[..n]);
      assert SegmentOk(blocks[n], segs[n]);
      MergedErr(segs[n], v[n]);
      CostAppend(Flatten(segs[..n]), segs[n], OnPoints(segs[..n], v[..n]), Constant(|segs[n]|, v[n]));
    }
  }

  lemma {:induction false} MeansOfGroups(s: seq<Block>, cuts: seq<nat>)
    requires Positive(s) && cuts != [] && Ascending(cuts, |s|)
    ensures |SegmentMeans(s, cuts)| == |Groups(s, cuts)|
    ensures forall i | 0 <= i < |Groups(s, cuts)| ::
              Groups(s, cuts)[i].weight > 0.0 && SegmentMeans(s, cuts)[i] == Groups(s, cuts)[i].Mean()
  {
    var k := |cuts| - 1;
    if k > 0 {
      SegmentWeight(s, cuts[k - 1], cuts[k]);
      MeansOfGroups(s, cuts[..k]);
    }
  }

  lemma GroupMeansFall(s: seq<Block>, cuts: seq<nat>, k: nat)
    requires Falls(s) && IsPartition(cuts, k, |s|, |s|)
    ensures NonIncreasing(SegmentMeans(s, cuts))
  {
    hide SegmentMeans, Groups;
    CoarseningFalls(s, cuts, k);
    MeansOfGroups(s, cuts);
    var g := Groups(s, cuts);
    forall i, j | 0 <= i < j < |g|
      ensures SegmentMeans(s, cuts)[i] >= SegmentMeans(s, cuts)[j]
    {
      FallingFrom(g, i, j);
    }
  }

  lemma {:induction false} FewValues(z: seq<real>)
    ensures |Values(z)| <= |z|
  {
    if z == [] {
      assert Values(z) == {};
    } else {
      var n := |z| - 1;
      FewValues(z[..n]);
      assert Values(z) == Values(z[..n]) + {z[n]};
    }
  }

  /** The fitted groups are such an assignment, and it attains the cost. */
  lemma BestStepFitIsAttained(blocks: seq<Block>, segs: seq<seq<Block>>, k: nat, fit: Fit) returns (z: seq<real>)
    requires FittedTo(blocks, segs) && Consistent(blocks) && Falls(blocks) && IsBestFit(blocks, k, fit)
    ensures |z| == |Flatten(segs)| && NonIncreasing(z) && |Values(z)| <= k && Cost(Flatten(segs), z) == fit.cost
  {
    hide Cost, StepFit, SegmentMeans, FittedTo, PathCost, Groups, OnPoints, Flatten;
    var cuts :| BestCuts(blocks, k, fit, cuts);
    var means := SegmentMeans(blocks, cuts);
    BestFitIsLeastSquares(blocks, k, fit, cuts, means);
    EndsThere(blocks, cuts);
    var v := StepFit(cuts, means);
    GroupMeansFall(blocks, cuts, k);
    StepFitFalls(cuts, means);
    FittedSizes(blocks, segs);
    z := OnPoints(segs, v);
    SpreadFalls(segs, v);
    SpreadCost(blocks, segs, v);
    FewValues(means);
    SubsetSize(Values(z), Values(means));
  }

  lemma FittedSizes(blocks: seq<Block>, segs: seq<seq<Block>>)
    requires FittedTo(blocks, segs)
    ensures |segs| == |blocks|
  {
  }

  /** `cost` is the least squared error of a non-increasing assignment to the points with at most `k` values. */
  ghost predicate LeastSteps(points: seq<Block>, k: nat, cost: real) {
    && (forall z | |z| == |points| && NonIncreasing(z) && |Values(z)| <= k :: cost <= Cost(points, z))
    && (exists z :: |z| == |points| && NonIncreasing(z) && |Values(z)| <= k && Cost(points, z) == cost)
  }

  /**
   Pooling first and coarsening afterwards loses nothing: the best coarsening of the pooled blocks into `k`
   groups is a best non-increasing fit with `k` steps to the points.
   */
  lemma PoolThenCoarsen(blocks: seq<Block>, segs: seq<seq<Block>>, k: nat, fit: Fit)
    requires FittedTo(blocks, segs) && Consistent(blocks) && Falls(blocks) && IsBestFit(blocks, k, fit)
    ensures LeastSteps(Flatten(segs), k, fit.cost)
  {
    hide IsBestFit, FittedTo, Cost, Flatten, Values;
    forall z | |z| == |Flatten(segs)| && NonIncreasing(z) && |Values(z)| <= k
      ensures fit.cost <= Cost(Flatten(segs), z)
    {
      BestStepFit(blocks, segs, k, fit, z);
    }
    var z := BestStepFitIsAttained(blocks, segs, k, fit);
  }

  // ----- the samples behind a point -----

  /** The weighted squared error of a value against samples of future gain and weight. */
  ghost function SquaredError(rows: seq<(real, real)>, z: real): real {
    if rows == [] then 0.0 else
    var n := |rows| - 1;
    SquaredError(rows[..n], z) + rows[n].1 * ((rows[n].0 - z) * (rows[n].0 - z))
  }

  lemma SampleErr(age: int, y: real, w: real, z: real)
    ensures Err(Sample(age, y, w), z) == w * ((y - z) * (y - z))
  {
    assert w * ((y - z) * (y - z)) == y * y * w - 2.0 * z * (y * w) + z * z * w;
  }

  /** The error of a point is the squared error against its samples. */
  lemma {:induction false} PointError(age: int, rows: seq<(real, real)>, z: real)
    requires rows != []
    ensures Err(Merged(Samples(age, rows)), z) == SquaredError(rows, z)
  {
    hide Merged;
    MergedErr(Samples(age, rows), z);
    SamplesError(age, rows, z);
  }

  lemma {:induction false} SamplesError(age: int, rows: seq<(real, real)>, z: real)
    ensures Cost(Samples(age, rows), Constant(|rows|, z)) == SquaredError(rows, z)
  {
    hide Err, Sample;
    if rows != [] {
      var n := |rows| - 1;
      SamplesError(age, rows[..n], z);
      SampleErr(age, rows[n].0, rows[n].1, z);
      assert Samples(age, rows)[..n] == Samples(age, rows[..n]);
      assert Constant(n + 1, z)[..n] == Constant(n, z);
    }
  }
}
