/** Pre-binning and coarsening of weighted samples (fit_isotonic.py): what survives merging adjacent blocks. */
module Coarsening {
  import opened MixedRadix
  import opened Blocks
  import opened Pava
  import opened ReducedFit
  import VictimScore

  // ----- pre-binning -----

  function BinStart(n: nat, bins: nat, i: nat): nat
    requires 0 < bins
  {
    (i * n) / bins
  }

  lemma BinStarts(n: nat, bins: nat, i: nat)
    requires 0 < bins < n && i < bins
    ensures BinStart(n, bins, i) < BinStart(n, bins, i + 1) <= n
    ensures BinStart(n, bins, bins) == n && BinStart(n, bins, 0) == 0
  {
    var q, r := (i * n) / bins, (i * n) % bins;
    assert (i + 1) * n == i * n + n;
    AtLeast1(i * n, n, bins);
    MulMono(i + 1, bins, n);
    MixDigits(n, 0, bins);
    assert bins * n == Mix(n, 0, bins);
    VictimScore.DivMonotone((i + 1) * n, bins * n, bins, bins);
  }

  lemma AtLeast1(x: nat, n: nat, d: nat)
    requires 0 < d <= n
    ensures x / d < (x + n) / d
  {
    var q, r := x / d, x % d;
    assert x + n >= (q + 1) * d;
    VictimScore.DivMonotone((q + 1) * d, x + n, d, d);
    MixDigits(q + 1, 0, d);
  }

  /**
   Few points are left as they are; of many, the first `k` bins together hold `k` of `maxBins` parts of the points,
   rounded down.
   */
  ghost predicate BinnedEvenly(points: seq<Block>, maxBins: nat, bins: seq<seq<Block>>, binned: seq<Block>) {
    && (|points| <= maxBins ==> binned == points)
    && (|points| > maxBins ==>
          && |bins| == maxBins
          && forall k | 0 <= k <= maxBins ::
               |Flatten(bins[..k])| * maxBins <= k * |points| < (|Flatten(bins[..k])| + 1) * maxBins)
  }

  /** Every bin holds as many points as an even share, rounded down or up. */
  lemma BinSizes(points: seq<Block>, maxBins: nat, bins: seq<seq<Block>>, binned: seq<Block>, k: nat)
    requires BinnedEvenly(points, maxBins, bins, binned) && k < maxBins < |points|
    ensures |bins| == maxBins
    ensures (|bins[k]| - 1) * maxBins < |points| < (|bins[k]| + 1) * maxBins
  {
    var a, b := |Flatten(bins[..k])|, |Flatten(bins[..k + 1])|;
    assert bins[..k + 1] == bins[..k] + [bins[k]];
    FlattenPush(bins[..k], bins[k]);
    assert b == a + |bins[k]|;
    assert (k + 1) * |points| == k * |points| + |points|;
    assert (a + 1) * maxBins == a * maxBins + maxBins && (b + 1) * maxBins == b * maxBins + maxBins;
    assert b * maxBins == a * maxBins + |bins[k]| * maxBins;
    assert (|bins[k]| + 1) * maxBins == |bins[k]| * maxBins + maxBins;
    assert (|bins[k]| - 1) * maxBins == |bins[k]| * maxBins - maxBins;
  }

  /** prebin: at most `maxBins` bins, each a non-empty run of points, every point in exactly one bin. */
  method Prebin(points: seq<Block>, maxBins: nat) returns (result: seq<Block>, ghost segs: seq<seq<Block>>)
    requires 0 < maxBins
    ensures Coarsens(result, segs, points) && |result| <= maxBins
    ensures BinnedEvenly(points, maxBins, segs, result)
  {
    hide BinStart, Merged, StartsAt, Flatten, BinnedEvenly;
    EmptyRun(|points|, maxBins);
    if |points| <= maxBins {
      result := points;
      segs := seq(|points|, i requires 0 <= i < |points| => [points[i]]);
      Singletons(points, segs);
      FewPoints(points, maxBins, segs);
      return;
    }
    result, segs := [], [];
    var index := 0;
    BinStarts(|points|, maxBins, 0);
    while index < maxBins
      invariant 0 <= index <= maxBins
      invariant |segs| == |result| == index
      invariant BinStart(|points|, maxBins, index) <= |points|
            && Flatten(segs) == points[..BinStart(|points|, maxBins, index)]
      invariant StartsAt(segs, |points|, maxBins)
      invariant forall k | 0 <= k < |segs| :: segs[k] != [] && result[k] == Merged(segs[k])
    {
      var start := BinStart(|points|, maxBins, index);
      var end := BinStart(|points|, maxBins, index + 1);
      BinStarts(|points|, maxBins, index);
      if start < end {
        FlattenPush(segs, points[start..end]);
        StartsPush(segs, |points|, maxBins, points[start..end]);
        result, segs := result + [Merged(points[start..end])], segs + [points[start..end]];
        assert points[..end] == points[..start] + points[start..end];
      }
      index := index + 1;
    }
    assert points[..|points|] == points;
    StartsAreEven(points, maxBins, segs, result);
  }

  /** The bins so far end where the source's bins end. */
  ghost predicate StartsAt(segs: seq<seq<Block>>, n: nat, bins: nat)
    requires 0 < bins
  {
    forall k | 0 <= k <= |segs| :: |Flatten(segs[..k])| == BinStart(n, bins, k)
  }

  lemma EmptyRun(n: nat, bins: nat)
    requires 0 < bins
    ensures Flatten([]) == [] && StartsAt([], n, bins)
  {
    assert BinStart(n, bins, 0) == 0;
  }

  lemma StartsPush(segs: seq<seq<Block>>, n: nat, bins: nat, seg: seq<Block>)
    requires 0 < bins && StartsAt(segs, n, bins) && |Flatten(segs)| + |seg| == BinStart(n, bins, |segs| + 1)
    ensures StartsAt(segs + [seg], n, bins)
  {
    hide BinStart, Flatten;
    var more := segs + [seg];
    FlattenPush(segs, seg);
    forall k | 0 <= k <= |more|
      ensures |Flatten(more[..k])| == BinStart(n, bins, k)
    {
      if k <= |segs| {
        assert more[..k] == segs[..k];
      } else {
        assert more[..k] == more;
      }
    }
  }

  lemma FewPoints(points: seq<Block>, maxBins: nat, segs: seq<seq<Block>>)
    requires |points| <= maxBins
    ensures BinnedEvenly(points, maxBins, segs, points)
  {
  }

  lemma StartsAreEven(points: seq<Block>, maxBins: nat, segs: seq<seq<Block>>, binned: seq<Block>)
    requires 0 < maxBins == |segs| && maxBins < |points| && StartsAt(segs, |points|, maxBins)
    ensures BinnedEvenly(points, maxBins, segs, binned)
  {
    hide BinStart, Flatten;
    forall k | 0 <= k <= maxBins
      ensures |Flatten(segs[..k])| * maxBins <= k * |points| < (|Flatten(segs[..k])| + 1) * maxBins
    {
      BinStartIs(|points|, maxBins, k);
    }
  }

  lemma BinStartIs(n: nat, bins: nat, k: nat)
    requires 0 < bins
    ensures BinStart(n, bins, k) * bins <= k * n < (BinStart(n, bins, k) + 1) * bins
  {
    QuotientIs(k * n, bins, BinStart(n, bins, k));
  }

  lemma {:induction false} Singletons(points: seq<Block>, segs: seq<seq<Block>>)
    requires |segs| == |points| && forall i | 0 <= i < |points| :: segs[i] == [points[i]]
    ensures Flatten(segs) == points
    ensures forall i | 0 <= i < |points| :: points[i] == Merged(segs[i])
  {
    forall i | 0 <= i < |points|
      ensures points[i] == Merged(segs[i])
    {
      SumsOne(points[i]);
    }
    if points != [] {
      var n := |points| - 1;
      Singletons(points[..n], segs[..n]);
    }
  }

  // ----- coarsening a pooled fit -----

  ghost predicate Falls(s: seq<Block>) {
    Positive(s) && MeansFall(s, |s|)
  }

  lemma MeanTimesWeight(b: Block)
    requires b.weight > 0.0
    ensures b.weightedY == b.Mean() * b.weight
  {
  }

  /** The mean of a run of falling blocks lies between its last and its first mean. */
  lemma {:induction false} RunMean(s: seq<Block>)
    requires Falls(s) && s != []
    ensures SumW(s) > 0.0
    ensures s[|s| - 1].Mean() <= Merged(s).Mean() <= s[0].Mean()
  {
    var n := |s| - 1;
    var b := s[n];
    SumWPositive(s);
    MeanTimesWeight(b);
    MeanTimesWeight(Merged(s));
    if n == 0 {
      SumsOne(b);
      assert s == [b];
    } else {
      RunMean(s[..n]);
      assert s[n - 1].Mean() >= s[n - 1 + 1].Mean();
      MeanTimesWeight(Merged(s[..n]));
      Weighted(SumW(s[..n]), b.weight, Merged(s[..n]).Mean(), b.Mean(), Merged(s).Mean());
    }
  }

  lemma Weighted(w: real, v: real, a: real, b: real, m: real)
    requires w > 0.0 && v > 0.0 && b <= a && m * (w + v) == a * w + b * v
    ensures b <= m <= a
  {
    if b < a {
      MeanAbove(v, w, b, a, m);
      MeanAbove(w, v, -a, -b, -m);
    } else {
      CancelFactor(m, a, w + v);
      CancelFactor(a, m, w + v);
    }
  }

  lemma SliceFalls(s: seq<Block>, a: nat, b: nat)
    requires Falls(s) && a <= b <= |s|
    ensures Falls(s[a..b])
  {
    forall k | 0 <= k < b - a - 1
      ensures s[a..b][k].Mean() >= s[a..b][k + 1].Mean()
    {
      assert s[a + k].Mean() >= s[a + k + 1].Mean();
    }
  }

  /** Every coarsening of a non-increasing fit is non-increasing. */
  lemma CoarseningFalls(s: seq<Block>, cuts: seq<nat>, k: nat)
    requires Falls(s) && IsPartition(cuts, k, |s|, |s|)
    ensures Falls(Groups(s, cuts))
  {
    hide Merged;
    var g := Groups(s, cuts);
    forall i | 0 <= i < |g|
      ensures g[i].weight > 0.0
    {
      GroupMean(s, cuts, i);
    }
    forall i | 0 <= i < |g| - 1
      ensures g[i].Mean() >= g[i + 1].Mean()
    {
      GroupMean(s, cuts, i);
      GroupMean(s, cuts, i + 1);
      FallingFrom(s, cuts[i + 1] - 1, cuts[i + 1]);
    }
  }

  lemma GroupMean(s: seq<Block>, cuts: seq<nat>, i: nat)
    requires Falls(s) && Ascending(cuts, |s|) && i + 1 < |cuts|
    ensures cuts[i] < cuts[i + 1] <= |s|
    ensures var m := Merged(s[cuts[i]..cuts[i + 1]]);
            m.weight > 0.0 && s[cuts[i + 1] - 1].Mean() <= m.Mean() <= s[cuts[i]].Mean()
  {
    assert cuts[i] < cuts[i + 1];
    SliceFalls(s, cuts[i], cuts[i + 1]);
    RunMean(s[cuts[i]..cuts[i + 1]]);
  }

  // ----- what merging adjacent blocks keeps -----

  /** `result` is `s` with the runs `segs` merged: every block of `s` is in exactly one run. */
  ghost predicate Coarsens(result: seq<Block>, segs: seq<seq<Block>>, s: seq<Block>) {
    && Flatten(segs) == s && |segs| == |result|
    && forall k | 0 <= k < |segs| :: segs[k] != [] && result[k] == Merged(segs[k])
  }

  lemma CoarsensInit(result: seq<Block>, segs: seq<seq<Block>>, s: seq<Block>) returns (head: seq<Block>)
    requires Coarsens(result, segs, s) && segs != []
    ensures var n := |segs| - 1;
            Coarsens(result[..n], segs[..n], head) && s == head + segs[n]
            && result == result[..n] + [Merged(segs[n])]
  {
    head := Flatten(segs[..|segs| - 1]);
  }

  lemma CoarsensPush(result: seq<Block>, segs: seq<seq<Block>>, s: seq<Block>, seg: seq<Block>)
    requires Coarsens(result, segs, s) && seg != []
    ensures Coarsens(result + [Merged(seg)], segs + [seg], s + seg)
  {
    FlattenPush(segs, seg);
  }

  /** Coarsening conserves the weight, the sums and the sample count. */
  lemma {:induction false} CoarseningKeepsSums(result: seq<Block>, segs: seq<seq<Block>>, s: seq<Block>)
    requires Coarsens(result, segs, s)
    ensures SumW(result) == SumW(s) && SumY(result) == SumY(s) && SumY2(result) == SumY2(s) && SumN(result) == SumN(s)
  {
    if segs != [] {
      var n := |segs| - 1;
      var head := CoarsensInit(result, segs, s);
      CoarseningKeepsSums(result[..n], segs[..n], head);
      SumsAppend(head, segs[n]);
      SumsAppend(result[..n], [Merged(segs[n])]);
      SumsOne(Merged(segs[n]));
    }
  }

  /** Coarsening consistent blocks leaves them consistent, so more steps never cost more on binned and pooled data. */
  lemma {:induction false} CoarseningKeepsConsistency(result: seq<Block>, segs: seq<seq<Block>>, s: seq<Block>)
    requires Coarsens(result, segs, s) && Consistent(s)
    ensures Consistent(result)
  {
    hide Merged;
    if segs != [] {
      var n := |segs| - 1;
      var head := CoarsensInit(result, segs, s);
      ConsistentParts(head, segs[n]);
      CoarseningKeepsConsistency(result[..n], segs[..n], head);
      MergedIsConsistent(segs[n]);
      ConsistentTogether(result[..n], [Merged(segs[n])]);
    }
  }

  lemma ConsistentParts(a: seq<Block>, b: seq<Block>)
    requires Consistent(a + b)
    ensures Consistent(a) && Consistent(b)
  {
    assert forall x <- a :: x in a + b;
    assert forall x <- b :: x in a + b;
  }

  lemma ConsistentTogether(a: seq<Block>, b: seq<Block>)
    requires Consistent(a) && Consistent(b)
    ensures Consistent(a + b)
  {
  }

  /** Blocks hold sensible age ranges, in increasing order and without overlap. */
  ghost predicate Ordered(s: seq<Block>) {
    && (forall i | 0 <= i < |s| :: 0 <= s[i].ageMin <= s[i].ageMax)
    && (forall i, j | 0 <= i < j < |s| :: s[i].ageMax < s[j].ageMin)
  }

  ghost predicate Holds(b: Block, age: int) {
    b.ageMin <= age <= b.ageMax
  }

  /** Every age held by a block of `s` is held by a block of `r`. */
  ghost predicate Covers(r: seq<Block>, s: seq<Block>) {
    forall i, age | 0 <= i < |s| && Holds(s[i], age) :: exists k | 0 <= k < |r| :: Holds(r[k], age)
  }

  /** Every block of `r` ends at the end of some block of `s`. */
  ghost predicate EndsWithin(r: seq<Block>, s: seq<Block>) {
    forall k | 0 <= k < |r| :: exists i | 0 <= i < |s| :: r[k].ageMax == s[i].ageMax
  }

  lemma OrderedParts(a: seq<Block>, b: seq<Block>)
    requires Ordered(a + b)
    ensures Ordered(a) && Ordered(b)
    ensures forall i, j | 0 <= i < |a| && 0 <= j < |b| :: a[i].ageMax < b[j].ageMin
  {
    var s := a + b;
    assert forall i | 0 <= i < |a| :: a[i] == s[i];
    assert forall j | 0 <= j < |b| :: b[j] == s[|a| + j];
  }

  lemma MergedHolds(seg: seq<Block>, i: nat)
    requires Ordered(seg) && i < |seg|
    ensures Merged(seg).ageMin <= seg[i].ageMin && seg[i].ageMax <= Merged(seg).ageMax
    ensures 0 <= Merged(seg).ageMin <= Merged(seg).ageMax
  {
    assert 0 < i ==> seg[0].ageMax < seg[i].ageMin;
    assert i < |seg| - 1 ==> seg[i].ageMax < seg[|seg| - 1].ageMin;
  }

  /** Coarsening keeps the age ranges in order and loses no sampled age. */
  lemma {:induction false} CoarseningKeepsAges(result: seq<Block>, segs: seq<seq<Block>>, s: seq<Block>)
    requires Coarsens(result, segs, s) && Ordered(s)
    ensures Ordered(result) && Covers(result, s)
    ensures EndsWithin(result, s)
  {
    hide Merged;
    if segs != [] {
      var n := |segs| - 1;
      var head := CoarsensInit(result, segs, s);
      OrderedParts(head, segs[n]);
      CoarseningKeepsAges(result[..n], segs[..n], head);
      AppendAges(result[..n], head, segs[n]);
    }
  }

  lemma AppendAges(r: seq<Block>, head: seq<Block>, seg: seq<Block>)
    requires Ordered(r) && Covers(r, head) && seg != [] && Ordered(head + seg)
    requires EndsWithin(r, head)
    ensures var t := r + [Merged(seg)]; Ordered(t) && Covers(t, head + seg) && EndsWithin(t, head + seg)
  {
    var t, s, m := r + [Merged(seg)], head + seg, Merged(seg);
    OrderedParts(head, seg);
    MergedHolds(seg, 0);
    assert m.ageMin == seg[0].ageMin && m.ageMax == s[|s| - 1].ageMax;
    forall k | 0 <= k < |r|
      ensures r[k].ageMax < m.ageMin && exists i | 0 <= i < |s| :: r[k].ageMax == s[i].ageMax
    {
      var i :| 0 <= i < |head| && r[k].ageMax == head[i].ageMax;
      assert s[i] == head[i];
    }
    forall i, age | 0 <= i < |s| && Holds(s[i], age)
      ensures exists k | 0 <= k < |t| :: Holds(t[k], age)
    {
      if i < |head| {
        assert Holds(head[i], age);
        var k :| 0 <= k < |r| && Holds(r[k], age);
        assert t[k] == r[k];
      } else {
        MergedHolds(seg, i - |head|);
        assert Holds(t[|r|], age);
      }
    }
  }

  lemma CoversTransitive(r: seq<Block>, s: seq<Block>, t: seq<Block>)
    requires Covers(r, s) && Covers(s, t)
    ensures Covers(r, t)
  {
    forall i, age | 0 <= i < |t| && Holds(t[i], age)
      ensures exists k | 0 <= k < |r| :: Holds(r[k], age)
    {
      var j :| 0 <= j < |s| && Holds(s[j], age);
    }
  }

  /** The groups between cut points are a coarsening of the blocks up to the last cut. */
  lemma {:induction false} GroupsCoarsen(s: seq<Block>, cuts: seq<nat>) returns (segs: seq<seq<Block>>)
    requires cuts != [] && cuts[0] == 0 && Ascending(cuts, |s|)
    ensures Coarsens(Groups(s, cuts), segs, s[..cuts[|cuts| - 1]])
  {
    hide Merged;
    var k := |cuts| - 1;
    if k == 0 {
      segs := [];
    } else {
      segs := GroupsCoarsen(s, cuts[..k]);
      var seg := s[cuts[k - 1]..cuts[k]];
      CoarsensPush(Groups(s, cuts[..k]), segs, s[..cuts[k - 1]], seg);
      assert s[..cuts[k]] == s[..cuts[k - 1]] + seg;
      segs := segs + [seg];
    }
  }
}
