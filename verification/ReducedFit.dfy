/** The dynamic program that coarsens a fit to K segments (reduced_fits in fit_isotonic.py), and its optimality. */
module ReducedFit {
  import opened Blocks

  /** A cell of the table: infinity, or a real cost. */
  datatype Cell = Inf | Fin(cost: real)

  predicate Less(a: Cell, b: Cell) {
    match (a, b)
    case (Inf, _) => false
    case (Fin(_), Inf) => true
    case (Fin(x), Fin(y)) => x < y
  }

  function Plus(a: Cell, x: real): Cell {
    match a
    case Inf => Inf
    case Fin(c) => Fin(c + x)
  }

  function Max0(x: real): real {
    if x > 0.0 then x else 0.0
  }

  /** What segment_cost computes from the sums of a segment, before clamping at zero. */
  function Spread(w: real, y: real, y2: real): real
    requires w > 0.0
  {
    y2 - y * y / w
  }

  /** segment_cost; `SegCostIsSquaredError` says what it means. */
  function SegCost(s: seq<Block>, start: nat, end: nat): real
    requires start < end <= |s| && Positive(s)
  {
    SegmentWeight(s, start, end);
    Max0(Spread(SumW(s[start..end]), SumY(s[start..end]), SumY2(s[start..end])))
  }

  lemma SegmentWeight(s: seq<Block>, start: nat, end: nat)
    requires start < end <= |s| && Positive(s)
    ensures SumW(s[start..end]) > 0.0
  {
    SumWPositive(s[start..end]);
  }

  /** The prefix sums give the sums of a segment. */
  lemma PrefixDifference(s: seq<Block>, start: nat, end: nat)
    requires start <= end <= |s|
    ensures SumW(s[..end]) - SumW(s[..start]) == SumW(s[start..end])
    ensures SumY(s[..end]) - SumY(s[..start]) == SumY(s[start..end])
    ensures SumY2(s[..end]) - SumY2(s[..start]) == SumY2(s[start..end])
  {
    assert s[..end] == s[..start] + s[start..end];
    SumsAppend(s[..start], s[start..end]);
  }

  // ----- partitions -----

  ghost predicate Ascending(cuts: seq<nat>, n: nat) {
    && (forall i | 0 <= i < |cuts| :: cuts[i] <= n)
    && (forall i | 0 <= i < |cuts| - 1 :: cuts[i] < cuts[i + 1])
  }

  /** Cut points of a partition of the first `e` of `n` blocks into `k` non-empty contiguous segments. */
  ghost predicate IsPartition(cuts: seq<nat>, k: nat, e: nat, n: nat) {
    |cuts| == k + 1 && cuts[0] == 0 && cuts[k] == e && Ascending(cuts, n)
  }

  /** The total cost of the segments between consecutive cut points. */
  ghost function PathCost(s: seq<Block>, cuts: seq<nat>): real
    requires Ascending(cuts, |s|) && Positive(s)
  {
    if |cuts| <= 1 then 0.0 else
    var k := |cuts| - 1;
    PathCost(s, cuts[..k]) + SegCost(s, cuts[k - 1], cuts[k])
  }

  lemma AscendingPrepend(a: nat, cuts: seq<nat>, n: nat)
    requires cuts != [] && a < cuts[0] && Ascending(cuts, n)
    ensures Ascending([a] + cuts, n) && Ascending([a], n)
    ensures |cuts| > 1 ==> Ascending(cuts[..|cuts| - 1], n) && cuts[|cuts| - 2] < cuts[|cuts| - 1] <= n
    ensures a < cuts[0] <= n
  {
    assert |cuts| > 1 ==> cuts[|cuts| - 2] < cuts[|cuts| - 2 + 1];
  }

  lemma {:induction false} PathPrepend(s: seq<Block>, a: nat, cuts: seq<nat>)
    requires cuts != [] && a < cuts[0] && Ascending(cuts, |s|) && Positive(s)
    ensures Ascending([a] + cuts, |s|) && PathCost(s, [a] + cuts) == SegCost(s, a, cuts[0]) + PathCost(s, cuts)
  {
    hide SegCost, Ascending;
    var path := [a] + cuts;
    var k := |cuts| - 1;
    AscendingPrepend(a, cuts, |s|);
    if k == 0 {
      assert path[..1] == [a];
      assert PathCost(s, [a]) == 0.0;
    } else {
      PathPrepend(s, a, cuts[..k]);
      assert path[..k + 1] == [a] + cuts[..k];
    }
  }

  /** The least cost of the first `e` blocks in `k` segments. */
  ghost function Opt(s: seq<Block>, k: nat, e: nat): Cell
    requires e <= |s| && Positive(s)
    decreases k, |s| + 1
  {
    if k == 0 then (if e == 0 then Fin(0.0) else Inf) else OptTo(s, k, e, e)
  }

  /** The least cost when the last segment starts before `n`. */
  ghost function OptTo(s: seq<Block>, k: nat, e: nat, n: nat): Cell
    requires k > 0 && n <= e <= |s| && Positive(s)
    decreases k, n
  {
    if n == 0 then Inf else
    var rest := OptTo(s, k, e, n - 1);
    var last := Plus(Opt(s, k - 1, n - 1), SegCost(s, n - 1, e));
    if Less(last, rest) then last else rest
  }

  /** Fewer blocks than segments cannot be partitioned. */
  lemma {:induction false} TooFew(s: seq<Block>, k: nat, e: nat)
    requires e <= |s| && Positive(s) && e < k
    ensures Opt(s, k, e) == Inf
    decreases k, e, 0
  {
    TooFewTo(s, k, e, e);
  }

  lemma {:induction false} TooFewTo(s: seq<Block>, k: nat, e: nat, n: nat)
    requires 0 < k && n <= e <= |s| && Positive(s) && n < k
    ensures OptTo(s, k, e, n) == Inf
    decreases k, n
  {
    if n > 0 {
      TooFewTo(s, k, e, n - 1);
      if k - 1 > 0 {
        TooFewTo(s, k - 1, n - 1, n - 1);
      }
    }
  }

  /** No partition costs less than the optimum. */
  lemma {:induction false} OptIsLowerBound(s: seq<Block>, cuts: seq<nat>, k: nat, e: nat)
    requires e <= |s| && Positive(s) && IsPartition(cuts, k, e, |s|)
    ensures Opt(s, k, e).Fin? && Opt(s, k, e).cost <= PathCost(s, cuts)
    decreases k
  {
    if k > 0 {
      var b := cuts[k - 1];
      assert IsPartition(cuts[..k], k - 1, b, |s|);
      OptIsLowerBound(s, cuts[..k], k - 1, b);
      OptToBelow(s, k, e, e, b);
    }
  }

  lemma {:induction false} OptToBelow(s: seq<Block>, k: nat, e: nat, n: nat, b: nat)
    requires k > 0 && b < n <= e <= |s| && Positive(s) && Opt(s, k - 1, b).Fin?
    ensures OptTo(s, k, e, n).Fin? && OptTo(s, k, e, n).cost <= Opt(s, k - 1, b).cost + SegCost(s, b, e)
    decreases n
  {
    if b < n - 1 {
      OptToBelow(s, k, e, n - 1, b);
    }
  }

  // ----- the table -----

  /** Every earlier start of the last segment costs more. */
  ghost predicate FirstStart(s: seq<Block>, k: nat, e: nat, cell: Cell, parent: nat)
    requires parent <= e <= |s| && Positive(s) && k > 0
  {
    forall b: nat | b < parent :: Less(cell, Plus(Opt(s, k - 1, b), SegCost(s, b, e)))
  }

  lemma {:induction false} OptToLeast(s: seq<Block>, k: nat, e: nat, n: nat)
    requires k > 0 && n <= e <= |s| && Positive(s)
    ensures forall b: nat | b < n :: !Less(Plus(Opt(s, k - 1, b), SegCost(s, b, e)), OptTo(s, k, e, n))
    decreases n
  {
    hide SegCost;
    if n > 0 {
      OptToLeast(s, k, e, n - 1);
    }
  }

  /** A finished cell holds the optimum, and its parent starts the last segment of an optimal partition. */
  ghost predicate CellOk(s: seq<Block>, k: nat, e: nat, cell: Cell, parent: int)
    requires e <= |s| && Positive(s)
  {
    && cell == Opt(s, k, e)
    && (k > 0 && cell.Fin? ==> ParentOk(s, k, e, cell, parent))
  }

  ghost predicate ParentOk(s: seq<Block>, k: nat, e: nat, cell: Cell, parent: int)
    requires e <= |s| && Positive(s) && k > 0
  {
    && 0 <= parent < e && cell == Plus(Opt(s, k - 1, parent), SegCost(s, parent, e)) && Opt(s, k - 1, parent).Fin?
    && FirstStart(s, k, e, cell, parent)
  }

  /** The inner loop: candidates for one cell, from the first start that can be reached. */
  method FillCell(s: seq<Block>, prefixW: seq<real>, prefixY: seq<real>, prefixY2: seq<real>, row: seq<Cell>,
      k: nat, e: nat)
    returns (cell: Cell, parent: int)
    requires Positive(s) && 0 < k <= e <= |s| && |row| == |s| + 1
    requires PrefixesOf(s, prefixW, prefixY, prefixY2)
    requires forall i | 0 <= i <= |s| :: row[i] == Opt(s, k - 1, i)
    ensures CellOk(s, k, e, cell, parent)
  {
    cell, parent := Inf, -1;
    TooFewTo(s, k, e, k - 1);
    var start := k - 1;
    while start < e
      invariant k - 1 <= start <= e
      invariant cell == OptTo(s, k, e, start)
      invariant cell.Fin? ==> ParentOk(s, k, e, cell, parent)
    {
      var cost := SegmentCost(s, prefixW, prefixY, prefixY2, start, e);
      var candidate := Plus(row[start], cost);
      OptToLeast(s, k, e, start);
      if Less(candidate, cell) {
        cell, parent := candidate, start;
      }
      start := start + 1;
    }
  }

  ghost predicate PrefixesOf(s: seq<Block>, w: seq<real>, y: seq<real>, y2: seq<real>) {
    && |w| == |y| == |y2| == |s| + 1
    && forall i | 0 <= i <= |s| :: w[i] == SumW(s[..i]) && y[i] == SumY(s[..i]) && y2[i] == SumY2(s[..i])
  }

  /** segment_cost, from the prefix sums. */
  function SegmentCost(ghost s: seq<Block>, w: seq<real>, y: seq<real>, y2: seq<real>, start: nat, end: nat): (c: real)
    requires Positive(s) && PrefixesOf(s, w, y, y2) && start < end <= |s|
    ensures c == SegCost(s, start, end)
  {
    PrefixDifference(s, start, end);
    SegmentWeight(s, start, end);
    var weight := w[end] - w[start];
    var weightedY := y[end] - y[start];
    var weightedY2 := y2[end] - y2[start];
    Max0(Spread(weight, weightedY, weightedY2))
  }

  method PrefixSums(s: seq<Block>) returns (w: seq<real>, y: seq<real>, y2: seq<real>)
    ensures PrefixesOf(s, w, y, y2)
  {
    w, y, y2 := [0.0], [0.0], [0.0];
    var i := 0;
    while i < |s|
      invariant 0 <= i <= |s| && |w| == |y| == |y2| == i + 1
      invariant forall j | 0 <= j <= i :: w[j] == SumW(s[..j]) && y[j] == SumY(s[..j]) && y2[j] == SumY2(s[..j])
    {
      assert s[..i + 1][..i] == s[..i];
      w, y, y2 := w + [w[i] + s[i].weight], y + [y[i] + s[i].weightedY], y2 + [y2[i] + s[i].weightedY2];
      i := i + 1;
    }
    assert s[..i] == s;
  }

  // ----- filling the table -----

  /** Rows 0 to `k` are finished. */
  ghost predicate RowsOk(s: seq<Block>, dp: seq<seq<Cell>>, parent: seq<seq<int>>, k: nat)
    requires Positive(s)
  {
    && |dp| > k && |parent| > k
    && forall i | 0 <= i <= k :: |dp[i]| == |s| + 1 && |parent[i]| == |s| + 1 && RowOk(s, dp[i], parent[i], i, |s| + 1)
  }

  /** The cells of row `k` before column `upto` are finished. */
  ghost predicate RowOk(s: seq<Block>, row: seq<Cell>, parents: seq<int>, k: nat, upto: nat)
    requires Positive(s) && |row| == |s| + 1 && |parents| == |s| + 1 && upto <= |s| + 1
  {
    forall e | 0 <= e < upto :: CellOk(s, k, e, row[e], parents[e])
  }

  method FillRow(s: seq<Block>, w: seq<real>, y: seq<real>, y2: seq<real>, previous: seq<Cell>, k: nat)
    returns (row: seq<Cell>, parents: seq<int>)
    requires Positive(s) && 0 < k <= |s| && |previous| == |s| + 1 && PrefixesOf(s, w, y, y2)
    requires forall i | 0 <= i <= |s| :: previous[i] == Opt(s, k - 1, i)
    ensures |row| == |s| + 1 && |parents| == |s| + 1 && RowOk(s, row, parents, k, |s| + 1)
  {
    row, parents := seq(|s| + 1, _ => Inf), seq(|s| + 1, _ => -1);
    forall e: nat | e < k
      ensures CellOk(s, k, e, row[e], parents[e])
    {
      TooFew(s, k, e);
    }
    var end := k;
    while end < |s| + 1
      invariant k <= end <= |s| + 1 && |row| == |s| + 1 && |parents| == |s| + 1
      invariant RowOk(s, row, parents, k, end)
    {
      var cell, p := FillCell(s, w, y, y2, previous, k, end);
      row, parents := row[end := cell], parents[end := p];
      end := end + 1;
    }
  }

  /** The dynamic program of reduced_fits for `maxSteps` segments at most. */
  method FillTable(s: seq<Block>, maxSteps: nat) returns (dp: seq<seq<Cell>>, parent: seq<seq<int>>)
    requires Positive(s) && maxSteps <= |s|
    ensures |dp| == maxSteps + 1 && |parent| == maxSteps + 1 && RowsOk(s, dp, parent, maxSteps)
  {
    var w, y, y2 := PrefixSums(s);
    dp := [seq(|s| + 1, i => if i == 0 then Fin(0.0) else Inf)];
    parent := [seq(|s| + 1, _ => -1)];
    var steps := 1;
    while steps <= maxSteps
      invariant 1 <= steps <= maxSteps + 1 && |dp| == steps && |parent| == steps
      invariant RowsOk(s, dp, parent, steps - 1)
    {
      RowIsOpt(s, dp[steps - 1], parent[steps - 1], steps - 1);
      var row, parents := FillRow(s, w, y, y2, dp[steps - 1], steps);
      dp, parent := dp + [row], parent + [parents];
      steps := steps + 1;
    }
  }

  lemma RowIsOpt(s: seq<Block>, row: seq<Cell>, parents: seq<int>, k: nat)
    requires Positive(s) && |row| == |s| + 1 && |parents| == |s| + 1 && RowOk(s, row, parents, k, |s| + 1)
    ensures forall i | 0 <= i <= |s| :: row[i] == Opt(s, k, i)
  {
    forall i | 0 <= i <= |s|
      ensures row[i] == Opt(s, k, i)
    {
      assert CellOk(s, k, i, row[i], parents[i]);
    }
  }

  // ----- rebuilding the partition -----

  /** Each segment starts as early as its cost allows, the first one being segment `k` + 1. */
  ghost predicate EarliestFrom(s: seq<Block>, cuts: seq<nat>, k: nat)
    requires Positive(s) && Ascending(cuts, |s|)
  {
    forall i | 0 < i < |cuts| :: StartsFirst(s, cuts, k, i)
  }

  ghost predicate StartsFirst(s: seq<Block>, cuts: seq<nat>, k: nat, i: nat)
    requires Positive(s) && Ascending(cuts, |s|) && 0 < i < |cuts|
  {
    assert cuts[i - 1] < cuts[i - 1 + 1];
    FirstStart(s, k + i, cuts[i], Opt(s, k + i, cuts[i]), cuts[i - 1])
  }

  lemma EarliestPrepend(s: seq<Block>, a: nat, cuts: seq<nat>, k: nat)
    requires Positive(s) && Ascending(cuts, |s|) && EarliestFrom(s, cuts, k) && k > 0 && cuts != [] && a < cuts[0]
    requires FirstStart(s, k, cuts[0], Opt(s, k, cuts[0]), a)
    ensures Ascending([a] + cuts, |s|) && EarliestFrom(s, [a] + cuts, k - 1)
  {
    hide FirstStart;
    var path, level := [a] + cuts, k - 1;
    forall i | 0 < i < |path|
      ensures StartsFirst(s, path, level, i)
    {
      if i > 1 {
        assert StartsFirst(s, cuts, k, i - 1);
      }
    }
  }

  /** Among equally cheap partitions, the last cut in which another one differs comes earlier. */
  lemma {:induction false} TiesGoEarly(s: seq<Block>, cuts: seq<nat>, other: seq<nat>, k: nat, e: nat) returns (i: nat)
    requires Positive(s) && e <= |s| && IsPartition(cuts, k, e, |s|) && IsPartition(other, k, e, |s|)
    requires EarliestFrom(s, cuts, 0) && Opt(s, k, e) == Fin(PathCost(s, cuts))
    requires PathCost(s, other) == PathCost(s, cuts) && other != cuts
    ensures i <= k && cuts[i] < other[i] && cuts[i + 1..] == other[i + 1..]
    decreases k
  {
    hide SegCost, PathCost, Opt, FirstStart;
    PositiveSteps(cuts, other, k);
    var b, c := cuts[k - 1], other[k - 1];
    LastSegment(s, cuts, k, e);
    LastSegment(s, other, k, e);
    assert StartsFirst(s, cuts, 0, k);
    if b == c {
      forall j | 0 < j < k
        ensures StartsFirst(s, cuts[..k], 0, j)
      {
        assert StartsFirst(s, cuts, 0, j);
      }
      i := TiesGoEarly(s, cuts[..k], other[..k], k - 1, b);
      assert cuts[i + 1..] == cuts[..k][i + 1..] + [e] && other[i + 1..] == other[..k][i + 1..] + [e];
    } else {
      if c < b {
        EarlierCostsMore(s, k, e, b, c);
      }
      i := k - 1;
      assert cuts[k..] == [e] && other[k..] == [e];
    }
  }

  lemma PositiveSteps(cuts: seq<nat>, other: seq<nat>, k: nat)
    requires |cuts| == |other| == k + 1 && cuts[0] == other[0] && cuts != other
    ensures k > 0
  {
  }

  /** What the last segment of a partition adds to the cost of the others, which is no less than the optimum. */
  lemma LastSegment(s: seq<Block>, cuts: seq<nat>, k: nat, e: nat)
    requires Positive(s) && e <= |s| && IsPartition(cuts, k, e, |s|) && k > 0
    ensures cuts[k - 1] < e && IsPartition(cuts[..k], k - 1, cuts[k - 1], |s|) && cuts == cuts[..k] + [e]
    ensures PathCost(s, cuts) == PathCost(s, cuts[..k]) + SegCost(s, cuts[k - 1], e)
    ensures Opt(s, k - 1, cuts[k - 1]).Fin? && Opt(s, k - 1, cuts[k - 1]).cost <= PathCost(s, cuts[..k])
    ensures Opt(s, k, e) == Fin(PathCost(s, cuts)) ==>
              Opt(s, k - 1, cuts[k - 1]) == Fin(PathCost(s, cuts[..k]))
  {
    hide SegCost;
    var b := cuts[k - 1];
    assert b < cuts[k - 1 + 1];
    assert IsPartition(cuts[..k], k - 1, b, |s|);
    OptIsLowerBound(s, cuts[..k], k - 1, b);
    OptToBelow(s, k, e, e, b);
  }

  lemma EarlierCostsMore(s: seq<Block>, k: nat, e: nat, b: nat, c: nat)
    requires Positive(s) && c < b < e <= |s| && k > 0 && Opt(s, k - 1, c).Fin? && Opt(s, k, e).Fin?
    requires FirstStart(s, k, e, Opt(s, k, e), b)
    ensures Opt(s, k, e).cost < Opt(s, k - 1, c).cost + SegCost(s, c, e)
  {
    hide SegCost, Opt;
  }

  /** The parent walk of reduced_fits; it never meets a missing parent. */
  method Walk(s: seq<Block>, dp: seq<seq<Cell>>, parent: seq<seq<int>>, k: nat) returns (cuts: seq<nat>)
    requires Positive(s) && k <= |s| && RowsOk(s, dp, parent, k) && Opt(s, k, |s|).Fin?
    ensures IsPartition(cuts, k, |s|, |s|) && PathCost(s, cuts) == Opt(s, k, |s|).cost
    ensures EarliestFrom(s, cuts, 0)
  {
    var cursor, end := k, |s|;
    cuts := [end];
    while cursor != 0
      invariant 0 <= cursor <= k && end <= |s|
      invariant |cuts| == k - cursor + 1 && cuts[0] == end && cuts[|cuts| - 1] == |s| && Ascending(cuts, |s|)
      invariant Opt(s, cursor, end).Fin? && Opt(s, cursor, end).cost + PathCost(s, cuts) == Opt(s, k, |s|).cost
      invariant EarliestFrom(s, cuts, cursor)
    {
      assert CellOk(s, cursor, end, dp[cursor][end], parent[cursor][end]);
      var start := parent[cursor][end];
      assert start >= 0;  // the source raises an error here
      PathPrepend(s, start, cuts);
      EarliestPrepend(s, start, cuts, cursor);
      cuts := [start] + cuts;
      end := start;
      cursor := cursor - 1;
    }
  }

  /** The merged blocks of a partition. */
  ghost function Groups(s: seq<Block>, cuts: seq<nat>): (r: seq<Block>)
    requires Ascending(cuts, |s|)
    ensures cuts != [] ==> |r| == |cuts| - 1
    ensures forall i | 0 <= i < |cuts| - 1 :: r[i] == Merged(s[cuts[i]..cuts[i + 1]])
  {
    if |cuts| <= 1 then [] else Groups(s, cuts[..|cuts| - 1]) + [Merged(s[cuts[|cuts| - 2]..cuts[|cuts| - 1]])]
  }

  /** The best fit with a given number of steps. */
  datatype Fit = Fit(cost: real, groups: seq<Block>)

  /**
   `fit` is a cheapest coarsening of the blocks into `k` segments, the one with the earliest cuts seen from the end,
   and its groups are those segments merged.
   */
  ghost predicate IsBestFit(s: seq<Block>, k: nat, fit: Fit)
    requires Positive(s)
  {
    && (exists cuts :: BestCuts(s, k, fit, cuts) && EarliestFrom(s, cuts, 0))
    && (forall cuts | IsPartition(cuts, k, |s|, |s|) :: fit.cost <= PathCost(s, cuts))
  }

  ghost predicate BestCuts(s: seq<Block>, k: nat, fit: Fit, cuts: seq<nat>)
    requires Positive(s)
  {
    IsPartition(cuts, k, |s|, |s|) && fit.cost == PathCost(s, cuts) && fit.groups == Groups(s, cuts)
  }

  /** Any number of segments up to the number of blocks has a partition. */
  lemma {:induction false} OptIsFinite(s: seq<Block>, k: nat, e: nat)
    requires Positive(s) && e <= |s| && k <= e && (k == 0 ==> e == 0)
    ensures Opt(s, k, e).Fin?
    decreases k
  {
    if k > 1 {
      OptIsFinite(s, k - 1, k - 1);
      OptToBelow(s, k, e, e, k - 1);
    } else if k == 1 {
      OptToBelow(s, 1, e, e, 0);
    }
  }

  method GroupsOf(s: seq<Block>, cuts: seq<nat>) returns (groups: seq<Block>)
    requires Ascending(cuts, |s|) && cuts != []
    ensures groups == Groups(s, cuts)
  {
    groups := [];
    var i := 0;
    assert cuts[..1] == [cuts[0]];
    while i < |cuts| - 1
      invariant 0 <= i < |cuts| && Ascending(cuts[..i + 1], |s|) && groups == Groups(s, cuts[..i + 1])
    {
      groups := groups + [Merged(s[cuts[i]..cuts[i + 1]])];
      assert cuts[..i + 2][..i + 1] == cuts[..i + 1];
      i := i + 1;
    }
    assert cuts[..i + 1] == cuts;
  }

  /** reduced_fits: the best coarsening of the blocks for every number of steps. */
  method ReducedFits(s: seq<Block>, maxSteps: nat) returns (results: map<nat, Fit>)
    requires Positive(s)
    ensures forall k: nat :: k in results <==> 1 <= k <= maxSteps && k <= |s|
    ensures forall k <- results :: IsBestFit(s, k, results[k])
    ensures Consistent(s) ==> forall k <- results | k + 1 in results :: results[k + 1].cost <= results[k].cost
  {
    hide IsBestFit, RowsOk, IsPartition, Groups, PathCost, Consistent, Opt;
    var most := if maxSteps < |s| then maxSteps else |s|;
    var dp, parent := FillTable(s, most);
    results := map[];
    var steps := 1;
    while steps <= most
      invariant 1 <= steps <= most + 1
      invariant forall k: nat :: k in results <==> 1 <= k < steps
      invariant forall k <- results :: IsBestFit(s, k, results[k])
      invariant forall k <- results :: Opt(s, k, |s|) == Fin(results[k].cost)
    {
      OptIsFinite(s, steps, |s|);
      var cuts := Walk(s, dp, parent, steps);
      var groups := GroupsOf(s, cuts);
      CellAt(s, dp, parent, steps);
      var fit := Fit(dp[steps][|s|].cost, groups);
      BestFitFound(s, steps, fit, cuts);
      results := results[steps := fit];
      steps := steps + 1;
    }
    if Consistent(s) {
      forall k <- results | k + 1 in results
        ensures results[k + 1].cost <= results[k].cost
      {
        MoreStepsNeverCostMore(s, k, |s|);
      }
    }
  }

  lemma CellAt(s: seq<Block>, dp: seq<seq<Cell>>, parent: seq<seq<int>>, k: nat)
    requires Positive(s) && k < |dp| && RowsOk(s, dp, parent, |dp| - 1)
    ensures |dp[k]| == |s| + 1 && dp[k][|s|] == Opt(s, k, |s|)
  {
    assert CellOk(s, k, |s|, dp[k][|s|], parent[k][|s|]);
  }

  lemma BestFitFound(s: seq<Block>, k: nat, fit: Fit, cuts: seq<nat>)
    requires Positive(s) && Opt(s, k, |s|).Fin? && fit.cost == Opt(s, k, |s|).cost
    requires IsPartition(cuts, k, |s|, |s|) && PathCost(s, cuts) == fit.cost && fit.groups == Groups(s, cuts)
    requires EarliestFrom(s, cuts, 0)
    ensures IsBestFit(s, k, fit)
  {
    assert BestCuts(s, k, fit, cuts);
    forall other | IsPartition(other, k, |s|, |s|)
      ensures fit.cost <= PathCost(s, other)
    {
      OptIsLowerBound(s, other, k, |s|);
    }
  }

  // ----- more steps never cost more -----

  /** The squared error of a block's samples about their own mean is not negative. */
  ghost predicate Consistent(s: seq<Block>) {
    forall b <- s :: b.weight > 0.0 && b.weightedY * b.weightedY <= b.weightedY2 * b.weight
  }

  /** Splitting a segment never raises its squared error. */
  lemma SplitLowersSpread(w: real, y: real, y2: real, v: real, x: real, x2: real)
    requires w > 0.0 && v > 0.0
    ensures Spread(w, y, y2) + Spread(v, x, x2) <= Spread(w + v, y + x, y2 + x2)
  {
    var a := MeanSquare(y, w);
    var b := MeanSquare(x, v);
    MeansOverWeights(a, w, y, b, v, x);
  }

  lemma MeansOverWeights(a: real, w: real, y: real, b: real, v: real, x: real)
    requires w > 0.0 && v > 0.0 && y == a * w && x == b * v
    ensures (y + x) * (y + x) / (w + v) <= a * a * w + b * b * v
  {
    SquareIdentity(a, w, b, v);
    ProductNonNegative(w, v);
    ProductNonNegative(w * v, (a - b) * (a - b));
    DivBound((y + x) * (y + x), w + v, a * a * w + b * b * v);
  }

  lemma SquareIdentity(a: real, w: real, b: real, v: real)
    ensures (a * a * w + b * b * v) * (w + v) - (a * w + b * v) * (a * w + b * v) == (w * v) * ((a - b) * (a - b))
    ensures (a - b) * (a - b) >= 0.0
  {
  }

  lemma MeanSquare(y: real, w: real) returns (a: real)
    requires w > 0.0
    ensures y == a * w && y * y / w == a * a * w
  {
    a := y / w;
    assert (a * w) * (a * w) == (a * a * w) * w;
  }

  lemma DivBound(x: real, d: real, q: real)
    requires d > 0.0 && x <= q * d
    ensures x / d <= q
  {
    CancelFactor(x / d, q, d);
  }

  lemma CancelFactor(a: real, b: real, d: real)
    requires d > 0.0 && a * d <= b * d
    ensures a <= b
  {
  }

  lemma {:induction false} SpreadNotNegative(s: seq<Block>)
    requires Consistent(s) && s != []
    ensures SumW(s) > 0.0 && Spread(SumW(s), SumY(s), SumY2(s)) >= 0.0
  {
    hide Spread;
    var n := |s| - 1;
    var b := s[n];
    SingleSpread(b.weight, b.weightedY, b.weightedY2);
    if n == 0 {
      assert s[..0] == [];
    } else {
      SpreadNotNegative(s[..n]);
      SplitLowersSpread(SumW(s[..n]), SumY(s[..n]), SumY2(s[..n]), b.weight, b.weightedY, b.weightedY2);
    }
  }

  lemma SingleSpread(w: real, y: real, y2: real)
    requires w > 0.0 && y * y <= y2 * w
    ensures Spread(w, y, y2) >= 0.0
  {
    DivBound(y * y, w, y2);
  }

  lemma ConsistentIsPositive(s: seq<Block>)
    requires Consistent(s)
    ensures Positive(s)
  {
  }

  /** On consistent data the clamp at zero never acts. */
  lemma SegCostIsSpread(s: seq<Block>, a: nat, b: nat)
    requires Consistent(s) && a < b <= |s|
    ensures Positive(s) && SumW(s[a..b]) > 0.0
    ensures SegCost(s, a, b) == Spread(SumW(s[a..b]), SumY(s[a..b]), SumY2(s[a..b]))
  {
    SpreadNotNegative(s[a..b]);
  }

  /** Splitting a segment never raises its cost. */
  lemma SplitHelps(s: seq<Block>, a: nat, b: nat, c: nat)
    requires Consistent(s) && a < b < c <= |s|
    ensures Positive(s) && SegCost(s, a, b) + SegCost(s, b, c) <= SegCost(s, a, c)
  {
    SegCostIsSpread(s, a, b);
    SegCostIsSpread(s, b, c);
    SegCostIsSpread(s, a, c);
    hide SegCost, Spread;
    assert s[a..c] == s[a..b] + s[b..c];
    SumsAppend(s[a..b], s[b..c]);
    SplitLowersSpread(SumW(s[a..b]), SumY(s[a..b]), SumY2(s[a..b]), SumW(s[b..c]), SumY(s[b..c]), SumY2(s[b..c]));
  }

  /** The start of the last segment of an optimal partition. */
  lemma {:induction false} LastStart(s: seq<Block>, k: nat, e: nat, n: nat) returns (b: nat)
    requires Positive(s) && k > 0 && n <= e <= |s| && OptTo(s, k, e, n).Fin?
    ensures b < n && Opt(s, k - 1, b).Fin? && OptTo(s, k, e, n).cost == Opt(s, k - 1, b).cost + SegCost(s, b, e)
    decreases n
  {
    if OptTo(s, k, e, n) == OptTo(s, k, e, n - 1) {
      b := LastStart(s, k, e, n - 1);
    } else {
      b := n - 1;
    }
  }

  /** The optimal cost never increases with the number of steps. */
  lemma {:induction false} MoreStepsNeverCostMore(s: seq<Block>, k: nat, e: nat)
    requires Consistent(s) && 1 <= k < e <= |s|
    ensures Positive(s) && Opt(s, k, e).Fin? && Opt(s, k + 1, e).Fin? && Opt(s, k + 1, e).cost <= Opt(s, k, e).cost
    decreases k
  {
    ConsistentIsPositive(s);
    hide SegCost;
    OptIsFinite(s, k, e);
    OptIsFinite(s, k, e - 1);
    var b := LastStart(s, k, e, e);
    OptToBelow(s, k + 1, e, e, e - 1);
    if b < e - 1 {
      SplitHelps(s, b, e - 1, e);
      OptToBelow(s, k, e - 1, e - 1, b);
    } else {
      OnlyFirst(s, k, e);
      MoreStepsNeverCostMore(s, k - 1, e - 1);
    }
  }

  lemma OnlyFirst(s: seq<Block>, k: nat, e: nat)
    requires Positive(s) && 1 <= k < e <= |s| && Opt(s, k - 1, e - 1).Fin?
    ensures k >= 2
  {
  }

  // ----- what the costs mean -----

  /** With `y` the weighted mean, the error about it is the spread, and about any other value it is no less. */
  lemma MeanIsBest(w: real, y: real, y2: real, z: real)
    requires w > 0.0
    ensures ErrOfSums(w, y, y2, y / w) == Spread(w, y, y2) <= ErrOfSums(w, y, y2, z)
  {
    hide ErrOfSums;
    var a := MeanSquare(y, w);
    CancelFactor(a, y / w, w);
    CancelFactor(y / w, a, w);
    AboutMean(w, a, y2, z);
    assert Spread(w, y, y2) == y2 - a * a * w;
  }

  lemma AboutMean(w: real, a: real, y2: real, z: real)
    requires w > 0.0
    ensures ErrOfSums(w, a * w, y2, a) == y2 - a * a * w <= ErrOfSums(w, a * w, y2, z)
  {
    SquareAbout(w, a, z);
    ProductNonNegative(w, (z - a) * (z - a));
    assert a * (a * w) == a * a * w;
  }

  lemma SquareAbout(w: real, a: real, z: real)
    ensures (z * z * w - 2.0 * z * (a * w)) - (a * a * w - 2.0 * a * (a * w)) == w * ((z - a) * (z - a))
    ensures (z - a) * (z - a) >= 0.0
  {
  }

  /** A segment's cost is the squared error of its blocks about their mean, the least that one value can have. */
  lemma SegCostIsSquaredError(s: seq<Block>, a: nat, b: nat, z: real)
    requires Consistent(s) && a < b <= |s|
    ensures Positive(s) && Merged(s[a..b]).weight > 0.0
    ensures SegCost(s, a, b) == Cost(s[a..b], Constant(b - a, Merged(s[a..b]).Mean()))
    ensures SegCost(s, a, b) <= Cost(s[a..b], Constant(b - a, z))
  {
    hide ErrOfSums, Spread, SegCost;
    var seg := s[a..b];
    SegCostIsSpread(s, a, b);
    MeanIsBest(SumW(seg), SumY(seg), SumY2(seg), z);
    CostOfConstant(seg, SumY(seg) / SumW(seg));
    CostOfConstant(seg, z);
  }

  /** The assignment that is constant on every segment. */
  ghost function StepFit(cuts: seq<nat>, values: seq<real>): (z: seq<real>)
    requires cuts != [] && cuts[0] == 0 && Ascending(cuts, cuts[|cuts| - 1]) && |values| == |cuts| - 1
    ensures |z| == cuts[|cuts| - 1]
  {
    var k := |cuts| - 1;
    if k == 0 then [] else
    AscendingInit(cuts);
    StepFit(cuts[..k], values[..k - 1]) + Constant(cuts[k] - cuts[k - 1], values[k - 1])
  }

  lemma {:induction false} AscendingInit(cuts: seq<nat>)
    requires |cuts| > 1 && Ascending(cuts, cuts[|cuts| - 1])
    ensures Ascending(cuts[..|cuts| - 1], cuts[|cuts| - 2])
  {
    var k := |cuts| - 1;
    if k > 1 {
      forall i | 0 <= i < k
        ensures cuts[i] <= cuts[k - 1]
      {
        AscendingFrom(cuts, i, k - 1);
      }
    }
  }

  lemma {:induction false} AscendingFrom(cuts: seq<nat>, i: nat, j: nat)
    requires i <= j < |cuts| && forall k | 0 <= k < |cuts| - 1 :: cuts[k] < cuts[k + 1]
    ensures cuts[i] <= cuts[j]
  {
    if i < j {
      AscendingFrom(cuts, i, j - 1);
      assert cuts[j - 1] < cuts[j - 1 + 1];
    }
  }

  /** The means of the segments. */
  ghost function SegmentMeans(s: seq<Block>, cuts: seq<nat>): (values: seq<real>)
    requires Positive(s) && cuts != [] && Ascending(cuts, |s|)
    ensures |values| == |cuts| - 1
  {
    var k := |cuts| - 1;
    if k == 0 then [] else
    SegmentWeight(s, cuts[k - 1], cuts[k]);
    SegmentMeans(s, cuts[..k]) + [Merged(s[cuts[k - 1]..cuts[k]]).Mean()]
  }

  lemma EndsThere(s: seq<Block>, cuts: seq<nat>)
    requires cuts != [] && Ascending(cuts, |s|)
    ensures Ascending(cuts, cuts[|cuts| - 1]) && cuts[|cuts| - 1] <= |s|
  {
    forall i | 0 <= i < |cuts|
      ensures cuts[i] <= cuts[|cuts| - 1]
    {
      AscendingFrom(cuts, i, |cuts| - 1);
    }
  }

  /** The cost of a partition is the least squared error of an assignment constant on its segments. */
  lemma {:induction false} PathIsLeastSquares(s: seq<Block>, cuts: seq<nat>, values: seq<real>)
    requires Consistent(s) && cuts != [] && cuts[0] == 0 && Ascending(cuts, |s|) && |values| == |cuts| - 1
    ensures Positive(s) && Ascending(cuts, cuts[|cuts| - 1]) && cuts[|cuts| - 1] <= |s|
    ensures PathCost(s, cuts) <= Cost(s[..cuts[|cuts| - 1]], StepFit(cuts, values))
    ensures values == SegmentMeans(s, cuts) ==> PathCost(s, cuts) == Cost(s[..cuts[|cuts| - 1]], StepFit(cuts, values))
  {
    hide SegCost, Merged;
    ConsistentIsPositive(s);
    EndsThere(s, cuts);
    var k := |cuts| - 1;
    if k > 0 {
      var a, b := cuts[k - 1], cuts[k];
      PathIsLeastSquares(s, cuts[..k], values[..k - 1]);
      SegCostIsSquaredError(s, a, b, values[k - 1]);
      assert s[..b] == s[..a] + s[a..b];
      CostAppend(s[..a], s[a..b], StepFit(cuts[..k], values[..k - 1]), Constant(b - a, values[k - 1]));
    }
  }

  /**
   The best fit is a least-squares statement: no assignment with `k` constant runs has a smaller squared error
   over the blocks, and the means of the fitted groups attain it.
   */
  lemma BestFitIsLeastSquares(s: seq<Block>, k: nat, fit: Fit, cuts: seq<nat>, values: seq<real>)
    requires Consistent(s) && Positive(s) && IsBestFit(s, k, fit) && IsPartition(cuts, k, |s|, |s|) && |values| == k
    ensures fit.cost <= Cost(s, StepFit(cuts, values))
    ensures BestCuts(s, k, fit, cuts) ==> fit.cost == Cost(s, StepFit(cuts, SegmentMeans(s, cuts)))
  {
    hide StepFit, SegmentMeans, PathCost;
    PathIsLeastSquares(s, cuts, values);
    PathIsLeastSquares(s, cuts, SegmentMeans(s, cuts));
    assert s[..|s|] == s;
  }

  // ----- where consistent blocks come from -----

  /** One sample: future invalidations `y` with weight `w`. */
  function Sample(age: int, y: real, w: real): Block {
    Block(age, age, w, y * w, y * y * w, 1)
  }

  function Samples(age: int, rows: seq<(real, real)>): (s: seq<Block>)
    ensures |s| == |rows|
  {
    seq(|rows|, i requires 0 <= i < |rows| => Sample(age, rows[i].0, rows[i].1))
  }

  lemma SampleIsConsistent(age: int, y: real, w: real)
    requires w > 0.0
    ensures var b := Sample(age, y, w); b.weightedY * b.weightedY <= b.weightedY2 * b.weight
  {
    assert (y * w) * (y * w) == (y * y * w) * w;
  }

  /** The point that load_points makes of the samples of one age is consistent. */
  lemma PointIsConsistent(age: int, rows: seq<(real, real)>)
    requires rows != [] && forall i | 0 <= i < |rows| :: rows[i].1 > 0.0
    ensures Consistent([Merged(Samples(age, rows))])
  {
    forall i | 0 <= i < |rows|
      ensures var b := Samples(age, rows)[i]; b.weight > 0.0 && b.weightedY * b.weightedY <= b.weightedY2 * b.weight
    {
      SampleIsConsistent(age, rows[i].0, rows[i].1);
    }
    MergedIsConsistent(Samples(age, rows));
  }

  /** Merging consistent blocks gives a consistent block. */
  lemma MergedIsConsistent(s: seq<Block>)
    requires Consistent(s) && s != []
    ensures Consistent([Merged(s)])
  {
    SpreadNotNegative(s);
    SquareBound(SumW(s), SumY(s), SumY2(s));
  }

  lemma SquareBound(w: real, y: real, y2: real)
    requires w > 0.0 && Spread(w, y, y2) >= 0.0
    ensures y * y <= y2 * w
  {
    var q := y * y / w;
    assert q * w == y * y;
    ProductNonNegative(w, y2 - q);
    assert w * (y2 - q) == y2 * w - q * w;
  }
}
