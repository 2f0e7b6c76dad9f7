/**
 Integer scores and the exported step table (fit_isotonic.py), and what the kernel reads back from it
 (conv_ftl.c).
 */
module Export {
  import opened Blocks
  import opened Pava
  import opened ReducedFit
  import opened Coarsening
  import opened StepFits
  import opened VictimScore

  // ----- integer scores -----

  function MaxReal(x: real, y: real): real {
    if x < y then y else x
  }

  /** Rounding to the nearest integer, halves to the even neighbour. */
  function Round(x: real): int {
    var f := x.Floor;
    var d := x - f as real;
    if d < 0.5 then f else if d > 0.5 then f + 1 else if f % 2 == 0 then f else f + 1
  }

  /** The result is within half a unit, and even when it is half a unit away. */
  lemma RoundIsNearest(x: real)
    ensures -0.5 <= Round(x) as real - x <= 0.5
    ensures Round(x) as real - x == 0.5 || Round(x) as real - x == -0.5 ==> Round(x) % 2 == 0
  {
  }

  lemma RoundMonotone(x: real, y: real)
    requires x <= y
    ensures Round(x) <= Round(y)
  {
    assert x.Floor <= y.Floor;
  }

  /** How much less future gain than the youngest group the group has. */
  function Ratio(baseline: real, mean: real, epsilon: real): real
    requires epsilon > 0.0
  {
    (MaxReal(0.0, baseline) + epsilon) / (MaxReal(0.0, mean) + epsilon)
  }

  function Clamp(maxValue: int, x: int): int {
    if maxValue < (if x < 1 then 1 else x) then maxValue else if x < 1 then 1 else x
  }

  /** The score of a group taken by itself. */
  function OwnScore(groups: seq<Block>, k: nat, epsilon: real, maxValue: int): int
    requires Positive(groups) && k < |groups| && epsilon > 0.0
  {
    Clamp(maxValue, Round(Ratio(groups[0].Mean(), groups[k].Mean(), epsilon)))
  }

  lemma RatioFalls(baseline: real, a: real, b: real, epsilon: real)
    requires epsilon > 0.0 && a >= b
    ensures Ratio(baseline, a, epsilon) <= Ratio(baseline, b, epsilon)
  {
    QuotientFalls(MaxReal(0.0, baseline) + epsilon, MaxReal(0.0, a) + epsilon, MaxReal(0.0, b) + epsilon);
  }

  lemma QuotientFalls(x: real, a: real, b: real)
    requires x > 0.0 && a >= b > 0.0
    ensures x / a <= x / b
  {
    var q, r := x / a, x / b;
    assert q * a == x && r * b == x;
    ProductNonNegative(r, a - b);
    assert (r - q) * a == r * (a - b);
    NonNegativeFactor(r - q, a);
  }

  lemma NonNegativeFactor(x: real, y: real)
    requires y > 0.0 && x * y >= 0.0
    ensures x >= 0.0
  {
  }

  lemma RatioOfBaseline(baseline: real, epsilon: real)
    requires epsilon > 0.0
    ensures Ratio(baseline, baseline, epsilon) == 1.0
  {
    SelfQuotient(MaxReal(0.0, baseline) + epsilon);
  }

  lemma SelfQuotient(x: real)
    requires x > 0.0
    ensures x / x == 1.0
  {
  }

  /** Each value is the largest score of the groups so far. */
  ghost predicate RunningMax(values: seq<int>, groups: seq<Block>, epsilon: real, maxValue: int)
    requires Positive(groups) && |values| <= |groups| && epsilon > 0.0
  {
    forall k | 0 <= k < |values| :: LargestSoFar(values[k], groups, k, epsilon, maxValue)
  }

  ghost predicate LargestSoFar(value: int, groups: seq<Block>, k: nat, epsilon: real, maxValue: int)
    requires Positive(groups) && k < |groups| && epsilon > 0.0
  {
    && (exists j | 0 <= j <= k :: value == OwnScore(groups, j, epsilon, maxValue))
    && (forall j | 0 <= j <= k :: OwnScore(groups, j, epsilon, maxValue) <= value)
  }

  ghost predicate NonDecreasing(v: seq<int>) {
    forall i, j | 0 <= i <= j < |v| :: v[i] <= v[j]
  }

  /** The youngest group always scores 1. */
  lemma FirstScore(groups: seq<Block>, epsilon: real, maxValue: int)
    requires Positive(groups) && groups != [] && epsilon > 0.0 && maxValue >= 1
    ensures OwnScore(groups, 0, epsilon, maxValue) == 1
  {
    RatioOfBaseline(groups[0].Mean(), epsilon);
  }

  /**
   `score` is the integer from 1 to `maxValue` nearest to the ratio of the two mean gains, both taken as no less
   than 0 and raised by `epsilon`; halfway between two it is the even one.
   */
  ghost predicate ScoresGain(mean0: real, mean: real, epsilon: real, maxValue: int, score: int)
    requires epsilon > 0.0
  {
    var ratio := ((if mean0 > 0.0 then mean0 else 0.0) + epsilon) / ((if mean > 0.0 then mean else 0.0) + epsilon);
    && 1 <= score <= maxValue
    && (score > 1 ==> ratio >= score as real - 0.5 && (ratio == score as real - 0.5 ==> score % 2 == 0))
    && (score < maxValue ==> ratio <= score as real + 0.5 && (ratio == score as real + 0.5 ==> score % 2 == 0))
  }

  lemma ScoreIsUnique(mean0: real, mean: real, epsilon: real, maxValue: int, a: int, b: int)
    requires epsilon > 0.0
    requires ScoresGain(mean0, mean, epsilon, maxValue, a) && ScoresGain(mean0, mean, epsilon, maxValue, b)
    ensures a == b
  {
  }

  /** The score of a group taken by itself is that integer. */
  lemma OwnScoreExactly(groups: seq<Block>, k: nat, epsilon: real, maxValue: int)
    requires Positive(groups) && k < |groups| && epsilon > 0.0 && maxValue >= 1
    ensures ScoresGain(groups[0].Mean(), groups[k].Mean(), epsilon, maxValue,
                       OwnScore(groups, k, epsilon, maxValue))
  {
    hide Round;
    RoundIsNearest(Ratio(groups[0].Mean(), groups[k].Mean(), epsilon));
  }

  /** Each value is the largest of the scores so far; on falling groups it is the group's own. */
  ghost predicate ScoredByGain(values: seq<int>, groups: seq<Block>, epsilon: real, maxValue: int)
    requires Positive(groups) && groups != [] && |values| == |groups| && epsilon > 0.0
  {
    && (forall k | 0 <= k < |values| ::
          exists j | 0 <= j <= k :: ScoresGain(groups[0].Mean(), groups[j].Mean(), epsilon, maxValue, values[k]))
    && (forall k, j, v | 0 <= j <= k < |values|
                         && ScoresGain(groups[0].Mean(), groups[j].Mean(), epsilon, maxValue, v) :: v <= values[k])
    && (Falls(groups) ==> forall k | 0 <= k < |values| ::
                            ScoresGain(groups[0].Mean(), groups[k].Mean(), epsilon, maxValue, values[k]))
  }

  lemma ScoresExactly(values: seq<int>, groups: seq<Block>, epsilon: real, maxValue: int)
    requires Positive(groups) && groups != [] && |values| == |groups| && epsilon > 0.0 && maxValue >= 1
    requires RunningMax(values, groups, epsilon, maxValue)
    ensures ScoredByGain(values, groups, epsilon, maxValue)
  {
    hide OwnScore, ScoresGain;
    forall k | 0 <= k < |values|
      ensures exists j | 0 <= j <= k :: ScoresGain(groups[0].Mean(), groups[j].Mean(), epsilon, maxValue, values[k])
      ensures Falls(groups) ==> ScoresGain(groups[0].Mean(), groups[k].Mean(), epsilon, maxValue, values[k])
    {
      assert LargestSoFar(values[k], groups, k, epsilon, maxValue);
      var j :| 0 <= j <= k && values[k] == OwnScore(groups, j, epsilon, maxValue);
      OwnScoreExactly(groups, j, epsilon, maxValue);
      if Falls(groups) {
        FallingFitScoresItself(values, groups, epsilon, maxValue, k);
        OwnScoreExactly(groups, k, epsilon, maxValue);
      }
    }
    forall k, j, v | 0 <= j <= k < |values|
                     && ScoresGain(groups[0].Mean(), groups[j].Mean(), epsilon, maxValue, v)
      ensures v <= values[k]
    {
      assert LargestSoFar(values[k], groups, k, epsilon, maxValue);
      OwnScoreExactly(groups, j, epsilon, maxValue);
      ScoreIsUnique(groups[0].Mean(), groups[j].Mean(), epsilon, maxValue, v, OwnScore(groups, j, epsilon, maxValue));
    }
  }

  /** scores_from_future_gain */
  method ScoresFromFutureGain(groups: seq<Block>, epsilon: real, maxValue: int) returns (values: seq<int>)
    requires Positive(groups) && groups != [] && epsilon > 0.0 && maxValue >= 1
    ensures |values| == |groups| && values[0] == 1
    ensures RunningMax(values, groups, epsilon, maxValue)
    ensures ScoredByGain(values, groups, epsilon, maxValue)
  {
    hide OwnScore, Clamp, Round, Ratio, ScoredByGain;
    var baseline := MaxReal(0.0, groups[0].Mean());
    values := [];
    var previous := 1;
    FirstScore(groups, epsilon, maxValue);
    var i := 0;
    while i < |groups|
      invariant 0 <= i <= |groups| && |values| == i
      invariant RunningMax(values, groups, epsilon, maxValue)
      invariant i == 0 ==> previous == 1
      invariant i > 0 ==> values[0] == 1 && previous == values[i - 1]
    {
      var ratio := (baseline + epsilon) / (MaxReal(0.0, groups[i].Mean()) + epsilon);
      var rounded := Round(ratio);
      var atLeastOne := if rounded < 1 then 1 else rounded;
      var value := if atLeastOne < maxValue then atLeastOne else maxValue;
      OwnScoreIs(groups, i, epsilon, maxValue, ratio, value);
      value := if value < previous then previous else value;
      values := values + [value];
      previous := value;
      i := i + 1;
    }
    values := values[0 := 1];
    ScoresExactly(values, groups, epsilon, maxValue);
  }

  lemma OwnScoreIs(groups: seq<Block>, k: nat, epsilon: real, maxValue: int, ratio: real, value: int)
    requires Positive(groups) && k < |groups| && epsilon > 0.0
    requires ratio == (MaxReal(0.0, groups[0].Mean()) + epsilon) / (MaxReal(0.0, groups[k].Mean()) + epsilon)
    requires value == var r := Round(ratio);
                      var least := if r < 1 then 1 else r;
                      if least < maxValue then least else maxValue
    ensures value == OwnScore(groups, k, epsilon, maxValue)
  {
  }

  /** The values never decrease and stay within 1 and the largest value. */
  lemma RunningMaxRises(values: seq<int>, groups: seq<Block>, epsilon: real, maxValue: int)
    requires Positive(groups) && |values| <= |groups| && epsilon > 0.0 && maxValue >= 1
    requires RunningMax(values, groups, epsilon, maxValue)
    ensures NonDecreasing(values) && forall v <- values :: 1 <= v <= maxValue
  {
    hide OwnScore;
    forall i, j | 0 <= i <= j < |values|
      ensures values[i] <= values[j]
    {
      assert LargestSoFar(values[i], groups, i, epsilon, maxValue)
          && LargestSoFar(values[j], groups, j, epsilon, maxValue);
    }
    forall i | 0 <= i < |values|
      ensures 1 <= values[i] <= maxValue
    {
      assert LargestSoFar(values[i], groups, i, epsilon, maxValue);
      var j :| 0 <= j <= i && values[i] == OwnScore(groups, j, epsilon, maxValue);
      OwnScoreBounds(groups, j, epsilon, maxValue);
    }
  }

  lemma OwnScoreBounds(groups: seq<Block>, k: nat, epsilon: real, maxValue: int)
    requires Positive(groups) && k < |groups| && epsilon > 0.0 && maxValue >= 1
    ensures 1 <= OwnScore(groups, k, epsilon, maxValue) <= maxValue
  {
  }

  /** For a non-increasing fit the running maximum never acts: every group gets its own score. */
  lemma FallingFitScoresItself(values: seq<int>, groups: seq<Block>, epsilon: real, maxValue: int, k: nat)
    requires Falls(groups) && |values| <= |groups| && epsilon > 0.0 && k < |values|
    requires RunningMax(values, groups, epsilon, maxValue)
    ensures values[k] == OwnScore(groups, k, epsilon, maxValue)
  {
    hide OwnScore;
    assert LargestSoFar(values[k], groups, k, epsilon, maxValue);
    var j :| 0 <= j <= k && values[k] == OwnScore(groups, j, epsilon, maxValue);
    OwnScoresRise(groups, j, k, epsilon, maxValue);
  }

  lemma OwnScoresRise(groups: seq<Block>, j: nat, k: nat, epsilon: real, maxValue: int)
    requires Falls(groups) && j <= k < |groups| && epsilon > 0.0
    ensures OwnScore(groups, j, epsilon, maxValue) <= OwnScore(groups, k, epsilon, maxValue)
  {
    hide Ratio, Round;
    FallingFrom(groups, j, k);
    RatioFalls(groups[0].Mean(), groups[j].Mean(), groups[k].Mean(), epsilon);
    RoundMonotone(Ratio(groups[0].Mean(), groups[j].Mean(), epsilon),
                  Ratio(groups[0].Mean(), groups[k].Mean(), epsilon));
  }

  // ----- the step function of a table -----

  /** The last group that starts at or below an age; the first group when none does. */
  ghost function GroupAt(groups: seq<Block>, age: int): (k: nat)
    requires groups != []
    ensures k < |groups| && (k > 0 ==> groups[k].ageMin <= age)
    ensures forall j | k < j < |groups| :: age < groups[j].ageMin
  {
    var n := |groups| - 1;
    if n == 0 || age >= groups[n].ageMin then n else GroupAt(groups[..n], age)
  }

  lemma GroupAtHolder(groups: seq<Block>, k: nat, age: int)
    requires Ordered(groups) && k < |groups| && Holds(groups[k], age)
    ensures GroupAt(groups, age) == k
  {
    var g := GroupAt(groups, age);
    assert forall j | k < j < |groups| :: groups[k].ageMax < groups[j].ageMin;
    assert groups[k].ageMin <= age <= groups[k].ageMax;
  }

  /** The value of the step function at an age. */
  ghost function ValueAt(groups: seq<Block>, values: seq<int>, age: int): int
    requires |groups| == |values| > 0
  {
    values[GroupAt(groups, age)]
  }

  lemma GroupAtPush(groups: seq<Block>, b: Block, age: int)
    requires groups != []
    ensures GroupAt(groups + [b], age) == if age >= b.ageMin then |groups| else GroupAt(groups, age)
  {
    assert (groups + [b])[..|groups|] == groups;
  }

  /** Only the starting ages matter. */
  lemma {:induction false} GroupAtStarts(g: seq<Block>, h: seq<Block>, age: int)
    requires |g| == |h| > 0 && forall k | 0 <= k < |g| :: g[k].ageMin == h[k].ageMin
    ensures GroupAt(g, age) == GroupAt(h, age)
  {
    var n := |g| - 1;
    if n > 0 {
      GroupAtStarts(g[..n], h[..n], age);
    }
  }

  ghost predicate SameSteps(g: seq<Block>, v: seq<int>, h: seq<Block>, w: seq<int>)
    requires |g| == |v| > 0 && |h| == |w| > 0
  {
    forall age {:trigger ValueAt(g, v, age)} {:trigger ValueAt(h, w, age)} :: ValueAt(g, v, age) == ValueAt(h, w, age)
  }

  /** A group that repeats the last value adds nothing to the step function. */
  lemma RepeatedValue(g: seq<Block>, v: seq<int>, h: seq<Block>, w: seq<int>, b: Block, last: Block)
    requires |g| == |v| > 0 && |h| == |w| > 0 && SameSteps(g, v, h, w)
    requires last.ageMin == h[|h| - 1].ageMin <= b.ageMin
    ensures SameSteps(g + [b], v + [w[|w| - 1]], h[..|h| - 1] + [last], w)
  {
    var n := |h| - 1;
    var t := h[..n] + [last];
    forall age
      ensures ValueAt(g + [b], v + [w[n]], age) == ValueAt(t, w, age)
    {
      GroupAtPush(g, b, age);
      GroupAtStarts(h, t, age);
      assert ValueAt(g, v, age) == ValueAt(h, w, age);
    }
  }

  lemma NewValue(g: seq<Block>, v: seq<int>, h: seq<Block>, w: seq<int>, b: Block, x: int)
    requires |g| == |v| > 0 && |h| == |w| > 0 && SameSteps(g, v, h, w)
    ensures SameSteps(g + [b], v + [x], h + [b], w + [x])
  {
    forall age
      ensures ValueAt(g + [b], v + [x], age) == ValueAt(h + [b], w + [x], age)
    {
      GroupAtPush(g, b, age);
      GroupAtPush(h, b, age);
      assert ValueAt(g, v, age) == ValueAt(h, w, age);
    }
  }

  ghost predicate StrictlyIncreasing(v: seq<int>) {
    forall i, j | 0 <= i < j < |v| :: v[i] < v[j]
  }

  /** No value repeats the one before it. */
  ghost predicate NoRepeats(v: seq<int>) {
    forall i | 0 < i < |v| :: v[i - 1] != v[i]
  }

  /**
   merge_equal_score_steps: the step function of ordered groups is unchanged, and values that never fell
   become strictly increasing.
   */
  method MergeEqualScoreSteps(groups: seq<Block>, values: seq<int>)
    returns (mergedGroups: seq<Block>, mergedValues: seq<int>, ghost segs: seq<seq<Block>>)
    requires |groups| == |values|
    ensures |mergedGroups| == |mergedValues| && Coarsens(mergedGroups, segs, groups)
    ensures NoRepeats(mergedValues) && forall v <- mergedValues :: v in values
    ensures groups != [] ==> mergedGroups != [] && mergedValues[0] == values[0]
    ensures NonDecreasing(values) ==> StrictlyIncreasing(mergedValues)
    ensures groups != [] && Ordered(groups) ==> SameSteps(groups, values, mergedGroups, mergedValues)
  {
    hide Merged, ValueAt, SameSteps, Ordered, Coarsens;
    mergedGroups, mergedValues, segs := [], [], [];
    NothingCoarsens();
    var i := 0;
    while i < |groups|
      invariant 0 <= i <= |groups| && |mergedGroups| == |mergedValues|
      invariant Coarsens(mergedGroups, segs, groups[..i])
      invariant NoRepeats(mergedValues) && forall v <- mergedValues :: v in values
      invariant i == 0 <==> mergedGroups == []
      invariant i > 0 ==> mergedValues[0] == values[0] && mergedValues[|mergedValues| - 1] == values[i - 1]
      invariant NonDecreasing(values) ==> StrictlyIncreasing(mergedValues)
      invariant i > 0 && Ordered(groups) ==> SameSteps(groups[..i], values[..i], mergedGroups, mergedValues)
    {
      var group, value := groups[i], values[i];
      assert groups[..i + 1] == groups[..i] + [group] && values[..i + 1] == values[..i] + [value];
      if mergedValues != [] && value == mergedValues[|mergedValues| - 1] {
        var n := |mergedGroups| - 1;
        ghost var was, runs := mergedGroups, segs;
        mergedGroups := mergedGroups[..n] + [Merged([mergedGroups[n], group])];
        segs := ExtendRun(was, runs, groups[..i], group);
        if Ordered(groups) {
          StartOfLast(was, runs, groups, i);
          RepeatedValue(groups[..i], values[..i], was, mergedValues, group, mergedGroups[n]);
        }
      } else {
        if i > 0 && Ordered(groups) {
          NewValue(groups[..i], values[..i], mergedGroups, mergedValues, group, value);
        }
        segs := StartRun(mergedGroups, segs, groups[..i], group);
        mergedGroups, mergedValues := mergedGroups + [group], mergedValues + [value];
        if i == 0 {
          SameAsItself(mergedGroups, mergedValues);
          assert groups[..1] == mergedGroups && values[..1] == mergedValues;
        }
      }
      i := i + 1;
    }
    assert groups[..i] == groups && values[..i] == values;
  }

  lemma NothingCoarsens()
    ensures Coarsens([], [], [])
  {
  }

  lemma SameAsItself(g: seq<Block>, v: seq<int>)
    requires |g| == |v| > 0
    ensures SameSteps(g, v, g, v)
  {
  }

  lemma StartRun(r: seq<Block>, segs: seq<seq<Block>>, s: seq<Block>, b: Block) returns (runs: seq<seq<Block>>)
    requires Coarsens(r, segs, s)
    ensures Coarsens(r + [b], runs, s + [b])
  {
    SumsOne(b);
    assert Merged([b]) == b;
    CoarsensPush(r, segs, s, [b]);
    runs := segs + [[b]];
  }

  lemma ExtendRun(r: seq<Block>, segs: seq<seq<Block>>, s: seq<Block>, b: Block) returns (runs: seq<seq<Block>>)
    requires Coarsens(r, segs, s) && r != []
    ensures var n := |r| - 1; Coarsens(r[..n] + [Merged([r[n], b])], runs, s + [b])
  {
    hide Merged;
    var n := |r| - 1;
    var head := CoarsensInit(r, segs, s);
    MergeOne(segs[n], b);
    CoarsensPush(r[..n], segs[..n], head, segs[n] + [b]);
    assert s + [b] == head + (segs[n] + [b]);
    runs := segs[..n] + [segs[n] + [b]];
  }

  lemma MergeOne(seg: seq<Block>, b: Block)
    requires seg != []
    ensures Merged([Merged(seg), b]) == Merged(seg + [b])
  {
    SumsOne(b);
    assert Merged([b]) == b;
    MergeTwo(seg, [b]);
  }

  /** The last group of a coarsening starts no later than the next block. */
  lemma StartOfLast(r: seq<Block>, segs: seq<seq<Block>>, groups: seq<Block>, i: nat)
    requires 0 < i < |groups| && Ordered(groups) && Coarsens(r, segs, groups[..i]) && r != []
    ensures Merged([r[|r| - 1], groups[i]]).ageMin == r[|r| - 1].ageMin <= groups[i].ageMin
  {
    var n := |r| - 1;
    var head := CoarsensInit(r, segs, groups[..i]);
    var first := groups[|head|];
    assert groups[..i][|head|] == first;
    assert segs[n][0] == first;
    assert first.ageMin <= first.ageMax < groups[i].ageMin;
  }

  // ----- the exported table -----

  /** The preprocessor checks of conv_ftl.h on a table. */
  ghost predicate PassesChecks(t: Profile) {
    && t.Steps? && 1 <= |t.values| <= 7 && |t.boundaries| == |t.values| - 1
    && t.values[0] == 1
    && (t.boundaries != [] ==> t.boundaries[0] != 0)
    && (forall i | 1 <= i < |t.boundaries| :: t.boundaries[i] > t.boundaries[i - 1])
    && (forall i | 1 <= i < |t.values| :: t.values[i] >= t.values[i - 1])
  }

  predicate Fits64(groups: seq<Block>, values: seq<int>) {
    && (forall i | 0 <= i < |groups| :: 0 <= groups[i].ageMin <= MAX_U64 as int)
    && (forall i | 0 <= i < |values| :: 0 <= values[i] <= MAX_U64 as int)
  }

  /** The table printed by render_header: every group but the first contributes its starting age. */
  function Table(groups: seq<Block>, values: seq<int>): (t: Profile)
    requires |groups| == |values| > 0 && Fits64(groups, values)
    ensures t.Steps? && |t.boundaries| == |groups| - 1 && |t.values| == |values|
    ensures forall i | 0 <= i < |groups| - 1 :: t.boundaries[i] as int == groups[i + 1].ageMin
    ensures forall i | 0 <= i < |values| :: t.values[i] as int == values[i]
  {
    Steps(seq(|groups| - 1, i requires 0 <= i < |groups| - 1 => groups[i + 1].ageMin as uint64),
          seq(|values|, i requires 0 <= i < |values| => values[i] as uint64))
  }

  /** The kernel's lookup in the exported table is the fitted step function. */
  lemma KernelReadsSteps(groups: seq<Block>, values: seq<int>, age: uint64)
    requires |groups| == |values| > 0 && Fits64(groups, values) && Ordered(groups)
    ensures AgeValue(Table(groups, values), age) as int == ValueAt(groups, values, age as int)
  {
    var k := GroupAt(groups, age as int);
    var t := Table(groups, values);
    forall i | 0 <= i < k
      ensures t.boundaries[i] <= age
    {
      assert groups[i + 1].ageMin <= groups[k].ageMin;
    }
    LevelIs(t.boundaries, age, k);
  }

  lemma TablePasses(groups: seq<Block>, values: seq<int>)
    requires 1 <= |groups| == |values| <= 7 && Fits64(groups, values) && Ordered(groups)
    requires values[0] == 1 && StrictlyIncreasing(values)
    ensures PassesChecks(Table(groups, values))
  {
    assert |groups| > 1 ==> 0 <= groups[0].ageMax < groups[1].ageMin;
    assert forall i | 1 <= i < |groups| - 1 :: groups[i].ageMax < groups[i + 1].ageMin;
  }

  // ----- from samples to kernel table -----

  lemma {:induction false} CoarseningPositive(result: seq<Block>, segs: seq<seq<Block>>, s: seq<Block>)
    requires Coarsens(result, segs, s) && Positive(s)
    ensures Positive(result)
  {
    if segs != [] {
      var n := |segs| - 1;
      var head := CoarsensInit(result, segs, s);
      assert forall b <- head :: b in s;
      assert forall b <- segs[n] :: b in s;
      CoarseningPositive(result[..n], segs[..n], head);
      SumWPositive(segs[n]);
    }
  }

  lemma PavaCoarsens(fitted: seq<Block>, segs: seq<seq<Block>>)
    requires FittedTo(fitted, segs)
    ensures Coarsens(fitted, segs, Flatten(segs))
  {
    assert forall k | 0 <= k < |segs| :: SegmentOk(fitted[k], segs[k]);
  }

  ghost predicate AgesUpTo(s: seq<Block>, max: int) {
    forall i | 0 <= i < |s| :: s[i].ageMax <= max
  }

  lemma EndsBound(r: seq<Block>, s: seq<Block>, max: int)
    requires EndsWithin(r, s) && AgesUpTo(s, max)
    ensures AgesUpTo(r, max)
  {
  }

  /** One stage of coarsening keeps everything the later stages rely on. */
  lemma StageKeeps(result: seq<Block>, segs: seq<seq<Block>>, s: seq<Block>, points: seq<Block>, max: int)
    requires Coarsens(result, segs, s) && Positive(s) && Ordered(s) && Covers(s, points) && AgesUpTo(s, max)
    ensures Positive(result) && Ordered(result) && Covers(result, points) && AgesUpTo(result, max)
    ensures s != [] ==> result != []
  {
    hide Covers, Ordered, EndsWithin, AgesUpTo;
    CoarseningPositive(result, segs, s);
    CoarseningKeepsAges(result, segs, s);
    CoversTransitive(result, s, points);
    EndsBound(result, s, max);
    NothingFlattens();
  }

  /** What holds of the fit with `k` steps chosen from the best coarsenings of the pooled blocks. */
  lemma ChosenFit(points: seq<Block>, blocks: seq<Block>, k: nat, fit: Fit)
    requires Positive(blocks) && Falls(blocks) && Ordered(blocks) && Covers(blocks, points)
    requires k > 0 && IsBestFit(blocks, k, fit) && AgesUpTo(blocks, MAX_U64 as int)
    ensures |fit.groups| == k && Positive(fit.groups) && Falls(fit.groups) && Ordered(fit.groups)
    ensures Covers(fit.groups, points) && AgesUpTo(fit.groups, MAX_U64 as int)
  {
    hide Merged, Groups, PathCost, Covers, Ordered, MeansFall;
    var cuts :| BestCuts(blocks, k, fit, cuts);
    var segs := GroupsCoarsen(blocks, cuts);
    assert blocks[..|blocks|] == blocks;
    CoarseningFalls(blocks, cuts, k);
    CoarseningKeepsAges(fit.groups, segs, blocks);
    CoversTransitive(fit.groups, blocks, points);
    EndsBound(fit.groups, blocks, MAX_U64 as int);
  }

  /** The chosen groups, their scores, and the table the kernel reads. */
  ghost predicate Exported(points: seq<Block>, groups: seq<Block>, values: seq<int>, table: Profile)
    requires |values| == |groups|
  {
    && PassesChecks(table)
    && StrictlyIncreasing(seq(|table.values|, i requires 0 <= i < |table.values| => table.values[i] as int))
    && (forall i, age | 0 <= i < |points| && Holds(points[i], age) && 0 <= age <= MAX_U64 as int ::
          exists k | 0 <= k < |groups| :: Holds(groups[k], age) && AgeValue(table, age as uint64) as int == values[k])
  }

  /** Merging the equal scores and exporting the table: the kernel reads every sampled age's own score. */
  lemma ExportIsFaithful(points: seq<Block>, groups: seq<Block>, values: seq<int>, merged: seq<Block>, kept: seq<int>)
    requires |groups| == |values| > 0 && Ordered(groups) && Covers(groups, points)
    requires 1 <= |merged| == |kept| <= 7 && Ordered(merged) && Fits64(merged, kept) && kept[0] == 1
          && StrictlyIncreasing(kept)
    requires SameSteps(groups, values, merged, kept)
    ensures Exported(points, groups, values, Table(merged, kept))
  {
    hide PassesChecks, Ordered;
    var table := Table(merged, kept);
    TablePasses(merged, kept);
    forall i, age | 0 <= i < |points| && Holds(points[i], age) && 0 <= age <= MAX_U64 as int
      ensures exists k | 0 <= k < |groups| ::
                Holds(groups[k], age) && AgeValue(table, age as uint64) as int == values[k]
    {
      var k :| 0 <= k < |groups| && Holds(groups[k], age);
      GroupAtHolder(groups, k, age);
      KernelReadsSteps(merged, kept, age as uint64);
      assert ValueAt(groups, values, age) == ValueAt(merged, kept, age);
    }
  }

  lemma CoversItself(s: seq<Block>)
    ensures Covers(s, s)
  {
  }

  lemma TableFits(groups: seq<Block>, values: seq<int>)
    requires Ordered(groups) && AgesUpTo(groups, MAX_U64 as int)
    requires forall v <- values :: 1 <= v <= MAX_U64 as int
    ensures Fits64(groups, values)
  {
    assert forall i | 0 <= i < |values| :: values[i] in values;
  }

  /** The pooled blocks of the binned points. */
  ghost predicate PooledFrom(points: seq<Block>, maxBins: nat, bins: seq<seq<Block>>, blocks: seq<Block>,
      segs: seq<seq<Block>>) {
    && |Flatten(segs)| <= maxBins && Coarsens(Flatten(segs), bins, points)
    && BinnedEvenly(points, maxBins, bins, Flatten(segs))
    && FittedTo(blocks, segs) && Falls(blocks)
  }

  /** prebin followed by pava_decreasing */
  method PoolPoints(points: seq<Block>, maxBins: nat)
    returns (blocks: seq<Block>, ghost bins: seq<seq<Block>>, ghost segs: seq<seq<Block>>)
    requires points != [] && Positive(points) && Ordered(points) && AgesUpTo(points, MAX_U64 as int) && 0 < maxBins
    ensures PooledFrom(points, maxBins, bins, blocks, segs)
    ensures Consistent(points) ==> Consistent(blocks)
    ensures blocks != [] && Positive(blocks) && Ordered(blocks) && Covers(blocks, points)
          && AgesUpTo(blocks, MAX_U64 as int)
  {
    hide Merged, Covers, Ordered, AgesUpTo, MeansFall, FittedTo, Coarsens, Flatten, Consistent;
    var binned;
    binned, bins := Prebin(points, maxBins);
    CoversItself(points);
    StageKeeps(binned, bins, points, points, MAX_U64 as int);
    blocks, segs := PavaDecreasing(binned);
    PavaCoarsens(blocks, segs);
    StageKeeps(blocks, segs, binned, points, MAX_U64 as int);
    if Consistent(points) {
      CoarseningKeepsConsistency(binned, bins, points);
      CoarseningKeepsConsistency(blocks, segs, binned);
    }
  }

  /**
   The whole fitter, whichever number of steps choose_fit prefers: the groups are a best coarsening of the
   pooled points, and a best non-increasing fit with that many steps to the binned ones; each group has its own
   score, and the exported table gives every sampled age its group's score.
   */
  method FitTable(points: seq<Block>, maxBins: nat, maxSteps: nat, epsilon: real, maxValue: int)
    returns (table: Profile, ghost blocks: seq<Block>, ghost bins: seq<seq<Block>>, ghost segs: seq<seq<Block>>,
             ghost fit: Fit, ghost values: seq<int>)
    requires points != [] && Positive(points) && Ordered(points) && AgesUpTo(points, MAX_U64 as int)
    requires 0 < maxBins && 1 <= maxSteps <= 7 && epsilon > 0.0 && 1 <= maxValue <= MAX_U64 as int
    ensures PooledFrom(points, maxBins, bins, blocks, segs)
    ensures Consistent(points) ==> Consistent(blocks)
    ensures Positive(blocks) && 1 <= |fit.groups| <= maxSteps && IsBestFit(blocks, |fit.groups|, fit)
    ensures Consistent(points) ==> LeastSteps(Flatten(segs), |fit.groups|, fit.cost)
    ensures Falls(fit.groups) && |values| == |fit.groups|
    ensures forall k | 0 <= k < |values| :: values[k] == OwnScore(fit.groups, k, epsilon, maxValue)
    ensures fit.groups[0].weight > 0.0 && forall k | 0 <= k < |values| ::
              fit.groups[k].weight > 0.0
              && ScoresGain(fit.groups[0].Mean(), fit.groups[k].Mean(), epsilon, maxValue, values[k])
    ensures PassesChecks(table)
    ensures Exported(points, fit.groups, values, table)
  {
    hide Merged, Covers, Ordered, AgesUpTo, MeansFall, PooledFrom, IsBestFit, OwnScore, Exported, RunningMax,
        SameSteps, Coarsens, Fits64, PassesChecks, Consistent, LeastSteps, FittedTo, Flatten, ScoresGain, BinnedEvenly;
    var pooled;
    pooled, bins, segs := PoolPoints(points, maxBins);
    blocks := pooled;
    PooledFalls(points, maxBins, bins, blocks, segs);
    var fits := ReducedFits(pooled, maxSteps);
    assert 1 in fits;
    var steps :| steps in fits;  // choose_fit
    var chosen := fits[steps];
    fit := chosen;
    ChosenFit(points, blocks, steps, fit);
    if Consistent(points) {
      PoolThenCoarsen(blocks, segs, steps, fit);
    }
    var scores := ScoresFromFutureGain(chosen.groups, epsilon, maxValue);
    values := scores;
    RunningMaxRises(values, fit.groups, epsilon, maxValue);
    forall k | 0 <= k < |values|
      ensures values[k] == OwnScore(fit.groups, k, epsilon, maxValue)
    {
      FallingFitScoresItself(values, fit.groups, epsilon, maxValue, k);
    }
    var merged, kept;
    ghost var runs;
    merged, kept, runs := MergeEqualScoreSteps(chosen.groups, scores);
    StageKeeps(merged, runs, fit.groups, points, MAX_U64 as int);
    FewerGroups(merged, runs, fit.groups);
    TableFits(merged, kept);
    table := Table(merged, kept);
    ExportIsFaithful(points, fit.groups, values, merged, kept);
    ExportedPasses(points, fit.groups, values, table);
  }

  lemma ExportedPasses(points: seq<Block>, groups: seq<Block>, values: seq<int>, table: Profile)
    requires |values| == |groups| && Exported(points, groups, values, table)
    ensures PassesChecks(table)
  {
  }

  lemma PooledFalls(points: seq<Block>, maxBins: nat, bins: seq<seq<Block>>, blocks: seq<Block>, segs: seq<seq<Block>>)
    requires PooledFrom(points, maxBins, bins, blocks, segs)
    ensures Falls(blocks) && FittedTo(blocks, segs)
  {
  }

  lemma {:induction false} FewerGroups(result: seq<Block>, segs: seq<seq<Block>>, s: seq<Block>)
    requires Coarsens(result, segs, s)
    ensures |result| <= |s|
  {
    if segs != [] {
      var head := CoarsensInit(result, segs, s);
      FewerGroups(result[..|segs| - 1], segs[..|segs| - 1], head);
    }
  }
}
