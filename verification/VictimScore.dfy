/**
 Victim selection by cost and benefit (conv_ftl.c): age values, the 64-bit score, and which of the
 candidates wins.
 */
module VictimScore {
  import opened Heap
  import opened MixedRadix
  import opened Wrappers

  newtype uint64 = x: int | 0 <= x < 0x1_0000_0000_0000_0000

  const MAX_U64: uint64 := 0xFFFF_FFFF_FFFF_FFFF

  /** The age profiles compiled into the module: raw linear age, or a step function of age (one step is FLAT). */
  datatype Profile = RawLinear | Steps(boundaries: seq<uint64>, values: seq<uint64>)

  /** How many boundaries an age has reached. */
  ghost function LevelOf(boundaries: seq<uint64>, age: uint64): (k: nat)
    ensures k <= |boundaries|
    ensures forall i | 0 <= i < k :: boundaries[i] <= age
    ensures k < |boundaries| ==> age < boundaries[k]
  {
    if boundaries == [] || age < boundaries[0] then 0 else 1 + LevelOf(boundaries[1..], age)
  }

  ghost function AgeValue(p: Profile, age: uint64): uint64
    requires p.Steps? ==> |p.values| == |p.boundaries| + 1
  {
    match p
    case RawLinear => if age == 0 then 1 else age
    case Steps(boundaries, values) => values[LevelOf(boundaries, age)]
  }

  lemma {:induction false} LevelIs(boundaries: seq<uint64>, age: uint64, k: nat)
    requires k <= |boundaries|
    requires forall i | 0 <= i < k :: boundaries[i] <= age
    requires k < |boundaries| ==> age < boundaries[k]
    ensures LevelOf(boundaries, age) == k
  {
    if k > 0 {
      LevelIs(boundaries[1..], age, k - 1);
    }
  }

  /** age_step_lookup and isotonic_age_value: scan for the first boundary above the age. */
  method StepLookup(boundaries: seq<uint64>, values: seq<uint64>, age: uint64) returns (value: uint64, level: nat)
    requires |values| == |boundaries| + 1
    ensures level == LevelOf(boundaries, age) && value == values[level]
  {
    var i := 0;
    while i < |boundaries|
      invariant 0 <= i <= |boundaries|
      invariant forall j | 0 <= j < i :: boundaries[j] <= age
    {
      if age < boundaries[i] {
        LevelIs(boundaries, age, i);
        return values[i], i;
      }
      i := i + 1;
    }
    LevelIs(boundaries, age, i);
    return values[i], i;
  }

  // ----- the score -----

  /** The exact benefit-to-cost ratio, rounded down and saturated to 64 bits. */
  ghost function Score(ipc: nat, vpc: nat, ageValue: nat): nat {
    var exact := (ageValue * ipc) / (vpc + 1);
    if exact > MAX_U64 as nat then MAX_U64 as nat else exact
  }

  lemma DivUnique(x: int, d: int, q: int)
    requires d > 0 && q * d <= x < (q + 1) * d
    ensures x / d == q
  {
    if x / d > q {
      assert (x / d) * d >= (q + 1) * d by { MulLe(q + 1, x / d, d); }
    }
    if x / d < q {
      assert (x / d + 1) * d <= q * d by { MulLe(x / d + 1, q, d); }
    }
  }

  lemma MulLe(a: int, b: int, d: int)
    requires a <= b && d >= 0
    ensures a * d <= b * d
  {
    assert b * d == a * d + (b - a) * d;
  }

  /** Splitting the age value by the divisor first loses nothing. */
  lemma SplitDivision(a: nat, i: nat, d: nat)
    requires d > 0
    ensures (a * i) / d == (a / d) * i + ((a % d) * i) / d
  {
    var q, r := a / d, a % d;
    var t := (r * i) / d;
    assert a * i == (q * i) * d + r * i by {
      assert a == q * d + r;
      assert (q * d + r) * i == (q * d) * i + r * i;
      assert (q * d) * i == (q * i) * d;
    }
    assert t * d <= r * i < (t + 1) * d;
    assert (q * i + t) * d == (q * i) * d + t * d;
    assert (q * i + t + 1) * d == (q * i) * d + (t + 1) * d;
    DivUnique(a * i, d, q * i + t);
  }

  lemma QuotientTest(a: nat, b: nat, max: nat)
    requires b > 0
    ensures a > max / b <==> a * b > max
  {
    if a > max / b {
      MulLe(max / b + 1, a, b);
    } else {
      MulLe(a, max / b, b);
    }
  }

  /** With 31-bit counters the remainder term cannot overflow: the source's saturating branch for it is never taken. */
  lemma TailFits(ipc: nat, divisor: nat, ageValue: nat)
    requires 0 < ipc < 0x8000_0000 && 0 < divisor <= 0x8000_0000
    ensures (ageValue % divisor) * ipc < 0x4000_0000_0000_0000
    ensures !(ageValue % divisor > MAX_U64 as nat / ipc)
  {
    var r := ageValue % divisor;
    MulLe(r, 0x8000_0000 - 1, ipc);
    QuotientTest(r, ipc, MAX_U64 as nat);
  }

  /** The terms of the source's computation: `head` from the quotient, `tail` from the remainder. */
  lemma ScoreTerms(ipc: nat, vpc: nat, ageValue: nat) returns (head: nat, q: nat, r: nat, tail: nat)
    requires 0 < ipc < 0x8000_0000 && vpc < 0x8000_0000
    ensures q == ageValue / (vpc + 1) && r == ageValue % (vpc + 1)
    ensures head == q * ipc && r * ipc <= MAX_U64 as nat && tail == (r * ipc) / (vpc + 1) <= MAX_U64 as nat
    ensures r <= MAX_U64 as nat / ipc
    ensures q > MAX_U64 as nat / ipc <==> head > MAX_U64 as nat
    ensures Score(ipc, vpc, ageValue) == if head + tail > MAX_U64 as nat then MAX_U64 as nat else head + tail
  {
    var max, d := MAX_U64 as nat, vpc + 1;
    q, r := ageValue / d, ageValue % d;
    head, tail := q * ipc, NatQuotient(r * ipc, d);
    SplitDivision(ageValue, ipc, d);
    TailFits(ipc, d, ageValue);
    QuotientTest(q, ipc, max);
    DivAtMost(r * ipc, d);
  }

  ghost function NatQuotient(x: nat, d: nat): (q: nat)
    requires d > 0
    ensures q == x / d
  {
    DivAtMost(x, d);
    x / d
  }

  lemma DivAtMost(x: nat, d: nat)
    requires d > 0
    ensures 0 <= x / d <= x
  {
    MulLe(1, d, x / d);
  }

  /**
   cost_benefit_score in 64-bit arithmetic: no intermediate result overflows, and the result is the exact
   ratio, saturated.
   */
  method CostBenefitScore(ipc: uint64, vpc: uint64, ageValue: uint64) returns (score: uint64)
    requires ipc < 0x8000_0000 && vpc < 0x8000_0000
    ensures score as nat == Score(ipc as nat, vpc as nat, ageValue as nat)
  {
    var divisor := vpc + 1;
    if ageValue == 0 || ipc == 0 {
      ZeroScore(ipc as nat, vpc as nat, ageValue as nat);
      return 0;
    }
    var quotient := ageValue / divisor;
    var remainder := ageValue % divisor;
    ghost var i, q, r, t := ScoreTerms(ipc as nat, vpc as nat, ageValue as nat);
    assert q == quotient as nat && r == remainder as nat;
    if quotient > MAX_U64 / ipc {
      return MAX_U64;
    }
    score := quotient * ipc;
    var tail: uint64;
    if remainder > MAX_U64 / ipc {
      assert false;  // the source saturates the remainder term here, which TailFits rules out
    } else {
      tail := (remainder * ipc) / divisor;
    }
    if score > MAX_U64 - tail {
      return MAX_U64;
    }
    return score + tail;
  }

  lemma ZeroScore(ipc: nat, vpc: nat, ageValue: nat)
    requires ipc == 0 || ageValue == 0
    ensures Score(ipc, vpc, ageValue) == 0
  {
    assert ageValue * ipc == 0;
  }

  // ----- the winner -----

  /** The order in which candidates win: higher score, then fewer valid pages, then smaller line number. */
  ghost predicate Beats(vpc: seq<nat>, score: seq<nat>, a: nat, b: nat)
    requires a < |vpc| && b < |vpc| && |score| == |vpc|
  {
    || score[a] > score[b]
    || (score[a] == score[b] && vpc[a] < vpc[b])
    || (score[a] == score[b] && vpc[a] == vpc[b] && a < b)
  }

  ghost predicate IsBest(vpc: seq<nat>, score: seq<nat>, candidates: set<nat>, best: nat) {
    && |score| == |vpc| && best in candidates
    && (forall c <- candidates :: c < |vpc|)
    && (forall c <- candidates | c != best :: Beats(vpc, score, best, c))
  }

  /** The winner depends on the set of candidates only, not on the order in which the heap holds them. */
  lemma BestIsUnique(vpc: seq<nat>, score: seq<nat>, candidates: set<nat>, a: nat, b: nat)
    requires IsBest(vpc, score, candidates, a) && IsBest(vpc, score, candidates, b)
    ensures a == b
    ensures |score| == |vpc| && a < |vpc|
    ensures forall c <- candidates ::
              && c < |vpc| && score[c] <= score[a]
              && (score[c] == score[a] ==> vpc[a] <= vpc[c])
              && (score[c] == score[a] && vpc[c] == vpc[a] ==> a <= c)
  {
  }

  // ----- the scan over the slots -----

  /** The lines the scan considers: those in the heap, and whatever line the slot after them still holds. */
  ghost function Scanned(d: seq<nat>, n: nat, lines: nat): set<nat>
    requires 1 <= n < |d|
  {
    WithSlot(Elems(d, n), d[n], lines)
  }

  ghost function WithSlot(candidates: set<nat>, slot: nat, lines: nat): set<nat> {
    if slot < lines then candidates + {slot} else candidates
  }

  /** `best` is the winner among the lines in slots 1 to i-1; slots that hold no line are passed over. */
  ghost predicate Leads(vpc: seq<nat>, score: seq<nat>, d: seq<nat>, n: nat, i: nat, best: Option<nat>) {
    && 1 <= n < |d| && |score| == |vpc| && 1 <= i <= n + 1
    && (forall j | 1 <= j < n :: d[j] < |vpc|)
    && (best.None? ==> forall j | 1 <= j < i :: d[j] >= |vpc|)
    && (best.Some? ==>
          && best.value < |vpc| && (exists j | 1 <= j < i :: d[j] == best.value)
          && (forall j | 1 <= j < i && d[j] < |vpc| && d[j] != best.value :: Beats(vpc, score, best.value, d[j])))
  }

  lemma LeadStarts(vpc: seq<nat>, score: seq<nat>, d: seq<nat>, n: nat)
    requires 1 <= n < |d| && |score| == |vpc| && forall j | 1 <= j < n :: d[j] < |vpc|
    ensures Leads(vpc, score, d, n, 1, None)
  {
  }

  lemma LeadSkips(vpc: seq<nat>, score: seq<nat>, d: seq<nat>, n: nat, i: nat, best: Option<nat>)
    requires Leads(vpc, score, d, n, i, best) && i <= n && d[i] >= |vpc|
    ensures Leads(vpc, score, d, n, i + 1, best)
  {
    if best.Some? {
      var j :| 1 <= j < i && d[j] == best.value;
    }
  }

  lemma LeadContinues(vpc: seq<nat>, score: seq<nat>, d: seq<nat>, n: nat, i: nat, best: Option<nat>)
    requires Leads(vpc, score, d, n, i, best) && i <= n && d[i] < |vpc|
    ensures best.Some? ==> best.value < |vpc|
    ensures var next := if best.None? || Beats(vpc, score, d[i], best.value) then Some(d[i]) else best;
            Leads(vpc, score, d, n, i + 1, next)
  {
    if best.Some? {
      var j :| 1 <= j < i && d[j] == best.value;
    }
  }

  lemma LeadEnds(vpc: seq<nat>, score: seq<nat>, d: seq<nat>, n: nat, best: Option<nat>)
    requires Leads(vpc, score, d, n, n + 1, best) && n >= 2
    ensures best.Some? && IsBest(vpc, score, Scanned(d, n, |vpc|), best.value)
  {
    ElemsOfLive(d, n);
    assert d[1] < |vpc|;
    forall c <- Scanned(d, n, |vpc|)
      ensures c < |vpc| && exists j | 1 <= j < n + 1 :: d[j] == c
    {
      if c !in Elems(d, n) {
        assert d[n] == c;
      }
    }
  }

  lemma LeadFacts(vpc: seq<nat>, score: seq<nat>, d: seq<nat>, n: nat, i: nat, best: Option<nat>)
    requires Leads(vpc, score, d, n, i, best)
    ensures (i < n ==> d[i] < |vpc|) && (best.Some? ==> best.value < |vpc|)
  {
  }

  /** The line in the slot after the heap, if any, is a candidate itself or loses to one. */
  ghost predicate Harmless(vpc: seq<nat>, score: seq<nat>, candidates: set<nat>, slot: nat)
    requires |score| == |vpc| && forall c <- candidates :: c < |vpc|
  {
    slot < |vpc| ==> slot in candidates || exists c <- candidates :: Beats(vpc, score, c, slot)
  }

  /** The scan picks the intended winner exactly when the slot after the heap is harmless. */
  lemma ScanIsRightExactly(vpc: seq<nat>, score: seq<nat>, candidates: set<nat>, slot: nat, best: nat)
    requires |score| == |vpc| && candidates != {} && forall c <- candidates :: c < |vpc|
    requires IsBest(vpc, score, WithSlot(candidates, slot, |vpc|), best)
    ensures IsBest(vpc, score, candidates, best) <==> Harmless(vpc, score, candidates, slot)
    ensures IsBest(vpc, score, candidates, best) <==> best in candidates
  {
    if slot < |vpc| && slot !in candidates {
      assert slot in WithSlot(candidates, slot, |vpc|);
      if best == slot {
        forall c <- candidates
          ensures !Beats(vpc, score, c, slot)
        {
          assert Beats(vpc, score, best, c);
        }
      } else {
        assert Beats(vpc, score, best, slot);
      }
    }
  }

  ghost function Scores(ipc: seq<nat>, vpc: seq<nat>, p: Profile, ages: seq<uint64>): (r: seq<nat>)
    requires |ipc| == |vpc| == |ages|
    requires p.Steps? ==> |p.values| == |p.boundaries| + 1
    ensures |r| == |vpc| && forall b | 0 <= b < |vpc| :: r[b] == Score(ipc[b], vpc[b], AgeValue(p, ages[b]) as nat)
  {
    seq(|vpc|, b requires 0 <= b < |vpc| => Score(ipc[b], vpc[b], AgeValue(p, ages[b]) as nat))
  }

  /** The value an age has under a profile: the age itself but at least 1, or the value of the step it has reached. */
  ghost predicate HasValue(p: Profile, age: uint64, value: nat) {
    match p
    case RawLinear => value == if age < 1 then 1 else age as nat
    case Steps(boundaries, values) =>
      exists k | 0 <= k < |values| ::
        && value == values[k] as nat && k <= |boundaries|
        && (forall i | 0 <= i < k :: boundaries[i] <= age) && (k < |boundaries| ==> age < boundaries[k])
  }

  /** Age value times invalid pages over valid pages plus one, rounded down and at most 2^64 - 1. */
  ghost predicate HasScore(p: Profile, age: uint64, ipc: nat, vpc: nat, score: nat) {
    exists value: nat :: HasValue(p, age, value) && IsFloor(score, value * ipc, vpc + 1)
  }

  ghost predicate IsFloor(q: nat, x: nat, d: nat) {
    if x < 0x1_0000_0000_0000_0000 * d then q * d <= x < (q + 1) * d else q == 0xFFFF_FFFF_FFFF_FFFF
  }

  /** No candidate has a higher score, or the same with fewer valid pages, or the same of both and a smaller number. */
  ghost predicate HighestScore(vpc: seq<nat>, ipc: seq<nat>, p: Profile, ages: seq<uint64>, candidates: set<nat>,
      best: nat)
    requires |vpc| == |ipc| == |ages|
  {
    && best in candidates && best < |vpc|
    && forall c, x: nat, y: nat | c in candidates && c < |vpc|
         && HasScore(p, ages[c], ipc[c], vpc[c], x) && HasScore(p, ages[best], ipc[best], vpc[best], y) ::
         && x <= y && (x == y ==> vpc[best] <= vpc[c]) && (x == y && vpc[c] == vpc[best] ==> best <= c)
  }

  lemma ValueIs(p: Profile, age: uint64)
    requires p.Steps? ==> |p.values| == |p.boundaries| + 1
    ensures forall value: nat :: HasValue(p, age, value) <==> value == AgeValue(p, age) as nat
  {
    if p.Steps? {
      var l := LevelOf(p.boundaries, age);
      assert HasValue(p, age, p.values[l] as nat);
      forall k | 0 <= k <= |p.boundaries| && (forall i | 0 <= i < k :: p.boundaries[i] <= age)
                 && (k < |p.boundaries| ==> age < p.boundaries[k])
        ensures k == l
      {
        LevelIs(p.boundaries, age, k);
      }
    }
  }

  lemma FloorIs(x: nat, d: nat)
    requires d > 0
    ensures forall q: nat :: IsFloor(q, x, d) <==> q == if x / d > MAX_U64 as nat then MAX_U64 as nat else x / d
  {
    forall q: nat
      ensures IsFloor(q, x, d) <==> q == if x / d > MAX_U64 as nat then MAX_U64 as nat else x / d
    {
      QuotientIs(x, d, q);
      QuotientIs(x, d, 0x1_0000_0000_0000_0000);
    }
  }

  /** Every line has exactly one score. */
  lemma ScoreExactly(p: Profile, age: uint64, ipc: nat, vpc: nat)
    requires p.Steps? ==> |p.values| == |p.boundaries| + 1
    ensures forall score: nat ::
              HasScore(p, age, ipc, vpc, score) <==> score == Score(ipc, vpc, AgeValue(p, age) as nat)
  {
    hide HasValue, IsFloor, AgeValue;
    ValueIs(p, age);
    FloorIs(AgeValue(p, age) as nat * ipc, vpc + 1);
    assert HasValue(p, age, AgeValue(p, age) as nat);
  }

  /** The winner of the scan is the line the profile ranks first. */
  lemma BestIsHighest(vpc: seq<nat>, ipc: seq<nat>, p: Profile, ages: seq<uint64>, candidates: set<nat>, best: nat)
    requires |vpc| == |ipc| == |ages| && (p.Steps? ==> |p.values| == |p.boundaries| + 1)
    requires IsBest(vpc, Scores(ipc, vpc, p, ages), candidates, best)
    ensures HighestScore(vpc, ipc, p, ages, candidates, best)
  {
    hide HasScore, Score, AgeValue;
    var score := Scores(ipc, vpc, p, ages);
    BestIsUnique(vpc, score, candidates, best, best);
    ScoreExactly(p, ages[best], ipc[best], vpc[best]);
    forall c <- candidates
      ensures c < |vpc|
      ensures forall x: nat | HasScore(p, ages[c], ipc[c], vpc[c], x) :: x == score[c]
    {
      ScoreExactly(p, ages[c], ipc[c], vpc[c]);
    }
  }

  /** The FLAT age profile. */
  const FLAT := Steps([], [1])

  /** With one age value for all, a line with fewer valid pages never scores less. */
  lemma FlatScoreMonotone(perLine: nat, ipc: nat, vpc: nat, ipc': nat, vpc': nat)
    requires ipc + vpc == perLine && ipc' + vpc' == perLine && vpc <= vpc'
    ensures Score(ipc, vpc, 1) >= Score(ipc', vpc', 1)
  {
    DivMonotone(ipc', ipc, vpc' + 1, vpc + 1);
  }

  lemma DivMonotone(x: nat, y: nat, d: nat, e: nat)
    requires x <= y && 0 < e <= d
    ensures x / d <= y / e
  {
    MulLe(e, d, x / d);
    DivAtLeast(y, e, x / d);
  }

  lemma DivAtLeast(y: nat, e: nat, k: nat)
    requires e > 0 && e * k <= y
    ensures k <= y / e
  {
    if k > y / e {
      MulLe(y / e + 1, k, e);
    }
  }

  /** With the FLAT profile no candidate has fewer valid pages than the cost-benefit winner. */
  lemma FlatBeatsNone(perLine: nat, ipc: seq<nat>, vpc: seq<nat>, ages: seq<uint64>, candidates: set<nat>,
      best: nat, other: nat)
    requires |ipc| == |vpc| == |ages|
    requires IsBest(vpc, Scores(ipc, vpc, FLAT, ages), candidates, best)
    requires forall c <- candidates :: c < |vpc| && ipc[c] + vpc[c] == perLine
    requires other in candidates
    ensures best < |vpc| && vpc[best] <= vpc[other]
  {
    if best != other && vpc[other] <= vpc[best] {
      FlatScoreMonotone(perLine, ipc[other], vpc[other], ipc[best], vpc[best]);
      assert AgeValue(FLAT, ages[other]) == 1 && AgeValue(FLAT, ages[best]) == 1;
      assert Beats(vpc, Scores(ipc, vpc, FLAT, ages), best, other);
    }
  }

  /** The winner has as few valid pages as the heap root: it refines Greedy. */
  lemma FlatRefinesGreedy(perLine: nat, ipc: seq<nat>, vpc: seq<nat>, ages: seq<uint64>, candidates: set<nat>,
      best: nat, root: nat)
    requires |ipc| == |vpc| == |ages|
    requires IsBest(vpc, Scores(ipc, vpc, FLAT, ages), candidates, best)
    requires forall c <- candidates :: c < |vpc| && ipc[c] + vpc[c] == perLine
    requires root in candidates && forall c <- candidates :: vpc[root] <= vpc[c]
    ensures vpc[best] == vpc[root]
  {
    FlatBeatsNone(perLine, ipc, vpc, ages, candidates, best, root);
  }
}
