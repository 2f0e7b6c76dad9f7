/** `struct line_mgmt`: line counters, the free and full lists, the victim heap, and victim selection (conv_ftl.c). */
module LineMgmt {
  import opened Wrappers
  import opened Heap
  import opened PriorityQueue
  import opened Sets
  import opened FtlState
  import opened FtlUpdates
  import opened VictimScore

  /** CONV_GC_POLICY, and for Greedy whether the build samples the candidates (CONV_ISO_LOG_SAMPLES). */
  datatype Policy = Greedy(samples: bool) | CostBenefit(profile: Profile)

  ghost predicate PolicyOk(p: Policy) {
    p.CostBenefit? && p.profile.Steps? ==> |p.profile.values| == |p.profile.boundaries| + 1
  }

  /**
   Whether a policy picks one of the heap's lines, given the slot after the heap: Greedy looks at that slot only
   to sample it, and must not find a pointer that was never written there; the cost-benefit scan picks one of
   the heap's lines if the slot is null or holds a line that cannot win.
   */
  ghost predicate ScanOk(p: Policy, vpc: seq<nat>, ipc: seq<nat>, victims: set<nat>, ages: seq<uint64>, slot: nat)
    requires PolicyOk(p) && |vpc| == |ipc| == |ages| && forall c <- victims :: c < |vpc|
  {
    match p
    case Greedy(samples) => samples ==> slot <= |vpc|
    case CostBenefit(profile) => slot <= |vpc| && Harmless(vpc, Scores(ipc, vpc, profile, ages), victims, slot)
  }

  datatype LineView = LineView(vpc: seq<nat>, ipc: seq<nat>, free: seq<nat>, full: seq<nat>, victims: set<nat>)

  /** What every selection policy promises: the victim leaves the heap and nothing else changes. */
  ghost predicate Taken(before: LineView, after: LineView, v: Option<nat>) {
    && (v.None? ==> after == before)
    && (v.Some? ==> v.value in before.victims && v.value < |before.vpc|
                    && after == before.(victims := before.victims - {v.value}))
  }

  class Lines {
    const pq: PQueue           // victims; pq.pri is each line's vpc, pq.pos its position
    const ipc: array<nat>
    const perLine: nat
    var free: seq<nat>
    var full: seq<nat>
    var freeCnt: nat
    var fullCnt: nat
    var victimCnt: nat

    ghost function Repr(): set<object> {
      {this, pq, pq.d, pq.pri, pq.pos, ipc}
    }

    ghost predicate Valid()
      reads Repr()
    {
      && pq.Valid()
      && ipc != pq.d && ipc != pq.pri && ipc != pq.pos && ipc.Length == pq.pri.Length
      && freeCnt == |free| && fullCnt == |full| && victimCnt + 1 == pq.size
      && (forall b | 0 <= b < pq.pos.Length :: pq.pos[b] != 0 <==> b in pq.Contents())
    }

    ghost function Vpc(): seq<nat>
      reads pq.pri
    {
      pq.pri[..]
    }

    ghost function Ipc(): seq<nat>
      reads ipc
    {
      ipc[..]
    }

    ghost function Victims(): set<nat>
      requires pq.Shape()
      reads pq, pq.d
    {
      pq.Contents()
    }

    ghost function View(): LineView
      requires Valid()
      reads Repr()
    {
      LineView(Vpc(), Ipc(), free, full, Victims())
    }

    /** init_lines */
    constructor (ttLines: nat, perLine: nat)
      ensures Valid() && fresh(Repr()) && this.perLine == perLine
      ensures pq.pri.Length == ttLines && Victims() == {} && full == []
      ensures |free| == ttLines && forall i | 0 <= i < ttLines :: free[i] == i
      ensures forall b | 0 <= b < ttLines :: Vpc()[b] == 0 && Ipc()[b] == 0
    {
      this.perLine := perLine;
      pq := new PQueue(ttLines);
      ipc := new nat[ttLines](_ => 0);
      free, full := [], [];
      freeCnt, fullCnt, victimCnt := 0, 0, 0;
      new;
      var i := 0;
      while i < ttLines
        invariant 0 <= i <= ttLines
        invariant |free| == i == freeCnt && forall j | 0 <= j < i :: free[j] == j
        modifies `free, `freeCnt
      {
        free := free + [i];
        freeCnt := freeCnt + 1;
        i := i + 1;
      }
    }

    /** `size` is one more than the number of victims. */
    lemma SizeCountsVictims()
      requires Valid()
      ensures pq.size == |Victims()| + 1
    {
      PositionedDistinct(pq.d[..], pq.pos[..], pq.size);
      DistinctSize(pq.d[1..pq.size]);
    }

    /** The position stored in a line tells whether the line is a victim. */
    lemma PositionsKept(before: seq<nat>, contents: set<nat>, after: seq<nat>)
      requires pq.Valid() && after == pq.pos[..] && |before| == |after|
      requires forall b | 0 <= b < |before| :: before[b] != 0 <==> b in contents
      requires contents <= pq.Contents()
      requires SameOutside(before, after, pq.Contents())
      ensures forall b | 0 <= b < pq.pos.Length :: pq.pos[b] != 0 <==> b in pq.Contents()
    {
      PositionedDistinct(pq.d[..], pq.pos[..], pq.size);
    }

    /** The line part of mark_page_invalid: a full line becomes a victim, a victim moves up in the heap. */
    method Invalidate(b: nat)
      requires Valid() && b < pq.pri.Length && pq.pri[b] > 0
      requires pq.pri[b] == perLine ==> b !in Victims() && b in full
      modifies Repr()
      ensures Valid()
      ensures pq.RestKept(old(pq.d[..]))
      ensures pq.size >= old(pq.size)
      ensures Vpc() == old(Vpc())[b := old(Vpc())[b] - 1] && Ipc() == old(Ipc())[b := old(Ipc())[b] + 1]
      ensures free == old(free)
      ensures old(Vpc())[b] == perLine ==> full == Without(old(full), b) && Victims() == old(Victims()) + {b}
      ensures old(Vpc())[b] != perLine ==> full == old(full) && Victims() == old(Victims())
    {
      var wasFull := pq.pri[b] == perLine;
      ipc[b] := ipc[b] + 1;
      LowerVpc(b);
      if wasFull {
        FullToVictim(b);
      }
    }

    /** One valid page less, keeping the heap in order under the changed priority. */
    method LowerVpc(b: nat)
      requires Valid() && b < pq.pri.Length && pq.pri[b] > 0
      modifies pq.d, pq.pri, pq.pos
      ensures Valid() && Victims() == old(Victims())
      ensures pq.RestKept(old(pq.d[..]))
      ensures Vpc() == old(Vpc())[b := old(Vpc())[b] - 1]
    {
      ghost var pos0, victims0 := pq.pos[..], Victims();
      if pq.pos[b] != 0 {
        pq.ChangePriority(pq.pri[b] - 1, b);
        PositionsKept(pos0, victims0, pq.pos[..]);
      } else {
        WriteOutside(b, pq.pri[b] - 1);
      }
    }

    method FullToVictim(b: nat)
      requires Valid() && b < pq.pri.Length && b !in Victims() && b in full
      modifies this, pq, pq.d, pq.pos
      ensures Valid() && free == old(free)
      ensures pq.RestKept(old(pq.d[..]))
      ensures pq.size == old(pq.size) + 1
      ensures full == Without(old(full), b) && Victims() == old(Victims()) + {b}
    {
      ghost var pos0, victims0 := pq.pos[..], Victims();
      WithoutSize(full, b);
      full := Without(full, b);
      fullCnt := fullCnt - 1;
      pq.Insert(b);
      victimCnt := victimCnt + 1;
      PositionsKept(pos0, victims0, pq.pos[..]);
    }

    lemma {:induction false} WithoutSize(s: seq<nat>, x: nat)
      requires x in s
      ensures |Without(s, x)| == |s| - 1
    {
      if s[0] != x {
        assert s == [s[0]] + s[1..];
        WithoutSize(s[1..], x);
      }
    }

    /** Writing the counter of a line that is not in the heap leaves the heap alone. */
    method WriteOutside(b: nat, n: nat)
      requires Valid() && b < pq.pri.Length && b !in Victims()
      modifies pq.pri
      ensures Valid() && Vpc() == old(Vpc())[b := n]
    {
      ElemsOfLive(pq.d[..], pq.size);
      pq.pri[b] := n;
    }

    /** The line part of mark_page_valid. */
    method CountValid(b: nat)
      requires Valid() && b < pq.pri.Length && b !in Victims()
      modifies pq.pri
      ensures Valid() && Vpc() == old(Vpc())[b := old(Vpc())[b] + 1]
    {
      WriteOutside(b, pq.pri[b] + 1);
    }

    /** Move a used-up line to the full list or to the victims. */
    method Close(b: nat)
      requires Valid() && b < pq.pri.Length && b !in Victims()
      modifies Repr()
      ensures Valid() && Vpc() == old(Vpc()) && Ipc() == old(Ipc()) && free == old(free)
      ensures pq.RestKept(old(pq.d[..]))
      ensures pq.size >= old(pq.size)
      ensures Vpc()[b] == perLine ==> full == old(full) + [b] && Victims() == old(Victims())
      ensures Vpc()[b] != perLine ==> full == old(full) && Victims() == old(Victims()) + {b}
    {
      ghost var pos0, victims0 := pq.pos[..], Victims();
      if pq.pri[b] == perLine {
        full := full + [b];
        fullCnt := fullCnt + 1;
      } else {
        pq.Insert(b);
        victimCnt := victimCnt + 1;
        PositionsKept(pos0, victims0, pq.pos[..]);
      }
    }

    /** get_next_free_line */
    method NextFree() returns (b: Option<nat>)
      requires Valid()
      modifies `free, `freeCnt
      ensures Valid()
      ensures b == None <==> old(free) == []
      ensures b == None ==> free == old(free)
      ensures b.Some? ==> b.value == old(free)[0] && free == old(free)[1..]
    {
      if free == [] {
        return None;
      }
      b := Some(free[0]);
      free := free[1..];
      freeCnt := freeCnt - 1;
    }

    /** mark_line_free */
    method Release(v: nat)
      requires Valid() && v < pq.pri.Length && v !in Victims()
      modifies `free, `freeCnt, ipc, pq.pri
      ensures Valid() && Vpc() == old(Vpc())[v := 0] && Ipc() == old(Ipc())[v := 0]
      ensures free == old(free) + [v] && full == old(full) && Victims() == old(Victims())
    {
      ipc[v] := 0;
      WriteOutside(v, 0);
      free := free + [v];
      freeCnt := freeCnt + 1;
    }

    // ----- victim selection -----

    /** Forget the position of a line that has just left the heap. */
    method ClearPosition(v: nat, ghost before: seq<nat>, ghost contents: set<nat>)
      requires pq.Valid() && |before| == pq.pos.Length && v < pq.pos.Length
      requires forall b | 0 <= b < |before| :: before[b] != 0 <==> b in contents
      requires v in contents && pq.Contents() == contents - {v} && SameOutside(before, pq.pos[..], contents)
      modifies pq.pos
      ensures pq.Valid() && pq.Contents() == old(pq.Contents())
      ensures forall b | 0 <= b < pq.pos.Length :: pq.pos[b] != 0 <==> b in pq.Contents()
    {
      PositionedDistinct(pq.d[..], pq.pos[..], pq.size);
      pq.pos[v] := 0;
      assert Positioned(pq.d[..], pq.pos[..], pq.size);
    }

    /** The early exit of both policies: nothing to collect, or, unless forced, every victim over one eighth valid. */
    ghost predicate Declines(force: bool)
      requires Valid()
      reads Repr()
    {
      || Victims() == {}
      || (!force && forall b <- Victims() :: b < |Vpc()| && 8 * Vpc()[b] > perLine)
    }

    /**
     isotonic_sample_candidates looks at the slots the cost-benefit scan looks at.  It fails where the source
     follows a pointer that was never written; what it records is not modelled.
     */
    method SampleCandidates() returns (ok: bool)
      requires Valid() && pq.size < pq.d.Length
      ensures ok <==> pq.d[pq.size] <= |Vpc()|
    {
      hide Ordered;
      var i := 1;
      while i <= pq.size
        invariant 1 <= i <= pq.size + 1
        invariant i == pq.size + 1 ==> pq.d[pq.size] <= |Vpc()|
      {
        if pq.d[i] > pq.NullSlot() {
          assert i == pq.size;
          return false;
        }
        i := i + 1;
      }
      return true;
    }

    lemma EighthIs(perLine: nat)
      ensures forall n: nat :: n > perLine / 8 <==> 8 * n > perLine
    {
    }

    /** select_victim_greedy; only a build that samples the candidates can fail. */
    method SelectGreedy(force: bool, samples: bool) returns (ok: bool, v: Option<nat>)
      requires Valid() && (samples ==> pq.size < pq.d.Length)
      modifies Repr()
      ensures Valid() && Taken(old(View()), View(), v)
      ensures pq.RestKept(old(pq.d[..]))
      ensures v == None ==> pq.d[..] == old(pq.d[..])
      ensures ok <==> old(Declines(force)) || (samples ==> old(pq.d[pq.size]) <= |Vpc()|)
      ensures !ok ==> v == None
      ensures ok ==> (v == None <==> old(Declines(force)))
      ensures v.Some? ==> forall b <- old(Victims()) :: b < |Vpc()| && Vpc()[v.value] <= Vpc()[b]
    {
      hide Live, Ordered, Positioned, Scores, IsBest;
      v := pq.Peek();
      EighthIs(perLine);
      if v == None || (!force && pq.pri[v.value] > perLine / 8) {
        return true, None;
      }
      if samples {
        ok := SampleCandidates();
        if !ok {
          return false, None;
        }
      }
      TakeRoot(v.value);
      return true, v;
    }

    /** The root leaves the heap. */
    method TakeRoot(ghost v: nat)
      requires Valid() && pq.size > 1 && v == pq.d[1]
      modifies Repr()
      ensures Valid() && Taken(old(View()), View(), Some(v)) && pq.RestKept(old(pq.d[..]))
    {
      hide Live, Ordered, Positioned;
      VictimsInRange();
      RootIsVictim();
      ghost var pos0, victims0 := pq.pos[..], Victims();
      var popped := pq.Pop();
      ClearPosition(popped.value, pos0, victims0);
      victimCnt := victimCnt - 1;
    }

    lemma RootIsVictim()
      requires Valid() && pq.size > 1
      ensures pq.d[1] in Victims()
    {
      ElemsOfLive(pq.d[..], pq.size);
      assert pq.d[..][1] == pq.d[1];
    }

    /** selected_age_value */
    method LineAgeValue(p: Profile, age: uint64) returns (value: uint64)
      requires p.Steps? ==> |p.values| == |p.boundaries| + 1
      ensures value == AgeValue(p, age)
    {
      match p
      case RawLinear =>
        value := if age == 0 then 1 else age;
      case Steps(boundaries, values) =>
        var level;
        value, level := StepLookup(boundaries, values, age);
    }

    method ScoreLine(p: Profile, ages: seq<uint64>, b: nat) returns (score: uint64)
      requires Valid() && CountersFit() && b < |Vpc()| == |ages|
      requires p.Steps? ==> |p.values| == |p.boundaries| + 1
      ensures score as nat == Scores(Ipc(), Vpc(), p, ages)[b]
    {
      var value := LineAgeValue(p, ages[b]);
      score := CostBenefitScore(ipc[b] as uint64, pq.pri[b] as uint64, value);
    }

    /** The counters of every line fit the source's `int` fields. */
    ghost predicate CountersFit()
      reads pq.pri, ipc
    {
      |Ipc()| == |Vpc()| && forall b | 0 <= b < |Vpc()| :: Vpc()[b] < 0x8000_0000 && Ipc()[b] < 0x8000_0000
    }

    /**
     The scan of select_victim_cost_benefit, which also looks at the slot after the heap.  It fails where the
     source follows a pointer that was never written.
     */
    method BestVictim(p: Profile, ages: seq<uint64>) returns (ok: bool, best: nat)
      requires Valid() && Victims() != {} && CountersFit() && pq.size < pq.d.Length
      requires p.Steps? ==> |p.values| == |p.boundaries| + 1
      requires |ages| == |Vpc()|
      ensures ok <==> pq.d[pq.size] <= |Vpc()|
      ensures ok ==> best < |Vpc()|
      ensures ok ==> IsBest(Vpc(), Scores(Ipc(), Vpc(), p, ages), WithSlot(Victims(), pq.d[pq.size], |Vpc()|), best)
      ensures ok ==> HighestScore(Vpc(), Ipc(), p, ages, WithSlot(Victims(), pq.d[pq.size], |Vpc()|), best)
    {
      hide IsBest, Scores, Live, Ordered, Elems, Leads, HighestScore;
      ghost var d, vpc, score := pq.d[..], Vpc(), Scores(Ipc(), Vpc(), p, ages);
      SomeVictim();
      var found: Option<nat>, bestScore: uint64 := None, 0;
      LeadStarts(vpc, score, d, pq.size);
      var i := 1;
      while i <= pq.size
        invariant 1 <= i <= pq.size + 1 && Leads(vpc, score, d, pq.size, i, found)
        invariant found.Some? ==> found.value < |vpc| == |score| && bestScore as nat == score[found.value]
        invariant i == pq.size + 1 ==> d[pq.size] <= |vpc|
      {
        var ln := pq.d[i];
        LeadFacts(vpc, score, d, pq.size, i, found);
        if ln > pq.NullSlot() {
          assert i == pq.size;
          return false, 0;
        }
        if ln == pq.NullSlot() {
          LeadSkips(vpc, score, d, pq.size, i, found);
          i := i + 1;
          continue;
        }
        var s := ScoreLine(p, ages, ln);
        LeadContinues(vpc, score, d, pq.size, i, found);
        if found == None
           || s > bestScore
           || (s == bestScore && pq.pri[ln] < pq.pri[found.value])
           || (s == bestScore && pq.pri[ln] == pq.pri[found.value] && ln < found.value) {
          bestScore := s;
          found := Some(ln);
        }
        i := i + 1;
      }
      LeadEnds(vpc, score, d, pq.size, found);
      LeadFacts(vpc, score, d, pq.size, pq.size + 1, found);
      BestIsHighest(vpc, Ipc(), p, ages, WithSlot(Victims(), pq.d[pq.size], |vpc|), found.value);
      return true, found.value;
    }

    /**
     select_victim_cost_benefit.  It fails where the source follows a pointer that was never written or takes a
     line out of the heap that is not in it; otherwise the winner leaves the heap.
     */
    method SelectCostBenefit(p: Profile, ages: seq<uint64>, force: bool) returns (ok: bool, v: Option<nat>)
      requires Valid() && CountersFit() && pq.size < pq.d.Length
      requires p.Steps? ==> |p.values| == |p.boundaries| + 1
      requires |ages| == |Vpc()|
      modifies Repr()
      ensures Valid() && Taken(old(View()), View(), v)
      ensures pq.RestKept(old(pq.d[..]))
      ensures forall c <- old(Victims()) :: c < |Vpc()|
      ensures ok <==> old(Declines(force))
                      || ScanOk(CostBenefit(p), Vpc(), Ipc(), old(Victims()), ages, old(pq.d[pq.size]))
      ensures !ok ==> v == None
      ensures v == None ==> pq.d[..] == old(pq.d[..])
      ensures ok ==> (v == None <==> old(Declines(force)))
      ensures v.Some? ==> IsBest(Vpc(), Scores(Ipc(), Vpc(), p, ages), old(Victims()), v.value)
      ensures v.Some? ==> HighestScore(Vpc(), Ipc(), p, ages, old(Victims()), v.value)
    {
      hide Live, Ordered, Positioned, Scores, IsBest, WithSlot, Harmless, HighestScore;
      VictimsInRange();
      var greedy := pq.Peek();
      EighthIs(perLine);
      if greedy == None || (!force && pq.pri[greedy.value] > perLine / 8) {
        return true, None;
      }
      var best;
      ok, best := BestVictim(p, ages);
      if !ok {
        return false, None;
      }
      ScanIsRightExactly(Vpc(), Scores(Ipc(), Vpc(), p, ages), Victims(), pq.d[pq.size], best);
      if pq.pos[best] == 0 {
        return false, None;  // the source goes on to remove a line that is not in the heap
      }
      BestIsHighest(Vpc(), Ipc(), p, ages, Victims(), best);
      TakeOut(best);
      return true, Some(best);
    }

    /** A victim leaves the heap. */
    method TakeOut(best: nat)
      requires Valid() && best in Victims()
      modifies Repr()
      ensures Valid() && Taken(old(View()), View(), Some(best)) && pq.RestKept(old(pq.d[..]))
    {
      hide Live, Ordered, Positioned;
      VictimsInRange();
      ghost var pos0, victims0 := pq.pos[..], Victims();
      pq.Remove(best);
      ClearPosition(best, pos0, victims0);
      victimCnt := victimCnt - 1;
    }

    lemma SomeVictim()
      requires Valid() && Victims() != {}
      ensures pq.size >= 2
    {
      ElemsOfLive(pq.d[..], pq.size);
    }

    lemma VictimsInRange()
      requires Valid()
      ensures forall c <- Victims() :: c < |Vpc()|
    {
      ElemsOfLive(pq.d[..], pq.size);
    }

    /** select_victim_line */
    method SelectVictim(policy: Policy, ages: seq<uint64>, force: bool) returns (ok: bool, v: Option<nat>)
      requires Valid() && PolicyOk(policy) && CountersFit() && |ages| == |Vpc()| && pq.size < pq.d.Length
      modifies Repr()
      ensures Valid() && Taken(old(View()), View(), v)
      ensures pq.RestKept(old(pq.d[..]))
      ensures forall c <- old(Victims()) :: c < |Vpc()|
      ensures ok <==> old(Declines(force)) || ScanOk(policy, Vpc(), Ipc(), old(Victims()), ages, old(pq.d[pq.size]))
      ensures !ok ==> v == None
      ensures v == None ==> pq.d[..] == old(pq.d[..])
      ensures ok ==> (v == None <==> old(Declines(force)))
      ensures v.Some? && policy.Greedy? ==> forall b <- old(Victims()) :: Vpc()[v.value] <= Vpc()[b]
      ensures v.Some? && policy.CostBenefit? ==>
                && IsBest(Vpc(), Scores(Ipc(), Vpc(), policy.profile, ages), old(Victims()), v.value)
                && HighestScore(Vpc(), Ipc(), policy.profile, ages, old(Victims()), v.value)
    {
      hide Live, Ordered, Positioned, Scores, IsBest, HighestScore;
      VictimsInRange();
      match policy
      case Greedy(samples) =>
        ok, v := SelectGreedy(force, samples);
      case CostBenefit(profile) =>
        ok, v := SelectCostBenefit(profile, ages, force);
    }
  }
}
