/** What page writes, discards and collections do to the logical space, and the space invariant of whole runs. */
module FtlRuns {
  import opened MixedRadix
  import opened Wrappers
  import opened Geometry
  import opened Sets
  import opened FtlState
  import opened FtlUpdates
  import opened FtlPass
  import opened FtlSpace

  /** Every other logical page keeps its page, or has been copied to one that was free. */
  ghost predicate KeptBut(s: Ftl, s': Ftl, l: int) {
    && |s'.maptbl| == |s.maptbl|
    && (forall m | 0 <= m < |s.maptbl| && m != l :: KeptAt(s, s', m))
  }

  ghost predicate KeptAt(s: Ftl, s': Ftl, m: nat)
    requires m < |s.maptbl| == |s'.maptbl|
  {
    || s'.maptbl[m] == s.maptbl[m]
    || (s.maptbl[m].Some? && OnFreshPage(s, s'.maptbl[m]))
  }

  ghost predicate OnFreshPage(s: Ftl, e: Option<Ppa>) {
    e.Some? && e.value in s.status && s.status[e.value] == Free
  }

  /** No logical page appears or disappears. */
  ghost predicate Relocated(s: Ftl, s': Ftl) {
    KeptBut(s, s', -1) && s'.host == s.host && s'.discarded == s.discarded
  }

  /** A page write of `l`. */
  ghost predicate Rewritten(s: Ftl, s': Ftl, l: nat) {
    && KeptBut(s, s', l) && l < |s.maptbl| && OnFreshPage(s, s'.maptbl[l])
    && s'.host == s.host + 1 && s'.discarded == s.discarded
  }

  lemma CollectedRelocates(lay: Layout, s: Ftl, s': Ftl, v: nat)
    requires v < |s.vpc| && v < |s.ipc| && Collected(lay, s, s', v)
    ensures Relocated(s, s')
  {
  }

  lemma RelocatedKeepsMapped(s: Ftl, s': Ftl)
    requires Relocated(s, s')
    ensures Mapped(s'.maptbl) == Mapped(s.maptbl)
  {
    forall m | 0 <= m < |s.maptbl|
      ensures s'.maptbl[m].Some? <==> s.maptbl[m].Some?
    {
      assert KeptAt(s, s', m);
    }
  }

  lemma RewrittenMaps(s: Ftl, s': Ftl, l: nat)
    requires Rewritten(s, s', l)
    ensures Mapped(s'.maptbl) == Mapped(s.maptbl) + {l}
  {
    forall m | 0 <= m < |s.maptbl| && m != l
      ensures s'.maptbl[m].Some? <==> s.maptbl[m].Some?
    {
      assert KeptAt(s, s', m);
    }
  }

  /** A host write, seen from the state before the overwritten page was invalidated. */
  lemma ProgramRewrites(lay: Layout, s: Ftl, t: Ftl, l: nat, q: Ppa)
    requires l < |s.maptbl| && (t == s || (s.maptbl[l].Some? && CanInvalidate(s, s.maptbl[l].value)
          && t == Unmap(s, l)))
    requires CanFill(lay, t, User, l, q) && CanAdvance(lay, t, User) && (t.free != [] ==> t.free[0] < |t.place|)
    ensures Rewritten(s, Program(lay, t, User, l, q), l)
  {
    var u := Program(lay, t, User, l, q);
    assert u.maptbl == t.maptbl[l := Some(q)];
    forall m | 0 <= m < |s.maptbl| && m != l
      ensures KeptAt(s, u, m)
    {
      assert u.maptbl[m] == s.maptbl[m];
    }
  }

  /** A host write frees no page. */
  lemma ProgramFreesNothing(lay: Layout, s: Ftl, t: Ftl, l: nat, q: Ppa)
    requires l < |s.maptbl| && (t == s || (s.maptbl[l].Some? && CanInvalidate(s, s.maptbl[l].value)
          && t == Unmap(s, l)))
    requires CanFill(lay, t, User, l, q) && CanAdvance(lay, t, User) && (t.free != [] ==> t.free[0] < |t.place|)
    ensures FreesNothing(s, Program(lay, t, User, l, q))
  {
    var u := Program(lay, t, User, l, q);
    assert u.status == t.status[q := Valid];
  }

  ghost predicate FreesNothing(s: Ftl, u: Ftl) {
    u.status.Keys == s.status.Keys && forall p <- s.status | s.status[p] != Free :: u.status[p] != Free
  }

  /** A relocation after a write is still a write: a page that is free later was free before. */
  lemma RewrittenThenRelocated(s: Ftl, u: Ftl, w: Ftl, l: nat)
    requires Rewritten(s, u, l) && Relocated(u, w) && FreesNothing(s, u)
    ensures Rewritten(s, w, l)
  {
    forall m | 0 <= m < |s.maptbl| && m != l
      ensures KeptAt(s, w, m)
    {
      assert KeptAt(s, u, m) && KeptAt(u, w, m);
    }
    assert KeptAt(u, w, l);
  }

  // ----- commands -----

  /** The logical pages from `start` up to but excluding `upto`. */
  ghost function Range(start: nat, upto: nat): (r: set<nat>)
    ensures forall l: nat :: l in r <==> start <= l < upto
  {
    if upto <= start then {} else Range(start, upto - 1) + {upto - 1}
  }

  /** A host command: a write of logical blocks, or a deallocation of ranges of logical blocks. */
  datatype Command = Write(slba: nat, nlb: nat) | Deallocate(ranges: seq<(nat, nat)>)

  function FirstPage(slba: nat, secsPerPg: nat): nat
    requires secsPerPg > 0
  {
    slba / secsPerPg
  }

  function LastPage(slba: nat, nlb: nat, secsPerPg: nat): nat
    requires secsPerPg > 0 && nlb > 0
  {
    (slba + nlb - 1) / secsPerPg
  }

  /** The logical pages a command maps; none when the range check rejects it. */
  ghost function Writes(c: Command, logical: nat, secsPerPg: nat): set<nat>
    requires secsPerPg > 0
  {
    if c.Write? then CoveredBy(c.slba, c.nlb, logical, secsPerPg) else {}
  }

  /** The mapped logical pages after a command. */
  ghost function MappedAfter(mapped: set<nat>, c: Command, logical: nat, secsPerPg: nat): set<nat>
    requires secsPerPg > 0
  {
    match c
    case Write(_, _) => mapped + Writes(c, logical, secsPerPg)
    case Deallocate(ranges) => mapped - Covered(ranges, logical, secsPerPg)
  }

  ghost function MappedAfterAll(mapped: set<nat>, cmds: seq<Command>, logical: nat, secsPerPg: nat): set<nat>
    requires secsPerPg > 0
  {
    if cmds == [] then mapped else
    var n := |cmds| - 1;
    MappedAfter(MappedAfterAll(mapped, cmds[..n], logical, secsPerPg), cmds[n], logical, secsPerPg)
  }

  /** How many pages a command writes, and how many a run does. */
  ghost function PagesWritten(c: Command, logical: nat, secsPerPg: nat): int
    requires secsPerPg > 0
  {
    if c.Write? && c.nlb > 0 && LastPage(c.slba, c.nlb, secsPerPg) < logical then
      LastPage(c.slba, c.nlb, secsPerPg) - FirstPage(c.slba, secsPerPg) + 1
    else
      0
  }

  ghost function PagesWrittenByAll(cmds: seq<Command>, logical: nat, secsPerPg: nat): int
    requires secsPerPg > 0
  {
    if cmds == [] then 0 else
    var n := |cmds| - 1;
    PagesWrittenByAll(cmds[..n], logical, secsPerPg) + PagesWritten(cmds[n], logical, secsPerPg)
  }

  /** At every command, the pages mapped by then and those it writes stay within the bound. */
  ghost predicate StaysBounded(lay: Layout, mapped: set<nat>, cmds: seq<Command>, secsPerPg: nat)
    requires secsPerPg > 0
  {
    forall i | 0 <= i < |cmds| ::
      Bounded(lay, MappedAfterAll(mapped, cmds[..i], lay.logical, secsPerPg) + Writes(cmds[i], lay.logical, secsPerPg))
  }

  /** A run that only ever writes pages of one bounded set stays bounded. */
  lemma FootprintStaysBounded(lay: Layout, mapped: set<nat>, cmds: seq<Command>, secsPerPg: nat, footprint: set<nat>)
    requires secsPerPg > 0 && mapped <= footprint && Bounded(lay, footprint)
    requires forall i | 0 <= i < |cmds| :: Writes(cmds[i], lay.logical, secsPerPg) <= footprint
    ensures StaysBounded(lay, mapped, cmds, secsPerPg)
  {
    forall i | 0 <= i < |cmds|
      ensures Bounded(lay, MappedAfterAll(mapped, cmds[..i], lay.logical, secsPerPg)
                           + Writes(cmds[i], lay.logical, secsPerPg))
    {
      MappedWithin(mapped, cmds[..i], lay.logical, secsPerPg, footprint);
      var soFar := MappedAfterAll(mapped, cmds[..i], lay.logical, secsPerPg);
      BoundedSubset(lay, soFar + Writes(cmds[i], lay.logical, secsPerPg), footprint);
    }
  }

  lemma {:induction false} MappedWithin(mapped: set<nat>, cmds: seq<Command>, logical: nat, secsPerPg: nat,
      footprint: set<nat>)
    requires secsPerPg > 0 && mapped <= footprint
    requires forall i | 0 <= i < |cmds| :: Writes(cmds[i], logical, secsPerPg) <= footprint
    ensures MappedAfterAll(mapped, cmds, logical, secsPerPg) <= footprint
  {
    if cmds != [] {
      MappedWithin(mapped, cmds[..|cmds| - 1], logical, secsPerPg, footprint);
    }
  }

  /** The logical pages that the first ranges of a deallocation cover, out-of-range and empty ranges excepted. */
  ghost function Covered(ranges: seq<(nat, nat)>, logical: nat, secsPerPg: nat): set<nat>
    requires secsPerPg > 0
  {
    if ranges == [] then {} else
    var n := |ranges| - 1;
    Covered(ranges[..n], logical, secsPerPg) + CoveredBy(ranges[n].0, ranges[n].1, logical, secsPerPg)
  }

  ghost function CoveredBy(slba: nat, nlb: nat, logical: nat, secsPerPg: nat): set<nat>
    requires secsPerPg > 0
  {
    if nlb == 0 || LastPage(slba, nlb, secsPerPg) >= logical then {}
    else Range(FirstPage(slba, secsPerPg), LastPage(slba, nlb, secsPerPg) + 1)
  }

  // ----- commands in terms of logical blocks -----

  /** Logical block `b` lies in logical page `l`. */
  predicate InPage(b: nat, l: nat, secsPerPg: nat) {
    l * secsPerPg <= b < (l + 1) * secsPerPg
  }

  /** The range lies inside the device and has a logical block in page `l`. */
  ghost predicate Reaches(slba: nat, nlb: nat, l: nat, logical: nat, secsPerPg: nat) {
    slba + nlb <= logical * secsPerPg && exists b: nat | slba <= b < slba + nlb :: InPage(b, l, secsPerPg)
  }

  /** The range check lets through exactly the ranges that lie inside the device. */
  lemma AcceptedExactly(slba: nat, nlb: nat, logical: nat, secsPerPg: nat)
    requires secsPerPg > 0 && nlb > 0
    ensures LastPage(slba, nlb, secsPerPg) < logical <==> slba + nlb <= logical * secsPerPg
  {
    QuotientIs(slba + nlb - 1, secsPerPg, logical);
  }

  /** The covered pages are exactly those with a logical block of the range. */
  lemma CoveredExactly(slba: nat, nlb: nat, logical: nat, secsPerPg: nat)
    requires secsPerPg > 0
    ensures forall l: nat ::
              l in CoveredBy(slba, nlb, logical, secsPerPg) <==> Reaches(slba, nlb, l, logical, secsPerPg)
  {
    forall l: nat
      ensures l in CoveredBy(slba, nlb, logical, secsPerPg) <==> Reaches(slba, nlb, l, logical, secsPerPg)
    {
      if nlb > 0 {
        AcceptedExactly(slba, nlb, logical, secsPerPg);
        PageHasBlock(slba, nlb, l, secsPerPg);
      }
    }
  }

  lemma PageHasBlock(slba: nat, nlb: nat, l: nat, secsPerPg: nat)
    requires secsPerPg > 0 && nlb > 0
    ensures FirstPage(slba, secsPerPg) <= l <= LastPage(slba, nlb, secsPerPg)
            <==> exists b: nat | slba <= b < slba + nlb :: InPage(b, l, secsPerPg)
  {
    var start, end := l * secsPerPg, (l + 1) * secsPerPg;
    assert end == start + secsPerPg;
    QuotientIs(slba, secsPerPg, l + 1);
    QuotientIs(slba + nlb - 1, secsPerPg, l);
    if slba < end && start <= slba + nlb - 1 {
      var b := if slba <= start then start else slba;
      assert InPage(b, l, secsPerPg);
    }
  }

  /** One of the ranges reaches page `l`. */
  ghost predicate SomeReaches(ranges: seq<(nat, nat)>, l: nat, logical: nat, secsPerPg: nat) {
    exists i | 0 <= i < |ranges| :: Reaches(ranges[i].0, ranges[i].1, l, logical, secsPerPg)
  }

  lemma {:induction false} CoveredByRanges(ranges: seq<(nat, nat)>, logical: nat, secsPerPg: nat)
    requires secsPerPg > 0
    ensures forall l: nat :: l in Covered(ranges, logical, secsPerPg) <==> SomeReaches(ranges, l, logical, secsPerPg)
  {
    hide Reaches, CoveredBy;
    if ranges != [] {
      var n := |ranges| - 1;
      CoveredByRanges(ranges[..n], logical, secsPerPg);
      CoveredExactly(ranges[n].0, ranges[n].1, logical, secsPerPg);
      forall l: nat
        ensures SomeReaches(ranges, l, logical, secsPerPg)
                <==> SomeReaches(ranges[..n], l, logical, secsPerPg)
                     || Reaches(ranges[n].0, ranges[n].1, l, logical, secsPerPg)
      {
        OneMoreRange(ranges, l, logical, secsPerPg);
      }
    }
  }

  lemma OneMoreRange(ranges: seq<(nat, nat)>, l: nat, logical: nat, secsPerPg: nat)
    requires ranges != []
    ensures var n := |ranges| - 1;
            SomeReaches(ranges, l, logical, secsPerPg)
            <==> SomeReaches(ranges[..n], l, logical, secsPerPg)
                 || Reaches(ranges[n].0, ranges[n].1, l, logical, secsPerPg)
  {
    hide Reaches;
    var n := |ranges| - 1;
    if i :| 0 <= i < n && Reaches(ranges[..n][i].0, ranges[..n][i].1, l, logical, secsPerPg) {
      assert Reaches(ranges[i].0, ranges[i].1, l, logical, secsPerPg);
    }
    if i :| 0 <= i < n && Reaches(ranges[i].0, ranges[i].1, l, logical, secsPerPg) {
      assert Reaches(ranges[..n][i].0, ranges[..n][i].1, l, logical, secsPerPg);
    }
  }

  /** The command writes, or deallocates, page `l`. */
  ghost predicate Fills(c: Command, l: nat, logical: nat, secsPerPg: nat) {
    c.Write? && Reaches(c.slba, c.nlb, l, logical, secsPerPg)
  }

  ghost predicate Empties(c: Command, l: nat, logical: nat, secsPerPg: nat) {
    c.Deallocate? && SomeReaches(c.ranges, l, logical, secsPerPg)
  }

  lemma CommandDecides(mapped: set<nat>, c: Command, logical: nat, secsPerPg: nat, l: nat)
    requires secsPerPg > 0
    ensures l in MappedAfter(mapped, c, logical, secsPerPg)
            <==> Fills(c, l, logical, secsPerPg) || (l in mapped && !Empties(c, l, logical, secsPerPg))
  {
    hide Reaches, SomeReaches, CoveredBy, Covered;
    match c
    case Write(slba, nlb) => CoveredExactly(slba, nlb, logical, secsPerPg);
    case Deallocate(ranges) => CoveredByRanges(ranges, logical, secsPerPg);
  }

  /** Command `i` fills page `l` and no later one empties it. */
  ghost predicate LastFills(cmds: seq<Command>, i: nat, l: nat, logical: nat, secsPerPg: nat)
    requires i < |cmds|
  {
    Fills(cmds[i], l, logical, secsPerPg) && NoneEmpties(cmds, i + 1, l, logical, secsPerPg)
  }

  ghost predicate NoneEmpties(cmds: seq<Command>, from: nat, l: nat, logical: nat, secsPerPg: nat) {
    forall j | from <= j < |cmds| :: !Empties(cmds[j], l, logical, secsPerPg)
  }

  /**
   After a run, page `l` is mapped exactly when some write reached it and no later deallocation did, or when it was
   mapped before and no deallocation reached it.
   */
  lemma {:induction false} LastCommandDecides(mapped: set<nat>, cmds: seq<Command>, logical: nat, secsPerPg: nat,
      l: nat)
    requires secsPerPg > 0
    ensures l in MappedAfterAll(mapped, cmds, logical, secsPerPg)
            <==> (exists i | 0 <= i < |cmds| :: LastFills(cmds, i, l, logical, secsPerPg))
                 || (l in mapped && NoneEmpties(cmds, 0, l, logical, secsPerPg))
  {
    hide Fills, Empties, MappedAfter;
    if cmds != [] {
      var n := |cmds| - 1;
      LastCommandDecides(mapped, cmds[..n], logical, secsPerPg, l);
      CommandDecides(MappedAfterAll(mapped, cmds[..n], logical, secsPerPg), cmds[n], logical, secsPerPg, l);
      if Fills(cmds[n], l, logical, secsPerPg) {
        assert LastFills(cmds, n, l, logical, secsPerPg);
      }
      if i :| 0 <= i < n && LastFills(cmds, i, l, logical, secsPerPg) {
        assert LastFills(cmds[..n], i, l, logical, secsPerPg);
      }
      if i :| 0 <= i < n && LastFills(cmds[..n], i, l, logical, secsPerPg)
              && !Empties(cmds[n], l, logical, secsPerPg) {
        assert LastFills(cmds, i, l, logical, secsPerPg);
      }
    }
  }

  /** The host count grows by the number of pages a command fills. */
  lemma PagesWrittenExactly(c: Command, logical: nat, secsPerPg: nat)
    requires secsPerPg > 0
    ensures PagesWritten(c, logical, secsPerPg) == |Writes(c, logical, secsPerPg)|
    ensures forall l: nat :: l in Writes(c, logical, secsPerPg) <==> Fills(c, l, logical, secsPerPg)
  {
    hide Reaches;
    if c.Write? {
      CoveredExactly(c.slba, c.nlb, logical, secsPerPg);
      if c.nlb > 0 {
        QuotientIs(c.slba, secsPerPg, LastPage(c.slba, c.nlb, secsPerPg) + 1);
        QuotientIs(c.slba + c.nlb - 1, secsPerPg, LastPage(c.slba, c.nlb, secsPerPg));
        RangeSize(FirstPage(c.slba, secsPerPg), LastPage(c.slba, c.nlb, secsPerPg) + 1);
      }
    }
  }

  lemma {:induction false} RangeSize(start: nat, upto: nat)
    requires start <= upto
    ensures |Range(start, upto)| == upto - start
  {
    if start < upto {
      RangeSize(start, upto - 1);
      assert upto - 1 !in Range(start, upto - 1);
    }
  }

  lemma UnmapUnmaps(s: Ftl, l: nat)
    requires l < |s.maptbl| && s.maptbl[l].Some? && CanInvalidate(s, s.maptbl[l].value)
    ensures Mapped(Unmap(s, l).maptbl) == Mapped(s.maptbl) - {l}
  {
  }

  // ----- the space invariant -----

  /** One credit has been spent: the balance still holds, and a refill may be due. */
  ghost predicate Balanced(lay: Layout, s: Ftl, credits: nat, refill: nat) {
    && Clean(lay.perLine, s) - credits >= 2 * lay.perLine
    && credits <= lay.perLine && 1 <= refill <= lay.perLine
  }

  /** The bound on mapped logical pages under which collection always finds a victim. */
  ghost predicate Bounded(lay: Layout, mapped: set<nat>) {
    |mapped| < (lay.lines - 4) * lay.perLine
  }

  lemma BoundedSubset(lay: Layout, a: set<nat>, b: set<nat>)
    requires a <= b && Bounded(lay, b)
    ensures Bounded(lay, a)
  {
    SubsetSize(a, b);
  }

  /** A fresh device meets the space invariant. */
  lemma FreshHasSpace(lay: Layout, s: Ftl)
    requires Fresh(lay, s) && lay.lines >= 3
    ensures SpaceOk(lay, s, lay.perLine, lay.perLine)
    ensures Mapped(s.maptbl) == {}
  {
    MulMonoInt(1, lay.lines - 2, lay.perLine);
  }

  /** The write step of the credit argument: one clean page and one credit are spent together. */
  lemma WriteKeepsBalance(lay: Layout, s: Ftl, t: Ftl, l: nat, q: Ppa, credits: nat, refill: nat)
    requires SpaceOk(lay, s, credits, refill)
    requires l < |s.maptbl| && (t == s || (s.maptbl[l].Some? && CanInvalidate(s, s.maptbl[l].value)
          && t == Unmap(s, l)))
    requires t.user.done < lay.perLine
    ensures CanAdvance(lay, t, User)
    ensures CanFill(lay, t, User, l, q) && (t.free != [] ==> t.free[0] < |t.place|) ==>
              Balanced(lay, Program(lay, t, User, l, q), credits - 1, refill)
  {
    if t != s {
      UnmapKeepsSpace(lay, s, l);
    }
    SpaceMeansFreeLine(lay, t, credits, refill);
    if CanFill(lay, t, User, l, q) && (t.free != [] ==> t.free[0] < |t.place|) {
      ProgramUsesOnePage(lay, t, l, q);
    }
  }

  // ----- why the bound is needed -----

  /** Logical pages 0..n-1 have been written once each, and nothing else has happened. */
  ghost predicate Filling(lay: Layout, s: Ftl, n: nat) {
    && Idle(lay, s) && s.victims == {} && s.gc.done == 0
    && (forall b | 0 <= b < |s.ipc| :: s.ipc[b] == 0)
    && |s.free| * lay.perLine + (lay.perLine - s.user.done) + n == (lay.lines - 1) * lay.perLine
    && (forall l | 0 <= l < |s.maptbl| :: s.maptbl[l].Some? <==> l < n)
  }

  lemma FreshIsFilling(lay: Layout, s: Ftl)
    requires Fresh(lay, s)
    ensures Filling(lay, s, 0)
  {
    hide Inv;
    FreshInv(lay, s);
    assert (lay.lines - 1) * lay.perLine == (lay.lines - 2) * lay.perLine + lay.perLine;
  }

  /** No page is ever invalid, so no line becomes a victim, and the line that fills last has no successor. */
  lemma FillingStep(lay: Layout, s: Ftl, n: nat, q: Ppa)
    requires Filling(lay, s, n) && n < |s.maptbl| && IsNext(lay, s, User, q)
    ensures CanFill(lay, s, User, n, q) && (s.free != [] ==> s.free[0] < |s.place|)
    ensures CanAdvance(lay, s, User) <==> n + 1 < (lay.lines - 1) * lay.perLine
    ensures CanAdvance(lay, s, User) ==> Filling(lay, Program(lay, s, User, n, q), n + 1)
  {
    hide Inv, CanFill, Program;
    FillingRoom(lay, s, n);
    NextPageIsFree(lay, s, None, {}, User, n, q);
    FillingRange(lay, s);
    if CanAdvance(lay, s, User) {
      ProgramKeepsInv(lay, s, None, {}, User, n, q);
      FillingCounts(lay, s, n, q);
    }
  }

  lemma FillingRange(lay: Layout, s: Ftl)
    requires Idle(lay, s)
    ensures s.free != [] ==> s.free[0] < |s.place|
  {
    assert LinesOk(lay, s, None, {});
    FreeLineInRange(lay, s, None);
  }

  lemma FillingRoom(lay: Layout, s: Ftl, n: nat)
    requires Filling(lay, s, n)
    ensures CanAdvance(lay, s, User) <==> n + 1 < (lay.lines - 1) * lay.perLine
  {
    hide Inv;
    LinesNotFull(lay, s);
    if s.free != [] {
      MulMonoInt(1, |s.free|, lay.perLine);
    }
  }

  lemma LinesNotFull(lay: Layout, s: Ftl)
    requires Idle(lay, s)
    ensures 0 < lay.perLine && s.user.done < lay.perLine && s.gc.done < lay.perLine
  {
    assert OpenOk(lay, s) && LinesOk(lay, s, None, {});
  }

  lemma FillingCounts(lay: Layout, s: Ftl, n: nat, q: Ppa)
    requires Filling(lay, s, n) && n < |s.maptbl| && CanFill(lay, s, User, n, q) && CanAdvance(lay, s, User)
    requires s.free != [] ==> s.free[0] < |s.place|
    ensures var u := Program(lay, s, User, n, q);
            && u.victims == {} && u.gc.done == 0 && u.ipc == s.ipc && u.maptbl == s.maptbl[n := Some(q)]
            && |u.free| * lay.perLine + (lay.perLine - u.user.done) + n + 1 == (lay.lines - 1) * lay.perLine
  {
    hide Inv;
    LinesNotFull(lay, s);
    if s.user.done + 1 == lay.perLine {
      LastPageFillsLine(lay, s);
      assert |s.free| * lay.perLine == (|s.free| - 1) * lay.perLine + lay.perLine;
    }
  }

  lemma LastPageFillsLine(lay: Layout, s: Ftl)
    requires Idle(lay, s) && s.user.done + 1 == lay.perLine
    requires forall b | 0 <= b < |s.ipc| :: s.ipc[b] == 0
    ensures s.user.line < |s.vpc| && s.vpc[s.user.line] + 1 == lay.perLine
  {
    hide TablesOk, LevelOk, CountOk, ConserveOk, StaleOk;
    assert LinesOk(lay, s, None, {});
    assert s.place[s.user.line] == UserOpen;
  }
}
