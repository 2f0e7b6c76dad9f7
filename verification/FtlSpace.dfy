/**
 Why garbage collection always finds a victim and a write pointer never lacks a free line: the arithmetic
 of clean pages and write credits (should_gc_high, check_and_refill_write_credit, get_next_free_line).
 */
module FtlSpace {
  import opened Wrappers
  import opened Geometry
  import opened FtlState
  import opened FtlUpdates
  import opened FtlPass
  import opened Sets

  // ----- counting lines -----

  /** Lines that are neither free nor open: the full ones and the victims. */
  ghost function Closed(s: Ftl): set<nat> {
    Of(s.full) + s.victims
  }

  /** Free, full, victim and the two open lines are all the lines there are, each counted once. */
  lemma LineCount(lines: nat, s: Ftl)
    requires PlaceOk(lines, s, None)
    ensures |s.free| + |s.full| + |s.victims| + 2 == lines
    ensures |Closed(s)| == lines - 2 - |s.free|
  {
    DistinctSize(s.free);
    DistinctSize(s.full);
    LinePartition(lines, s);
    var fr, fu := Of(s.free), Of(s.full);
    DisjointSizes(fr, fu, s.victims, {s.user.line, s.gc.line});
  }

  lemma DisjointSizes(a: set<nat>, b: set<nat>, c: set<nat>, d: set<nat>)
    requires a !! b !! c !! d
    ensures |a + b + c + d| == |a| + |b| + |c| + |d| && |b + c| == |b| + |c|
  {
    assert |a + b| == |a| + |b|;
    assert |a + b + c| == |a + b| + |c|;
  }

  lemma LinePartition(lines: nat, s: Ftl)
    requires PlaceOk(lines, s, None)
    ensures Of(s.free) !! Of(s.full) !! s.victims !! {s.user.line, s.gc.line}
    ensures Of(s.free) + Of(s.full) + s.victims + {s.user.line, s.gc.line} == Upto(lines)
    ensures s.user.line != s.gc.line
  {
    var fr, fu := Of(s.free), Of(s.full);
    assert s.place[s.user.line] == UserOpen;
    forall b: nat
      ensures b in fr <==> b < lines && s.place[b] == InFree
      ensures b in fu <==> b < lines && s.place[b] == InFull
    {
      assert b in fr <==> b in s.free;
      assert b in fu <==> b in s.full;
    }
    assert forall b: nat | b < lines :: s.place[b] != Collecting;
  }

  // ----- counting valid pages -----

  ghost function ValidIn(status: map<Ppa, Status>, lines: set<nat>): set<Ppa> {
    set p | p in status && p.blk in lines && status[p] == Valid
  }

  ghost function Mapped(maptbl: seq<Option<Ppa>>): set<nat> {
    set l | 0 <= l < |maptbl| && maptbl[l].Some?
  }

  /** Logical pages whose data lies in one of the given lines. */
  ghost function MappedIn(maptbl: seq<Option<Ppa>>, lines: set<nat>): set<nat> {
    set l | 0 <= l < |maptbl| && maptbl[l].Some? && maptbl[l].value.blk in lines
  }

  /** The maps pair the valid pages of any lines with the logical pages stored there. */
  lemma ValidAreMapped(maptbl: seq<Option<Ppa>>, rmap: map<Ppa, Option<nat>>, status: map<Ppa, Status>, lines: set<nat>)
    requires MapOk(maptbl, rmap, status, {})
    ensures |ValidIn(status, lines)| == |MappedIn(maptbl, lines)|
  {
    var pages, lpns := ValidIn(status, lines), MappedIn(maptbl, lines);
    var to := map p | p in pages :: rmap[p].value;
    var from := map l | l in lpns :: maptbl[l].value;
    PairedSize(pages, lpns, to, from);
  }

  lemma {:induction false} PairedSize(a: set<Ppa>, b: set<nat>, f: map<Ppa, nat>, g: map<nat, Ppa>)
    requires a <= f.Keys && b <= g.Keys
    requires forall x <- a :: f[x] in b && g[f[x]] == x
    requires forall y <- b :: g[y] in a && f[g[y]] == y
    ensures |a| == |b|
    decreases a
  {
    if a == {} {
      assert b == {};
    } else {
      var x :| x in a;
      PairedSize(a - {x}, b - {f[x]}, f, g);
    }
  }

  /** Valid pages of lines with at most `n` valid pages each, and whether the bound is met everywhere. */
  lemma {:induction false} ValidInBound(status: map<Ppa, Status>, lines: set<nat>, n: nat)
    requires forall b <- lines :: |In(status, b, Valid)| <= n
    ensures |ValidIn(status, lines)| <= |lines| * n
    ensures |ValidIn(status, lines)| == |lines| * n <==> forall b <- lines :: |In(status, b, Valid)| == n
    decreases lines
  {
    hide ValidIn, In;
    if lines == {} {
      NoneValid(status);
    } else {
      var b :| b in lines;
      var rest := lines - {b};
      ValidInBound(status, rest, n);
      ValidInMore(status, rest, b);
      assert lines == rest + {b};
      assert (|rest| + 1) * n == |rest| * n + n;
    }
  }

  lemma NoneValid(status: map<Ppa, Status>)
    ensures ValidIn(status, {}) == {}
  {
  }

  lemma ValidInMore(status: map<Ppa, Status>, rest: set<nat>, b: nat)
    requires b !in rest
    ensures |ValidIn(status, rest + {b})| == |ValidIn(status, rest)| + |In(status, b, Valid)|
  {
    assert ValidIn(status, rest + {b}) == ValidIn(status, rest) + In(status, b, Valid);
    assert ValidIn(status, rest) !! In(status, b, Valid);
  }

  /**
   Garbage collection has a victim to choose exactly when the closed lines hold fewer mapped logical pages
   than they have room for.
   */
  lemma VictimExistsExactlyWhen(lay: Layout, s: Ftl)
    requires Idle(lay, s)
    ensures s.victims != {} <==> |MappedIn(s.maptbl, Closed(s))| < (lay.lines - 2 - |s.free|) * lay.perLine
  {
    assert LinesOk(lay, s, None, {});
    LineCount(lay.lines, s);
    ClosedCounts(lay, s);
    ValidInBound(s.status, Closed(s), lay.perLine);
    ValidAreMapped(s.maptbl, s.rmap, s.status, Closed(s));
  }

  lemma ClosedCounts(lay: Layout, s: Ftl)
    requires PlaceOk(lay.lines, s, None) && SumOk(lay, s) && CountOk(s)
    ensures forall b <- Closed(s) :: |In(s.status, b, Valid)| <= lay.perLine
    ensures s.victims == {} <==> forall b <- Closed(s) :: |In(s.status, b, Valid)| == lay.perLine
  {
    forall b <- Closed(s)
      ensures |In(s.status, b, Valid)| <= lay.perLine
      ensures |In(s.status, b, Valid)| == lay.perLine <==> b !in s.victims
    {
      assert b in s.full || b in s.victims;
      assert s.place[b] == InFull || s.place[b] == InVictims;
      assert s.vpc[b] + s.ipc[b] == lay.perLine;
    }
    if s.victims != {} {
      var b :| b in s.victims;
      assert b in Closed(s);
    }
  }

  /** With at most two free lines, fewer than (lines - 4) * perLine mapped pages leave a victim. */
  lemma VictimExists(lay: Layout, s: Ftl)
    requires Idle(lay, s) && |s.free| <= 2
    requires |Mapped(s.maptbl)| < (lay.lines - 4) * lay.perLine
    ensures s.victims != {}
  {
    hide Inv, MappedIn, Mapped, Closed;
    VictimExistsExactlyWhen(lay, s);
    MappedInAtMost(s.maptbl, Closed(s));
    MulMonoInt(lay.lines - 4, lay.lines - 2 - |s.free|, lay.perLine);
  }

  lemma MappedInAtMost(maptbl: seq<Option<Ppa>>, lines: set<nat>)
    ensures |MappedIn(maptbl, lines)| <= |Mapped(maptbl)|
  {
    SubsetSize(MappedIn(maptbl, lines), Mapped(maptbl));
  }

  lemma MulMonoInt(a: int, b: int, n: nat)
    requires a <= b
    ensures a * n <= b * n
  {
    assert b * n == a * n + (b - a) * n;
  }

  // ----- credits -----

  /** Pages that can be written without erasing anything. */
  ghost function Clean(perLine: nat, s: Ftl): int {
    |s.free| * perLine + (perLine - s.user.done) + (perLine - s.gc.done)
  }

  /** Between page writes: at least two lines' worth of clean pages beyond the write credits. */
  ghost predicate SpaceOk(lay: Layout, s: Ftl, credits: nat, refill: nat) {
    && Clean(lay.perLine, s) - credits >= 2 * lay.perLine
    && 1 <= credits <= lay.perLine && 1 <= refill <= lay.perLine
  }

  /** Between page writes there is a free line, whichever pointer needs one next. */
  lemma SpaceMeansFreeLine(lay: Layout, s: Ftl, credits: nat, refill: nat)
    requires SpaceOk(lay, s, credits, refill)
    ensures s.free != []
  {
    assert |s.free| == 0 ==> |s.free| * lay.perLine == 0;
  }

  lemma UnmapKeepsSpace(lay: Layout, s: Ftl, l: nat)
    requires l < |s.maptbl| && s.maptbl[l].Some? && CanInvalidate(s, s.maptbl[l].value)
    ensures Clean(lay.perLine, Unmap(s, l)) == Clean(lay.perLine, s)
  {
  }

  /** A host page write uses up one clean page. */
  lemma ProgramUsesOnePage(lay: Layout, s: Ftl, l: nat, q: Ppa)
    requires CanFill(lay, s, User, l, q) && CanAdvance(lay, s, User) && s.user.done < lay.perLine
    requires s.free != [] ==> s.free[0] < |s.place|
    ensures Clean(lay.perLine, Program(lay, s, User, l, q)) == Clean(lay.perLine, s) - 1
  {
    if s.user.done + 1 == lay.perLine {
      assert |s.free| * lay.perLine == (|s.free| - 1) * lay.perLine + lay.perLine;
    }
  }

  /** When the credits are spent there is room to copy any victim, even if the open line fills on the way. */
  lemma RoomForVictim(lay: Layout, s: Ftl, v: nat)
    requires Idle(lay, s) && v in s.victims
    requires Clean(lay.perLine, s) >= 2 * lay.perLine
    ensures v < |s.vpc| && v < |s.ipc|
    ensures Room(lay.perLine, s) > s.vpc[v]
    ensures 1 <= s.ipc[v] <= lay.perLine
  {
    assert LinesOk(lay, s, None, {});
    assert s.place[v] == InVictims;
    assert s.vpc[v] + s.ipc[v] == lay.perLine;
  }

  /** A pass over a victim pays back exactly the credits it grants. */
  lemma CollectionPaysItsCredits(lay: Layout, s: Ftl, s': Ftl, v: nat)
    requires Idle(lay, s) && v in s.victims && v < |s.vpc| && v < |s.ipc|
    requires Clean(lay.perLine, s) >= 2 * lay.perLine
    requires Collected(lay, s, s', v)
    ensures Clean(lay.perLine, s') == Clean(lay.perLine, s) + s.ipc[v]
    ensures SpaceOk(lay, s', s.ipc[v], s.ipc[v])
  {
    RoomForVictim(lay, s, v);
    assert LinesOk(lay, s, None, {});
    assert s.place[v] == InVictims;
    assert s.vpc[v] + s.ipc[v] == lay.perLine;
  }

  /** With three free lines a refill needs no collection. */
  lemma RefillWithoutCollection(lay: Layout, s: Ftl, refill: nat)
    requires Idle(lay, s) && |s.free| >= 3 && 1 <= refill <= lay.perLine
    ensures SpaceOk(lay, s, refill, refill)
  {
    assert OpenOk(lay, s);
    MulMonoInt(3, |s.free|, lay.perLine);
  }
}
