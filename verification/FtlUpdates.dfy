/** Each update of the translation layer keeps the invariant. */
module FtlUpdates {
  import opened Wrappers
  import opened Geometry
  import opened Sets
  import opened FtlState

  // ----- counting -----

  lemma InUpdate(status: map<Ppa, Status>, p: Ppa, x: Status, b: nat, y: Status)
    requires p in status
    ensures In(status[p := x], b, y) ==
            if p.blk != b then In(status, b, y)
            else if y == x then In(status, b, y) + {p}
            else In(status, b, y) - {p}
  {
  }

  lemma InBlkUpdate(status: map<Ppa, Status>, p: Ppa, x: Status, k: Blk, y: Status)
    requires p in status
    ensures InBlk(status[p := x], k, y) ==
            if BlkOf(p) != k then InBlk(status, k, y)
            else if y == x then InBlk(status, k, y) + {p}
            else InBlk(status, k, y) - {p}
  {
  }

  lemma {:induction false} SumUpdate(s: seq<nat>, i: nat, x: nat)
    requires i < |s|
    ensures Sum(s[i := x]) + s[i] == Sum(s) + x
  {
    if i == 0 {
      assert s[0 := x][1..] == s[1..];
    } else {
      assert s[i := x][1..] == s[1..][i - 1 := x];
      SumUpdate(s[1..], i - 1, x);
    }
  }

  lemma {:induction false} WithoutOk(s: seq<nat>, x: nat)
    requires Distinct(s)
    ensures Distinct(Without(s, x))
    ensures forall y :: y in Without(s, x) <==> y in s && y != x
    ensures |Without(s, x)| == if x in s then |s| - 1 else |s|
  {
    if s != [] && s[0] != x {
      var t := s[1..];
      assert Distinct(t);
      WithoutOk(t, x);
      assert forall y :: y in s <==> y == s[0] || y in t;
      assert s[0] !in t;
      var r := Without(t, x);
      assert Without(s, x) == [s[0]] + r;
      assert s[0] !in r;
    } else if s != [] {
      assert forall y :: y in s <==> y == s[0] || y in s[1..];
    }
  }

  // ----- one logical page loses its physical page (conv_discard, and the first half of a page write) -----

  /** The page that logical page `l` occupies becomes invalid, and both maps forget it. */
  ghost function Unmap(s: Ftl, l: nat): Ftl
    requires l < |s.maptbl| && s.maptbl[l].Some?
    requires CanInvalidate(s, s.maptbl[l].value)
  {
    var p := s.maptbl[l].value;
    MarkInvalid(s, p).(rmap := s.rmap[p := None], maptbl := s.maptbl[l := None])
  }

  /** The assertions of mark_page_invalid. */
  ghost predicate CanInvalidate(s: Ftl, p: Ppa) {
    && p in s.status && s.status[p] == Valid
    && BlkOf(p) in s.blkVpc && BlkOf(p) in s.blkIpc && s.blkVpc[BlkOf(p)] > 0
    && p.blk < |s.vpc| && |s.ipc| == |s.vpc| == |s.place| && s.vpc[p.blk] > 0
  }

  lemma MappedPageCanBeInvalidated(lay: Layout, s: Ftl, l: nat)
    requires Idle(lay, s) && l < |s.maptbl| && s.maptbl[l].Some?
    ensures CanInvalidate(s, s.maptbl[l].value)
  {
    hide LevelOk, SumOk, ConserveOk, PlaceOk, BlkOk, CountOk, MapOk;
    var p := s.maptbl[l].value;
    assert LinesOk(lay, s, None, {});
    MappedPage(s.maptbl, s.rmap, s.status, l);
    InSomePlace(lay, s, p.blk);
    BlockHasPage(s.status, s.blkVpc, s.blkIpc, p);
    LineHasPage(s, p);
  }

  lemma MappedPage(maptbl: seq<Option<Ppa>>, rmap: map<Ppa, Option<nat>>, status: map<Ppa, Status>, l: nat)
    requires MapOk(maptbl, rmap, status, {}) && l < |maptbl| && maptbl[l].Some?
    ensures maptbl[l].value in status && status[maptbl[l].value] == Valid
  {
  }

  lemma InSomePlace(lay: Layout, s: Ftl, b: nat)
    requires PlaceOk(lay.lines, s, None) && SumOk(lay, s) && lay.Ok() && LevelOk(lay, s)
    ensures |s.vpc| == |s.ipc| == |s.place| == lay.lines
    ensures b < lay.lines ==> s.place[b] != Collecting
    ensures forall p <- s.status :: p.blk < lay.lines
  {
  }

  lemma BlockHasPage(status: map<Ppa, Status>, blkVpc: map<Blk, nat>, blkIpc: map<Blk, nat>, p: Ppa)
    requires BlkOk(status, blkVpc, blkIpc) && p in status && status[p] == Valid
    ensures BlkOf(p) in blkVpc && BlkOf(p) in blkIpc && blkVpc[BlkOf(p)] > 0
  {
    assert p in InBlk(status, BlkOf(p), Valid);
  }

  lemma LineHasPage(s: Ftl, p: Ppa)
    requires |s.vpc| == |s.ipc| == |s.place| && CountOk(s) && p in s.status && s.status[p] == Valid
    requires p.blk < |s.place| && s.place[p.blk] != Collecting
    ensures s.vpc[p.blk] > 0
  {
    assert p in In(s.status, p.blk, Valid);
  }

  /** The fields that forgetting a page changes. */
  lemma UnmapShape(s: Ftl, l: nat)
    requires l < |s.maptbl| && s.maptbl[l].Some? && CanInvalidate(s, s.maptbl[l].value)
    ensures var p, s' := s.maptbl[l].value, Unmap(s, l);
            var k := BlkOf(p);
            s'.status == s.status[p := Invalid] && s'.user == s.user && s'.gc == s.gc
            && s'.place == (if s.place[p.blk] == InFull then s.place[p.blk := InVictims] else s.place)
            && s'.maptbl == s.maptbl[l := None] && s'.rmap == s.rmap[p := None]
            && s'.blkVpc == s.blkVpc[k := s.blkVpc[k] - 1] && s'.blkIpc == s.blkIpc[k := s.blkIpc[k] + 1]
  {
  }

  lemma UnmapMap(maptbl: seq<Option<Ppa>>, rmap: map<Ppa, Option<nat>>, status: map<Ppa, Status>, l: nat)
    requires MapOk(maptbl, rmap, status, {})
    requires l < |maptbl| && maptbl[l].Some?
    ensures var p := maptbl[l].value;
            MapOk(maptbl[l := None], rmap[p := None], status[p := Invalid], {})
  {
  }

  lemma UnmapPlace(lay: Layout, s: Ftl, l: nat)
    requires l < |s.maptbl| && s.maptbl[l].Some? && CanInvalidate(s, s.maptbl[l].value)
    requires PlaceOk(lay.lines, s, None)
    ensures PlaceOk(lay.lines, Unmap(s, l), None)
  {
    WithoutOk(s.full, s.maptbl[l].value.blk);
  }

  lemma UnmapLevel(lay: Layout, s: Ftl, l: nat)
    requires l < |s.maptbl| && s.maptbl[l].Some? && CanInvalidate(s, s.maptbl[l].value)
    requires lay.Ok() && |s.place| == lay.lines && LevelOk(lay, s)
    ensures |Unmap(s, l).place| == lay.lines && LevelOk(lay, Unmap(s, l))
  {
    hide Unmap;
    UnmapShape(s, l);
    var s' := Unmap(s, l);
    forall q <- s'.status | s'.place[q.blk] != Collecting
      ensures s'.status[q] == Free <==> Level(lay.perLine, s'.place[q.blk], s'.user, s'.gc) <= lay.rank[q]
    {
      assert Level(lay.perLine, s'.place[q.blk], s.user, s.gc) == Level(lay.perLine, s.place[q.blk], s.user, s.gc);
    }
  }

  lemma UnmapSum(lay: Layout, s: Ftl, l: nat)
    requires l < |s.maptbl| && s.maptbl[l].Some? && CanInvalidate(s, s.maptbl[l].value)
    requires PlaceOk(lay.lines, s, None) && SumOk(lay, s)
    ensures SumOk(lay, Unmap(s, l))
  {
  }

  lemma UnmapCount(s: Ftl, l: nat)
    requires l < |s.maptbl| && s.maptbl[l].Some? && CanInvalidate(s, s.maptbl[l].value)
    requires CountOk(s)
    ensures CountOk(Unmap(s, l))
  {
    var p, s' := s.maptbl[l].value, Unmap(s, l);
    forall b | 0 <= b < |s.place| && s'.place[b] != Collecting
      ensures s'.vpc[b] == |In(s'.status, b, Valid)| && s'.ipc[b] == |In(s'.status, b, Invalid)|
    {
      InUpdate(s.status, p, Invalid, b, Valid);
      InUpdate(s.status, p, Invalid, b, Invalid);
    }
  }

  lemma UnmapBlk(status: map<Ppa, Status>, blkVpc: map<Blk, nat>, blkIpc: map<Blk, nat>, p: Ppa)
    requires BlkOk(status, blkVpc, blkIpc) && p in status && status[p] == Valid && blkVpc[BlkOf(p)] > 0
    ensures var k := BlkOf(p);
            BlkOk(status[p := Invalid], blkVpc[k := blkVpc[k] - 1], blkIpc[k := blkIpc[k] + 1])
  {
    var status' := status[p := Invalid];
    var vpc', ipc' := blkVpc[BlkOf(p) := blkVpc[BlkOf(p)] - 1], blkIpc[BlkOf(p) := blkIpc[BlkOf(p)] + 1];
    forall k <- vpc'
      ensures vpc'[k] == |InBlk(status', k, Valid)| && ipc'[k] == |InBlk(status', k, Invalid)|
    {
      InBlkUpdate(status, p, Invalid, k, Valid);
      InBlkUpdate(status, p, Invalid, k, Invalid);
    }
  }

  lemma UnmapConserve(lay: Layout, s: Ftl, l: nat)
    requires l < |s.maptbl| && s.maptbl[l].Some? && CanInvalidate(s, s.maptbl[l].value)
    requires ConserveOk(lay.perLine, s, None, {})
    ensures ConserveOk(lay.perLine, Unmap(s, l), None, {})
  {
    var b := s.maptbl[l].value.blk;
    SumUpdate(s.vpc, b, s.vpc[b] - 1);
    SumUpdate(s.ipc, b, s.ipc[b] + 1);
  }

  lemma UnmapTables(s: Ftl, l: nat)
    requires TablesOk(s, {}) && l < |s.maptbl| && s.maptbl[l].Some? && CanInvalidate(s, s.maptbl[l].value)
    ensures TablesOk(Unmap(s, l), {})
  {
    hide Unmap, MapOk, BlkOk, CanInvalidate;
    MappedPage(s.maptbl, s.rmap, s.status, l);
    Invalidatable(s, s.maptbl[l].value);
    UnmapShape(s, l);
    UnmapMap(s.maptbl, s.rmap, s.status, l);
    UnmapBlk(s.status, s.blkVpc, s.blkIpc, s.maptbl[l].value);
  }

  lemma Invalidatable(s: Ftl, p: Ppa)
    requires CanInvalidate(s, p)
    ensures BlkOf(p) in s.blkVpc && BlkOf(p) in s.blkIpc && s.blkVpc[BlkOf(p)] > 0
  {
  }

  lemma UnmapLines(lay: Layout, s: Ftl, l: nat)
    requires LinesOk(lay, s, None, {}) && l < |s.maptbl| && s.maptbl[l].Some? && CanInvalidate(s, s.maptbl[l].value)
    ensures LinesOk(lay, Unmap(s, l), None, {})
  {
    UnmapPlace(lay, s, l);
    UnmapLevel(lay, s, l);
    UnmapSum(lay, s, l);
    UnmapCount(s, l);
    UnmapConserve(lay, s, l);
  }

  /** Forgetting a mapped page keeps the invariant. */
  lemma UnmapKeepsInv(lay: Layout, s: Ftl, l: nat)
    requires Idle(lay, s) && l < |s.maptbl| && s.maptbl[l].Some?
    ensures CanInvalidate(s, s.maptbl[l].value)
    ensures Idle(lay, Unmap(s, l))
  {
    MappedPageCanBeInvalidated(lay, s, l);
    UnmapTables(s, l);
    UnmapLines(lay, s, l);
  }

  // ----- one logical page is written at a write pointer -----

  /** What a page write needs of the state; the first clauses are the assertions of the source. */
  ghost predicate CanFill(lay: Layout, s: Ftl, io: Io, l: nat, q: Ppa) {
    && l < |s.maptbl|
    && q in s.status && s.status[q] == Free
    && q.blk < |s.vpc| && s.vpc[q.blk] < lay.perLine
    && BlkOf(q) in s.blkVpc && IsNext(lay, s, io, q)
    && |s.vpc| == |s.place| && |s.ipc| == |s.place|
    && s.place[q.blk] == (if io == User then UserOpen else GcOpen)
  }

  /** The page at the write pointer is free and its line has room, so mark_page_valid never asserts. */
  lemma NextPageIsFree(lay: Layout, s: Ftl, victim: Option<nat>, stale: set<Ppa>, io: Io, l: nat, q: Ppa)
    requires Inv(lay, s, victim, stale) && l < |s.maptbl| && IsNext(lay, s, io, q)
    ensures CanFill(lay, s, io, l, q) && q !in stale && victim != Some(q.blk)
  {
    assert LinesOk(lay, s, victim, stale);
    NextPageStatus(lay, s, victim, io, q);
  }

  lemma NextPageStatus(lay: Layout, s: Ftl, victim: Option<nat>, io: Io, q: Ppa)
    requires lay.Ok() && PlaceOk(lay.lines, s, victim) && LevelOk(lay, s) && SumOk(lay, s) && OpenOk(lay, s)
          && IsNext(lay, s, io, q)
    ensures q in s.status && s.status[q] == Free && s.vpc[q.blk] < lay.perLine
    ensures s.place[q.blk] == (if io == User then UserOpen else GcOpen)
  {
  }

  ghost function StaleAfter(s: Ftl, stale: set<Ppa>, l: nat): set<Ppa>
    requires l < |s.maptbl|
  {
    if s.maptbl[l].Some? then stale + {s.maptbl[l].value} else stale
  }

  lemma FillMap(maptbl: seq<Option<Ppa>>, rmap: map<Ppa, Option<nat>>, status: map<Ppa, Status>, stale: set<Ppa>,
      l: nat, q: Ppa)
    requires MapOk(maptbl, rmap, status, stale)
    requires l < |maptbl| && q in status && status[q] == Free && q !in stale
    ensures var stale' := if maptbl[l].Some? then stale + {maptbl[l].value} else stale;
            MapOk(maptbl[l := Some(q)], rmap[q := Some(l)], status[q := Valid], stale')
  {
  }

  lemma FillBlk(status: map<Ppa, Status>, blkVpc: map<Blk, nat>, blkIpc: map<Blk, nat>, q: Ppa)
    requires BlkOk(status, blkVpc, blkIpc) && q in status && status[q] == Free
    ensures BlkOk(status[q := Valid], blkVpc[BlkOf(q) := blkVpc[BlkOf(q)] + 1], blkIpc)
  {
    forall k <- blkVpc
      ensures blkVpc[BlkOf(q) := blkVpc[BlkOf(q)] + 1][k] == |InBlk(status[q := Valid], k, Valid)|
      ensures blkIpc[k] == |InBlk(status[q := Valid], k, Invalid)|
    {
      FillBlkAt(status, q, k);
    }
  }

  lemma FillBlkAt(status: map<Ppa, Status>, q: Ppa, k: Blk)
    requires q in status && status[q] == Free
    ensures |InBlk(status[q := Valid], k, Valid)| == |InBlk(status, k, Valid)| + (if k == BlkOf(q) then 1 else 0)
    ensures |InBlk(status[q := Valid], k, Invalid)| == |InBlk(status, k, Invalid)|
  {
    InBlkUpdate(status, q, Valid, k, Valid);
    InBlkUpdate(status, q, Valid, k, Invalid);
    assert q !in InBlk(status, k, Valid) && q !in InBlk(status, k, Invalid);
  }

  lemma FillTables(lay: Layout, s: Ftl, stale: set<Ppa>, io: Io, l: nat, q: Ppa)
    requires TablesOk(s, stale) && CanFill(lay, s, io, l, q) && q !in stale
    ensures TablesOk(Fill(s, io, l, q), StaleAfter(s, stale, l))
  {
    FillMap(s.maptbl, s.rmap, s.status, stale, l, q);
    FillBlk(s.status, s.blkVpc, s.blkIpc, q);
  }

  /** The fields of the levels that writing a page changes. */
  lemma FillShape(lay: Layout, s: Ftl, io: Io, l: nat, q: Ppa)
    requires CanFill(lay, s, io, l, q)
    ensures var s', o := Fill(s, io, l, q), OpenLine(q.blk, lay.rank[q] + 1);
            s'.status == s.status[q := Valid] && s'.place == s.place
            && s'.user == (if io == User then o else s.user) && s'.gc == (if io == User then s.gc else o)
            && s.Open(io) == OpenLine(q.blk, lay.rank[q])
  {
  }

  lemma FillLevel(lay: Layout, s: Ftl, victim: Option<nat>, io: Io, l: nat, q: Ppa)
    requires lay.Ok() && PlaceOk(lay.lines, s, victim) && LevelOk(lay, s) && OpenOk(lay, s) && CanFill(lay, s, io, l, q)
    ensures LevelOk(lay, Fill(s, io, l, q))
  {
    hide Fill, Level;
    FillShape(lay, s, io, l, q);
    var s' := Fill(s, io, l, q);
    forall p <- s'.status | s'.place[p.blk] != Collecting
      ensures s'.status[p] == Free <==> Level(lay.perLine, s'.place[p.blk], s'.user, s'.gc) <= lay.rank[p]
    {
      FillLevelAt(lay, s, victim, io, l, q, p);
    }
  }

  lemma FillLevelAt(lay: Layout, s: Ftl, victim: Option<nat>, io: Io, l: nat, q: Ppa, p: Ppa)
    requires lay.Ok() && PlaceOk(lay.lines, s, victim) && LevelOk(lay, s) && CanFill(lay, s, io, l, q)
    requires p in s.status && s.place[p.blk] != Collecting
    ensures var s' := Fill(s, io, l, q);
            s'.status[p] == Free <==> Level(lay.perLine, s'.place[p.blk], s'.user, s'.gc) <= lay.rank[p]
  {
    hide Fill;
    assert s.status[p] == Free <==> Level(lay.perLine, s.place[p.blk], s.user, s.gc) <= lay.rank[p];
    FillLevelOf(lay, s, victim, io, l, q, p.blk);
    if p.blk == q.blk && p != q {
      RanksDiffer(lay, p, q);
    }
  }

  /** Only the line at the write pointer reaches a new level. */
  lemma FillLevelOf(lay: Layout, s: Ftl, victim: Option<nat>, io: Io, l: nat, q: Ppa, b: nat)
    requires PlaceOk(lay.lines, s, victim) && CanFill(lay, s, io, l, q) && b < lay.lines
    ensures var s' := Fill(s, io, l, q);
            s'.place == s.place && s'.status == s.status[q := Valid]
            && Level(lay.perLine, s.place[b], s'.user, s'.gc)
               == Level(lay.perLine, s.place[b], s.user, s.gc) + (if b == q.blk then 1 else 0)
    ensures Level(lay.perLine, s.place[q.blk], s.user, s.gc) == lay.rank[q]
  {
    hide Fill;
    FillShape(lay, s, io, l, q);
  }

  lemma RanksDiffer(lay: Layout, p: Ppa, q: Ppa)
    requires lay.Ok() && p in lay.rank && q in lay.rank && p.blk == q.blk && p != q
    ensures lay.rank[p] != lay.rank[q]
  {
  }

  lemma FillSum(lay: Layout, s: Ftl, victim: Option<nat>, io: Io, l: nat, q: Ppa)
    requires PlaceOk(lay.lines, s, victim) && SumOk(lay, s) && CanFill(lay, s, io, l, q)
    ensures SumOk(lay, Fill(s, io, l, q))
  {
  }

  lemma FillCount(lay: Layout, s: Ftl, io: Io, l: nat, q: Ppa)
    requires CanFill(lay, s, io, l, q) && CountOk(s)
    ensures CountOk(Fill(s, io, l, q))
  {
    var s' := Fill(s, io, l, q);
    forall b | 0 <= b < |s.place| && s'.place[b] != Collecting
      ensures s'.vpc[b] == |In(s'.status, b, Valid)| && s'.ipc[b] == |In(s'.status, b, Invalid)|
    {
      InUpdate(s.status, q, Valid, b, Valid);
      InUpdate(s.status, q, Valid, b, Invalid);
    }
  }

  lemma FillConserve(lay: Layout, s: Ftl, victim: Option<nat>, stale: set<Ppa>, io: Io, l: nat, q: Ppa)
    requires ConserveOk(lay.perLine, s, victim, stale) && CanFill(lay, s, io, l, q)
    requires MapOk(s.maptbl, s.rmap, s.status, stale)
    requires victim != Some(q.blk)
    requires io == Gc <==> s.maptbl[l].Some?
    requires s.maptbl[l].Some? ==> victim == Some(s.maptbl[l].value.blk)
    ensures ConserveOk(lay.perLine, Fill(s, io, l, q), victim, StaleAfter(s, stale, l))
  {
    hide MapOk, In;
    SumUpdate(s.vpc, q.blk, s.vpc[q.blk] + 1);
    FillPending(s.maptbl, s.rmap, s.status, victim, stale, l, q);
  }

  /** Copying a page of the victim settles that page and no other. */
  lemma FillPending(maptbl: seq<Option<Ppa>>, rmap: map<Ppa, Option<nat>>, status: map<Ppa, Status>,
                    victim: Option<nat>, stale: set<Ppa>, l: nat, q: Ppa)
    requires MapOk(maptbl, rmap, status, stale) && l < |maptbl| && q in status && victim != Some(q.blk)
    requires maptbl[l].Some? ==> victim == Some(maptbl[l].value.blk)
    ensures var stale' := if maptbl[l].Some? then stale + {maptbl[l].value} else stale;
            |Pending(status[q := Valid], victim, stale')| + (if maptbl[l].Some? then 1 else 0)
            == |Pending(status, victim, stale)|
  {
    if victim.Some? {
      InUpdate(status, q, Valid, victim.value, Valid);
    }
    if maptbl[l].Some? {
      var p := maptbl[l].value;
      assert p in Pending(status, victim, stale);
      assert Pending(status[q := Valid], victim, stale + {p}) == Pending(status, victim, stale) - {p};
    }
  }

  lemma FillPlace(lay: Layout, s: Ftl, victim: Option<nat>, io: Io, l: nat, q: Ppa)
    requires PlaceOk(lay.lines, s, victim) && CanFill(lay, s, io, l, q)
    ensures PlaceOk(lay.lines, Fill(s, io, l, q), victim)
  {
  }

  lemma FillStale(lay: Layout, s: Ftl, victim: Option<nat>, stale: set<Ppa>, io: Io, l: nat, q: Ppa)
    requires StaleOk(s.status, victim, stale) && MapOk(s.maptbl, s.rmap, s.status, stale) && CanFill(lay, s, io, l, q)
    requires s.maptbl[l].Some? ==> victim == Some(s.maptbl[l].value.blk)
    ensures StaleOk(Fill(s, io, l, q).status, victim, StaleAfter(s, stale, l))
  {
  }

  lemma FillLines(lay: Layout, s: Ftl, victim: Option<nat>, stale: set<Ppa>, io: Io, l: nat, q: Ppa)
    requires LinesOk(lay, s, victim, stale) && OpenOk(lay, s) && MapOk(s.maptbl, s.rmap, s.status, stale)
    requires CanFill(lay, s, io, l, q) && victim != Some(q.blk)
    requires io == Gc <==> s.maptbl[l].Some?
    requires s.maptbl[l].Some? ==> victim == Some(s.maptbl[l].value.blk)
    ensures LinesOk(lay, Fill(s, io, l, q), victim, StaleAfter(s, stale, l))
  {
    FillPlace(lay, s, victim, io, l, q);
    FillLevel(lay, s, victim, io, l, q);
    FillSum(lay, s, victim, io, l, q);
    FillCount(lay, s, io, l, q);
    FillConserve(lay, s, victim, stale, io, l, q);
    FillStale(lay, s, victim, stale, io, l, q);
  }

  /** What closing a line needs: the line is used up and another one is free. */
  ghost predicate CanClose(lay: Layout, s: Ftl, io: Io) {
    && s.Open(io).done == lay.perLine && s.free != [] && s.free[0] < |s.place|
    && s.Open(io).line < |s.place| && |s.vpc| == |s.place|
  }

  lemma TailOk(s: seq<nat>)
    requires s != [] && Distinct(s)
    ensures Distinct(s[1..])
    ensures forall b :: b in s[1..] <==> b in s && b != s[0]
  {
    assert forall b :: b in s <==> b == s[0] || b in s[1..];
  }

  lemma AppendOk(s: seq<nat>, x: nat)
    requires Distinct(s) && x !in s
    ensures Distinct(s + [x])
    ensures forall b :: b in s + [x] <==> b in s || b == x
  {
  }

  /** The fields that closing a used-up line changes. */
  lemma CloseShape(lay: Layout, s: Ftl, io: Io)
    requires CanClose(lay, s, io)
    ensures var s', b, n := Close(lay, s, io), s.Open(io).line, s.free[0];
            var isFull := s.vpc[b] == lay.perLine;
            s'.place == s.place[b := if isFull then InFull else InVictims][n := if io == User then UserOpen else GcOpen]
            && s'.free == s.free[1..] && s'.full == (if isFull then s.full + [b] else s.full)
            && s'.victims == (if isFull then s.victims else s.victims + {b})
            && s'.user == (if io == User then OpenLine(n, 0) else s.user)
            && s'.gc == (if io == User then s.gc else OpenLine(n, 0))
            && s'.vpc == s.vpc && s'.ipc == s.ipc && s'.status == s.status
  {
  }

  lemma ClosePlace(lay: Layout, s: Ftl, victim: Option<nat>, io: Io)
    requires PlaceOk(lay.lines, s, victim) && CanClose(lay, s, io)
    ensures PlaceOk(lay.lines, Close(lay, s, io), victim)
  {
    hide Close, Distinct;
    CloseShape(lay, s, io);
    CloseMembers(lay, s, victim, io);
    var s' := Close(lay, s, io);
    forall b | 0 <= b < lay.lines
      ensures (b in s'.free <==> s'.place[b] == InFree) && (b in s'.full <==> s'.place[b] == InFull)
      ensures (b in s'.victims <==> s'.place[b] == InVictims) && (victim == Some(b) <==> s'.place[b] == Collecting)
      ensures (b == s'.user.line <==> s'.place[b] == UserOpen) && (b == s'.gc.line <==> s'.place[b] == GcOpen)
    {
    }
  }

  lemma CloseMembers(lay: Layout, s: Ftl, victim: Option<nat>, io: Io)
    requires PlaceOk(lay.lines, s, victim) && CanClose(lay, s, io)
    ensures var s', b, n := Close(lay, s, io), s.Open(io).line, s.free[0];
            Distinct(s'.free) && Distinct(s'.full) && n < lay.lines && b < lay.lines && n != b
            && (forall x :: x in s'.free <==> x in s.free && x != n)
            && (forall x :: x in s'.full <==> x in s.full || (s.vpc[b] == lay.perLine && x == b))
  {
    hide Close;
    CloseShape(lay, s, io);
    assert s.free[0] in s.free;
    TailOk(s.free);
    AppendOk(s.full, s.Open(io).line);
  }

  lemma CloseLevel(lay: Layout, s: Ftl, victim: Option<nat>, io: Io)
    requires lay.Ok() && PlaceOk(lay.lines, s, victim) && LevelOk(lay, s) && CanClose(lay, s, io)
    ensures LevelOk(lay, Close(lay, s, io))
  {
    hide Close;
    CloseShape(lay, s, io);
    assert s.free[0] in s.free;
    var s' := Close(lay, s, io);
    forall p <- s'.status | s'.place[p.blk] != Collecting
      ensures s'.status[p] == Free <==> Level(lay.perLine, s'.place[p.blk], s'.user, s'.gc) <= lay.rank[p]
    {
      CloseLevelAt(lay, s, victim, io, p.blk);
    }
  }

  lemma CloseLevelAt(lay: Layout, s: Ftl, victim: Option<nat>, io: Io, b: nat)
    requires PlaceOk(lay.lines, s, victim) && CanClose(lay, s, io) && b < lay.lines
    ensures var s' := Close(lay, s, io);
            && (s'.place[b] == Collecting <==> s.place[b] == Collecting)
            && Level(lay.perLine, s'.place[b], s'.user, s'.gc) == Level(lay.perLine, s.place[b], s.user, s.gc)
  {
    hide Close;
    CloseShape(lay, s, io);
    assert s.free[0] in s.free;
  }

  lemma CloseSum(lay: Layout, s: Ftl, victim: Option<nat>, io: Io)
    requires lay.Ok() && PlaceOk(lay.lines, s, victim) && SumOk(lay, s) && CanClose(lay, s, io)
    ensures SumOk(lay, Close(lay, s, io))
  {
    hide Close;
    CloseShape(lay, s, io);
    assert s.free[0] in s.free;
  }

  lemma CloseCount(lay: Layout, s: Ftl, victim: Option<nat>, io: Io)
    requires PlaceOk(lay.lines, s, victim) && CanClose(lay, s, io) && |s.ipc| == |s.vpc| && CountOk(s)
    ensures CountOk(Close(lay, s, io))
  {
    hide Close;
    CloseShape(lay, s, io);
    assert s.free[0] in s.free;
  }

  lemma CloseLines(lay: Layout, s: Ftl, victim: Option<nat>, stale: set<Ppa>, io: Io)
    requires LinesOk(lay, s, victim, stale) && CanClose(lay, s, io)
    ensures LinesOk(lay, Close(lay, s, io), victim, stale)
  {
    ClosePlace(lay, s, victim, io);
    CloseLevel(lay, s, victim, io);
    CloseSum(lay, s, victim, io);
    CloseCount(lay, s, victim, io);
  }

  /**
   Writing a page keeps the invariant: for the host when the logical page is unmapped, for garbage
   collection when it still sits in the victim, where its old page becomes stale.
   */
  lemma ProgramKeepsInv(lay: Layout, s: Ftl, victim: Option<nat>, stale: set<Ppa>, io: Io, l: nat, q: Ppa)
    requires Inv(lay, s, victim, stale) && l < |s.maptbl|
    requires IsNext(lay, s, io, q) && CanAdvance(lay, s, io)
    requires io == Gc <==> s.maptbl[l].Some?
    requires s.maptbl[l].Some? ==> victim == Some(s.maptbl[l].value.blk)
    ensures CanFill(lay, s, io, l, q) && (s.free != [] ==> s.free[0] < |s.place|)
    ensures Inv(lay, Program(lay, s, io, l, q), victim, StaleAfter(s, stale, l))
  {
    NextPageIsFree(lay, s, victim, stale, io, l, q);
    FreeLineInRange(lay, s, victim);
    FillTables(lay, s, stale, io, l, q);
    FillLines(lay, s, victim, stale, io, l, q);
    CloseKeepsInv(lay, Fill(s, io, l, q), victim, StaleAfter(s, stale, l), io);
  }

  lemma CloseKeepsInv(lay: Layout, s: Ftl, victim: Option<nat>, stale: set<Ppa>, io: Io)
    requires TablesOk(s, stale) && LinesOk(lay, s, victim, stale)
    requires s.Open(if io == User then Gc else User).done < lay.perLine
    requires s.Open(io).done == lay.perLine ==> CanClose(lay, s, io)
    ensures Inv(lay, Close(lay, s, io), victim, stale)
  {
    if s.Open(io).done == lay.perLine {
      CloseLines(lay, s, victim, stale, io);
    }
  }

  lemma FreeLineInRange(lay: Layout, s: Ftl, victim: Option<nat>)
    requires PlaceOk(lay.lines, s, victim)
    ensures s.free != [] ==> s.free[0] < |s.place|
  {
    if s.free != [] {
      assert s.free[0] in s.free;
    }
  }

  // ----- a fresh device -----

  /** Nothing written: line 0 is open for the host, line 1 for garbage collection, the rest are free in order. */
  ghost predicate Fresh(lay: Layout, s: Ftl) {
    && lay.Ok() && lay.lines >= 2
    && |s.maptbl| == lay.logical && (forall l | 0 <= l < |s.maptbl| :: s.maptbl[l] == None)
    && s.status.Keys == lay.rank.Keys == s.rmap.Keys && (forall p <- s.status :: s.status[p] == Free)
    && s.blkVpc.Keys == s.blkIpc.Keys && (forall p <- s.status :: BlkOf(p) in s.blkVpc)
    && (forall k <- s.blkVpc :: s.blkVpc[k] == 0 && s.blkIpc[k] == 0)
    && |s.vpc| == lay.lines && |s.ipc| == lay.lines && |s.place| == lay.lines
    && (forall b | 0 <= b < lay.lines :: s.vpc[b] == 0 && s.ipc[b] == 0)
    && (forall b | 0 <= b < lay.lines :: s.place[b] == if b == 0 then UserOpen else if b == 1 then GcOpen else InFree)
    && s.user == OpenLine(0, 0) && s.gc == OpenLine(1, 0) && s.full == [] && s.victims == {}
    && |s.free| == lay.lines - 2 && (forall i | 0 <= i < |s.free| :: s.free[i] == i + 2)
    && s.host == 0 && s.copied == 0 && s.collections == 0 && s.victimVpcSum == 0 && s.discarded == 0
  }

  lemma {:induction false} SumZero(s: seq<nat>)
    requires forall i | 0 <= i < |s| :: s[i] == 0
    ensures Sum(s) == 0
  {
    if s != [] {
      SumZero(s[1..]);
    }
  }

  lemma FreshPlace(lay: Layout, s: Ftl)
    requires Fresh(lay, s)
    ensures PlaceOk(lay.lines, s, None)
  {
    forall b: nat
      ensures b in s.free <==> 2 <= b < lay.lines
    {
      if 2 <= b < lay.lines {
        assert s.free[b - 2] == b;
      }
    }
  }

  lemma FreshCounts(lay: Layout, s: Ftl)
    requires Fresh(lay, s)
    ensures CountOk(s) && BlkOk(s.status, s.blkVpc, s.blkIpc) && ConserveOk(lay.perLine, s, None, {})
  {
    forall b, x | x != Free
      ensures In(s.status, b, x) == {}
    {
    }
    forall k, x | x != Free
      ensures InBlk(s.status, k, x) == {}
    {
    }
    SumZero(s.vpc);
    SumZero(s.ipc);
  }

  lemma FreshInv(lay: Layout, s: Ftl)
    requires Fresh(lay, s)
    ensures Idle(lay, s)
  {
    FreshPlace(lay, s);
    FreshCounts(lay, s);
    FreshLevels(lay, s);
  }

  lemma FreshLevels(lay: Layout, s: Ftl)
    requires Fresh(lay, s)
    ensures LevelOk(lay, s) && SumOk(lay, s) && OpenOk(lay, s) && MapOk(s.maptbl, s.rmap, s.status, {})
  {
  }
}
