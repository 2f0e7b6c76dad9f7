/** What the invariant of the translation layer says about its five views between commands. */
module FtlFacts {
  import opened Wrappers
  import opened Geometry
  import opened Sets
  import opened FtlState
  import opened FtlUpdates
  import opened FtlSpace

  /** A page is valid exactly when a logical page maps to it; the reverse map names it, and no two share a page. */
  lemma MappingIsExact(lay: Layout, s: Ftl)
    requires Idle(lay, s)
    ensures forall p <- s.status :: s.status[p] == Valid <==> exists l :: 0 <= l < |s.maptbl| && s.maptbl[l] == Some(p)
    ensures forall l | 0 <= l < |s.maptbl| && s.maptbl[l].Some? ::
              s.maptbl[l].value in s.rmap && s.rmap[s.maptbl[l].value] == Some(l)
    ensures forall l, m | 0 <= l < m < |s.maptbl| && s.maptbl[l].Some? :: s.maptbl[l] != s.maptbl[m]
  {
    hide LinesOk, BlkOk;
    assert MapOk(s.maptbl, s.rmap, s.status, {});
    forall p <- s.status
      ensures s.status[p] == Valid <==> exists l :: 0 <= l < |s.maptbl| && s.maptbl[l] == Some(p)
    {
      if s.status[p] == Valid {
        assert s.maptbl[s.rmap[p].value] == Some(p);
      }
    }
  }

  /** In how many of the five places a line is. */
  ghost function Places(s: Ftl, b: nat): nat {
    (if b in s.free then 1 else 0) + (if b in s.full then 1 else 0) + (if b in s.victims then 1 else 0)
    + (if b == s.user.line then 1 else 0) + (if b == s.gc.line then 1 else 0)
  }

  /** Every line is in exactly one place, and its place fixes its counters. */
  lemma LineCounters(lay: Layout, s: Ftl, b: nat)
    requires Idle(lay, s) && b < lay.lines
    ensures |s.vpc| == |s.ipc| == lay.lines && Places(s, b) == 1
    ensures b in s.free ==> s.vpc[b] == 0 && s.ipc[b] == 0
    ensures b in s.full ==> s.vpc[b] == lay.perLine && s.ipc[b] == 0
    ensures b in s.victims ==> s.ipc[b] > 0 && s.vpc[b] + s.ipc[b] == lay.perLine
    ensures b == s.user.line ==> s.vpc[b] + s.ipc[b] == s.user.done < lay.perLine
    ensures b == s.gc.line ==> s.vpc[b] + s.ipc[b] == s.gc.done < lay.perLine
    ensures s.vpc[b] == |In(s.status, b, Valid)| && s.ipc[b] == |In(s.status, b, Invalid)|
  {
    assert LinesOk(lay, s, None, {}) && OpenOk(lay, s);
    assert s.place[b] != Collecting;
  }

  // ----- line counters are the sums of block counters -----

  ghost function SumLuns(blk: map<Blk, nat>, b: nat, ch: nat, n: nat): nat {
    if n == 0 then 0 else
    SumLuns(blk, b, ch, n - 1) + (if Blk(ch, n - 1, b) in blk then blk[Blk(ch, n - 1, b)] else 0)
  }

  ghost function SumChannels(blk: map<Blk, nat>, b: nat, luns: nat, n: nat): nat {
    if n == 0 then 0 else SumChannels(blk, b, luns, n - 1) + SumLuns(blk, b, n - 1, luns)
  }

  ghost function InChannel(status: map<Ppa, Status>, b: nat, x: Status, ch: nat, luns: nat): set<Ppa> {
    set p | p in status && p.blk == b && status[p] == x && p.ch == ch && p.lun < luns
  }

  ghost function InChannels(status: map<Ppa, Status>, b: nat, x: Status, luns: nat, chs: nat): set<Ppa> {
    set p | p in status && p.blk == b && status[p] == x && p.ch < chs && p.lun < luns
  }

  ghost predicate Counts(status: map<Ppa, Status>, blk: map<Blk, nat>, x: Status) {
    && (forall p <- status :: BlkOf(p) in blk)
    && (forall k <- blk :: blk[k] == |InBlk(status, k, x)|)
  }

  lemma {:induction false} LunSum(status: map<Ppa, Status>, blk: map<Blk, nat>, x: Status, b: nat, ch: nat, luns: nat)
    requires Counts(status, blk, x)
    ensures SumLuns(blk, b, ch, luns) == |InChannel(status, b, x, ch, luns)|
  {
    hide InChannel, InBlk;
    if luns == 0 {
      OneMoreLun(status, b, x, ch, 0);
    } else {
      LunSum(status, blk, x, b, ch, luns - 1);
      OneMoreLun(status, b, x, ch, luns - 1);
      NoSuchBlock(status, blk, Blk(ch, luns - 1, b), x);
    }
  }

  lemma OneMoreLun(status: map<Ppa, Status>, b: nat, x: Status, ch: nat, luns: nat)
    ensures |InChannel(status, b, x, ch, luns + 1)|
            == |InChannel(status, b, x, ch, luns)| + |InBlk(status, Blk(ch, luns, b), x)|
    ensures |InChannel(status, b, x, ch, 0)| == 0
  {
    var left, right := InChannel(status, b, x, ch, luns), InBlk(status, Blk(ch, luns, b), x);
    assert InChannel(status, b, x, ch, luns + 1) == left + right;
    DisjointSize(left, right);
    assert InChannel(status, b, x, ch, 0) == {};
  }

  lemma DisjointSize(a: set<Ppa>, b: set<Ppa>)
    requires a !! b
    ensures |a + b| == |a| + |b|
  {
  }

  lemma NoSuchBlock(status: map<Ppa, Status>, blk: map<Blk, nat>, k: Blk, x: Status)
    requires Counts(status, blk, x)
    ensures |InBlk(status, k, x)| == if k in blk then blk[k] else 0
  {
    if k !in blk {
      assert InBlk(status, k, x) == {};
    }
  }

  lemma {:induction false} ChannelSum(status: map<Ppa, Status>, blk: map<Blk, nat>, x: Status, b: nat, luns: nat,
      chs: nat)
    requires Counts(status, blk, x)
    ensures SumChannels(blk, b, luns, chs) == |InChannels(status, b, x, luns, chs)|
  {
    hide InChannel, InChannels, Counts;
    if chs == 0 {
      OneMoreChannel(status, b, x, luns, 0);
    } else {
      ChannelSum(status, blk, x, b, luns, chs - 1);
      LunSum(status, blk, x, b, chs - 1, luns);
      OneMoreChannel(status, b, x, luns, chs - 1);
    }
  }

  lemma OneMoreChannel(status: map<Ppa, Status>, b: nat, x: Status, luns: nat, chs: nat)
    ensures |InChannels(status, b, x, luns, chs + 1)|
            == |InChannels(status, b, x, luns, chs)| + |InChannel(status, b, x, chs, luns)|
    ensures |InChannels(status, b, x, luns, 0)| == 0
  {
    var left, right := InChannels(status, b, x, luns, chs), InChannel(status, b, x, chs, luns);
    assert InChannels(status, b, x, luns, chs + 1) == left + right;
    DisjointSize(left, right);
    assert InChannels(status, b, x, luns, 0) == {};
  }

  /** A line's counters are the sums of the counters of its blocks, one per channel and LUN. */
  lemma LineIsSumOfBlocks(lay: Layout, s: Ftl, b: nat, chs: nat, luns: nat)
    requires Idle(lay, s) && b < lay.lines && forall p <- s.status :: p.ch < chs && p.lun < luns
    ensures b < |s.vpc| && b < |s.ipc|
    ensures s.vpc[b] == SumChannels(s.blkVpc, b, luns, chs)
    ensures s.ipc[b] == SumChannels(s.blkIpc, b, luns, chs)
  {
    hide Inv, In, InBlk;
    LineCounters(lay, s, b);
    BlockCounts(lay, s);
    ChannelSum(s.status, s.blkVpc, Valid, b, luns, chs);
    ChannelSum(s.status, s.blkIpc, Invalid, b, luns, chs);
    AllChannels(s.status, b, Valid, luns, chs);
    AllChannels(s.status, b, Invalid, luns, chs);
  }

  lemma BlockCounts(lay: Layout, s: Ftl)
    requires Idle(lay, s)
    ensures Counts(s.status, s.blkVpc, Valid) && Counts(s.status, s.blkIpc, Invalid)
  {
    hide LinesOk, MapOk;
    assert BlkOk(s.status, s.blkVpc, s.blkIpc);
  }

  lemma AllChannels(status: map<Ppa, Status>, b: nat, x: Status, luns: nat, chs: nat)
    requires forall p <- status :: p.ch < chs && p.lun < luns
    ensures InChannels(status, b, x, luns, chs) == In(status, b, x)
  {
  }

  // ----- the assertions of the source -----

  ghost function PagesOf(pages: set<Ppa>, k: Blk, n: nat): set<Ppa> {
    set p | p in pages && BlkOf(p) == k && p.pg < n
  }

  lemma {:induction false} BlockSize(g: Geo, k: Blk, n: nat)
    requires k in g.Blocks() && n <= g.PgsPerBlk()
    ensures |PagesOf(g.Pages(), k, n)| == n
  {
    if n == 0 {
      assert PagesOf(g.Pages(), k, 0) == {};
    } else {
      BlockSize(g, k, n - 1);
      var p := Ppa(k.ch, k.lun, k.blk, n - 1);
      g.BlocksAreValid(k);
      g.PagesAreValid(p);
      assert PagesOf(g.Pages(), k, n) == PagesOf(g.Pages(), k, n - 1) + {p};
    }
  }

  /** A block's counters leave room for its free pages. */
  lemma BlockCountersInRange(g: Geo, status: map<Ppa, Status>, blkVpc: map<Blk, nat>, blkIpc: map<Blk, nat>, p: Ppa)
    requires BlkOk(status, blkVpc, blkIpc) && status.Keys == g.Pages() && p in status
    ensures BlkOf(p) in blkVpc && BlkOf(p) in blkIpc
    ensures blkVpc[BlkOf(p)] + blkIpc[BlkOf(p)] + (if status[p] == Free then 1 else 0) <= g.PgsPerBlk()
  {
    hide InBlk, PagesOf;
    var k := BlkOf(p);
    g.PagesAreValid(p);
    g.BlocksAreValid(k);
    BlockSize(g, k, g.PgsPerBlk());
    UsedAndFree(g, status, k, p);
  }

  lemma UsedAndFree(g: Geo, status: map<Ppa, Status>, k: Blk, p: Ppa)
    requires status.Keys == g.Pages() && p in status && k == BlkOf(p)
    ensures |InBlk(status, k, Valid)| + |InBlk(status, k, Invalid)| + (if status[p] == Free then 1 else 0)
            <= |PagesOf(g.Pages(), k, g.PgsPerBlk())|
  {
    var all := PagesOf(g.Pages(), k, g.PgsPerBlk());
    forall q <- status | BlkOf(q) == k
      ensures q in all
    {
      g.PagesAreValid(q);
    }
    var v, i := InBlk(status, k, Valid), InBlk(status, k, Invalid);
    var f := if status[p] == Free then {p} else {};
    DisjointSize(v, i);
    DisjointSize(v + i, f);
    SubsetSize(v + i + f, all);
  }

  /** None of the assertions of mark_page_invalid fires on a valid page. */
  lemma InvalidateAssertionsHold(g: Geo, lay: Layout, s: Ftl, p: Ppa)
    requires Idle(lay, s) && s.status.Keys == g.Pages() && p in s.status && s.status[p] == Valid
    ensures BlkOf(p) in s.blkVpc && BlkOf(p) in s.blkIpc
    ensures s.blkIpc[BlkOf(p)] < g.PgsPerBlk() && 0 < s.blkVpc[BlkOf(p)] <= g.PgsPerBlk()
    ensures p.blk < |s.vpc| == |s.ipc| && s.ipc[p.blk] < lay.perLine && 0 < s.vpc[p.blk] <= lay.perLine
    ensures s.vpc[p.blk] == lay.perLine ==> s.ipc[p.blk] == 0
  {
    hide LevelOk, MapOk, PlaceOk, SumOk, CountOk, ConserveOk, BlkOk;
    assert BlkOk(s.status, s.blkVpc, s.blkIpc) && LinesOk(lay, s, None, {});
    BlockCountersInRange(g, s.status, s.blkVpc, s.blkIpc, p);
    BlockHasPage(s.status, s.blkVpc, s.blkIpc, p);
    InSomePlace(lay, s, p.blk);
    LineHasPage(s, p);
    LevelBounds(lay, s, p.blk);
  }

  lemma LevelBounds(lay: Layout, s: Ftl, b: nat)
    requires |s.place| == lay.lines && lay.Ok() && LevelOk(lay, s) && SumOk(lay, s) && b < lay.lines
    ensures s.vpc[b] + s.ipc[b] <= lay.perLine
  {
  }

  /** None of the assertions of mark_page_valid fires on the page at a write pointer, inside a pass as well. */
  lemma ValidateAssertionsHold(g: Geo, lay: Layout, s: Ftl, victim: Option<nat>, stale: set<Ppa>, io: Io, q: Ppa)
    requires Inv(lay, s, victim, stale) && s.status.Keys == g.Pages() && IsNext(lay, s, io, q)
    ensures q in s.status && s.status[q] == Free
    ensures BlkOf(q) in s.blkVpc && s.blkVpc[BlkOf(q)] < g.PgsPerBlk()
    ensures q.blk < |s.vpc| && s.vpc[q.blk] < lay.perLine
  {
    hide BlkOk, PlaceOk, LevelOk, SumOk, CountOk, ConserveOk, MapOk, StaleOk;
    assert LinesOk(lay, s, victim, stale) && BlkOk(s.status, s.blkVpc, s.blkIpc);
    NextPageStatus(lay, s, victim, io, q);
    NextInRange(lay, s, victim, io, q);
    BlockCountersInRange(g, s.status, s.blkVpc, s.blkIpc, q);
  }

  lemma NextInRange(lay: Layout, s: Ftl, victim: Option<nat>, io: Io, q: Ppa)
    requires PlaceOk(lay.lines, s, victim) && lay.Ok() && SumOk(lay, s) && IsNext(lay, s, io, q)
    ensures q.blk < |s.vpc|
  {
  }

  // ----- pages in use -----

  ghost function AllIn(status: map<Ppa, Status>, from: nat, upto: nat, x: Status): set<Ppa> {
    set p | p in status && from <= p.blk < upto && status[p] == x
  }

  lemma {:induction false} SumCountsPages(status: map<Ppa, Status>, x: Status, c: seq<nat>, from: nat)
    requires forall i | 0 <= i < |c| :: c[i] == |In(status, from + i, x)|
    ensures Sum(c) == |AllIn(status, from, from + |c|, x)|
  {
    hide In, AllIn;
    if c == [] {
      NothingBetween(status, from, x);
    } else {
      var rest := c[1..];
      forall i | 0 <= i < |rest|
        ensures rest[i] == |In(status, from + 1 + i, x)|
      {
        assert rest[i] == c[i + 1] && from + 1 + i == from + (i + 1);
      }
      SumCountsPages(status, x, rest, from + 1);
      assert c[0] == |In(status, from + 0, x)|;
      FirstLineApart(status, from, from + |c|, x);
    }
  }

  lemma NothingBetween(status: map<Ppa, Status>, from: nat, x: Status)
    ensures AllIn(status, from, from, x) == {}
  {
  }

  lemma FirstLineApart(status: map<Ppa, Status>, from: nat, upto: nat, x: Status)
    requires from < upto
    ensures |AllIn(status, from, upto, x)| == |In(status, from, x)| + |AllIn(status, from + 1, upto, x)|
  {
    var first, rest := In(status, from, x), AllIn(status, from + 1, upto, x);
    assert AllIn(status, from, upto, x) == first + rest;
    DisjointSize(first, rest);
  }

  ghost function InUse(status: map<Ppa, Status>): set<Ppa> {
    set p | p in status && status[p] != Free
  }

  /**
   Conservation over all runs: pages written by the host and copied by garbage collection are the pages in
   use plus one line for every collection, and what was copied is what the victims held.
   */
  lemma Conservation(lay: Layout, s: Ftl)
    requires Idle(lay, s)
    ensures s.host + s.copied == |InUse(s.status)| + lay.perLine * s.collections
    ensures s.copied == s.victimVpcSum
  {
    hide TablesOk;
    assert LinesOk(lay, s, None, {});
    PagesInUse(lay, s);
  }

  lemma PagesInUse(lay: Layout, s: Ftl)
    requires lay.Ok() && |s.place| == |s.vpc| == |s.ipc| == lay.lines && CountOk(s) && s.status.Keys == lay.rank.Keys
    requires forall b | 0 <= b < lay.lines :: s.place[b] != Collecting
    ensures Sum(s.vpc) + Sum(s.ipc) == |InUse(s.status)|
  {
    hide In;
    forall b | 0 <= b < lay.lines
      ensures s.vpc[b] == |In(s.status, 0 + b, Valid)| && s.ipc[b] == |In(s.status, 0 + b, Invalid)|
    {
      assert 0 + b == b && s.place[b] != Collecting;
    }
    SumCountsPages(s.status, Valid, s.vpc, 0);
    SumCountsPages(s.status, Invalid, s.ipc, 0);
    InUseIsBoth(lay, s);
  }

  lemma InUseIsBoth(lay: Layout, s: Ftl)
    requires lay.Ok() && s.status.Keys == lay.rank.Keys
    ensures |InUse(s.status)| == |AllIn(s.status, 0, lay.lines, Valid)| + |AllIn(s.status, 0, lay.lines, Invalid)|
  {
    var v, i := AllIn(s.status, 0, lay.lines, Valid), AllIn(s.status, 0, lay.lines, Invalid);
    assert InUse(s.status) == v + i;
  }

  // ----- clean pages -----

  /** Every rank of every line belongs to a page. */
  ghost predicate RanksComplete(lay: Layout, page: map<(nat, nat), Ppa>) {
    forall b, k | 0 <= b < lay.lines && 0 <= k < lay.perLine ::
      (b, k) in page && page[(b, k)] in lay.rank && page[(b, k)].blk == b && lay.rank[page[(b, k)]] == k
  }

  ghost function RankedFrom(lay: Layout, b: nat, k: nat): set<Ppa> {
    set p | p in lay.rank && p.blk == b && lay.rank[p] >= k
  }

  lemma {:induction false} RanksLeft(lay: Layout, page: map<(nat, nat), Ppa>, b: nat, k: nat)
    requires lay.Ok() && RanksComplete(lay, page) && b < lay.lines && k <= lay.perLine
    ensures |RankedFrom(lay, b, k)| == lay.perLine - k
    decreases lay.perLine - k
  {
    if k == lay.perLine {
      assert RankedFrom(lay, b, k) == {};
    } else {
      RanksLeft(lay, page, b, k + 1);
      assert RankedFrom(lay, b, k) == RankedFrom(lay, b, k + 1) + {page[(b, k)]};
    }
  }

  /** What is left of a line is what its counters do not account for: its free pages. */
  lemma FreePagesOfLine(lay: Layout, s: Ftl, page: map<(nat, nat), Ppa>, b: nat)
    requires Idle(lay, s) && RanksComplete(lay, page) && b < lay.lines
    ensures |s.vpc| == |s.ipc| == lay.lines
    ensures |In(s.status, b, Free)| == lay.perLine - s.vpc[b] - s.ipc[b]
  {
    hide TablesOk, CountOk, ConserveOk, RanksComplete, In, RankedFrom;
    assert LinesOk(lay, s, None, {});
    var k := s.vpc[b] + s.ipc[b];
    assert s.place[b] != Collecting && k == Level(lay.perLine, s.place[b], s.user, s.gc);
    assert k <= lay.perLine;
    RanksLeft(lay, page, b, k);
    FreeFrom(lay, s, b, k);
  }

  lemma FreeFrom(lay: Layout, s: Ftl, b: nat, k: nat)
    requires |s.place| == lay.lines && lay.Ok() && LevelOk(lay, s) && b < lay.lines
    requires s.place[b] != Collecting && k == Level(lay.perLine, s.place[b], s.user, s.gc)
    ensures In(s.status, b, Free) == RankedFrom(lay, b, k)
  {
  }

  ghost function FreeIn(status: map<Ppa, Status>, lines: set<nat>): set<Ppa> {
    set p | p in status && p.blk in lines && status[p] == Free
  }

  lemma {:induction false} FreeInLines(status: map<Ppa, Status>, lines: set<nat>, n: nat)
    requires forall b <- lines :: |In(status, b, Free)| == n
    ensures |FreeIn(status, lines)| == |lines| * n
    decreases lines
  {
    hide FreeIn, In;
    if lines == {} {
      NoLines(status);
    } else {
      var b :| b in lines;
      var rest := lines - {b};
      FreeInLines(status, rest, n);
      OneMoreLine(status, lines, b);
      AddOne(|rest|, n);
    }
  }

  lemma NoLines(status: map<Ppa, Status>)
    ensures FreeIn(status, {}) == {}
  {
  }

  lemma OneMoreLine(status: map<Ppa, Status>, lines: set<nat>, b: nat)
    requires b in lines
    ensures |FreeIn(status, lines)| == |FreeIn(status, lines - {b})| + |In(status, b, Free)|
    ensures |lines| == |lines - {b}| + 1
  {
    assert FreeIn(status, lines) == FreeIn(status, lines - {b}) + In(status, b, Free);
    DisjointSize(FreeIn(status, lines - {b}), In(status, b, Free));
  }

  lemma AddOne(k: nat, n: nat)
    ensures (k + 1) * n == k * n + n
  {
  }

  ghost function FreePages(status: map<Ppa, Status>): set<Ppa> {
    set p | p in status && status[p] == Free
  }

  /** The clean pages of the credit argument are the free pages of the device. */
  lemma CleanCountsFreePages(lay: Layout, s: Ftl, page: map<(nat, nat), Ppa>)
    requires Idle(lay, s) && RanksComplete(lay, page)
    ensures Clean(lay.perLine, s) == |FreePages(s.status)|
  {
    hide Inv, In, RanksComplete;
    OpenLines(lay, s);
    forall b | 0 <= b < lay.lines
      ensures b in s.free ==> |In(s.status, b, Free)| == lay.perLine
      ensures b == s.user.line ==> |In(s.status, b, Free)| == lay.perLine - s.user.done
      ensures b == s.gc.line ==> |In(s.status, b, Free)| == lay.perLine - s.gc.done
    {
      LineCounters(lay, s, b);
      FreePagesOfLine(lay, s, page, b);
    }
    FreeInLines(s.status, Of(s.free), lay.perLine);
    FreePagesByLine(lay, s);
  }

  lemma OpenLines(lay: Layout, s: Ftl)
    requires Idle(lay, s)
    ensures s.user.line < lay.lines && s.gc.line < lay.lines && s.user.line != s.gc.line
    ensures (forall b <- s.free :: b < lay.lines) && |Of(s.free)| == |s.free|
  {
    assert LinesOk(lay, s, None, {});
    assert s.place[s.user.line] == UserOpen;
    DistinctSize(s.free);
  }

  lemma FreePagesByLine(lay: Layout, s: Ftl)
    requires Idle(lay, s)
    ensures |FreePages(s.status)| ==
            |FreeIn(s.status, Of(s.free))| + |In(s.status, s.user.line, Free)| + |In(s.status, s.gc.line, Free)|
  {
    hide TablesOk, In, FreeIn, FreePages, Of, LevelOk, PlaceOk, SumOk, CountOk, ConserveOk;
    assert LinesOk(lay, s, None, {});
    FreePagesAreThere(lay, s);
    ThreeWays(s.status, Of(s.free), s.user.line, s.gc.line);
  }

  lemma ThreeWays(status: map<Ppa, Status>, lines: set<nat>, u: nat, g: nat)
    requires u !in lines && g !in lines && u != g
    requires forall p <- status | status[p] == Free :: p.blk in lines || p.blk == u || p.blk == g
    ensures |FreePages(status)| == |FreeIn(status, lines)| + |In(status, u, Free)| + |In(status, g, Free)|
  {
    assert FreePages(status) == FreeIn(status, lines) + In(status, u, Free) + In(status, g, Free);
    assert |FreeIn(status, lines) + In(status, u, Free)| == |FreeIn(status, lines)| + |In(status, u, Free)|;
  }

  lemma FreePagesAreThere(lay: Layout, s: Ftl)
    requires lay.Ok() && PlaceOk(lay.lines, s, None) && LevelOk(lay, s)
    ensures forall p <- s.status | s.status[p] == Free ::
              p.blk in Of(s.free) || p.blk == s.user.line || p.blk == s.gc.line
    ensures s.user.line !in Of(s.free) && s.gc.line !in Of(s.free) && s.user.line != s.gc.line
  {
    assert s.place[s.user.line] == UserOpen && s.place[s.gc.line] == GcOpen;
    assert forall b :: b in Of(s.free) <==> b in s.free;
    forall p <- s.status | s.status[p] == Free
      ensures p.blk in s.free || p.blk == s.user.line || p.blk == s.gc.line
    {
      assert Level(lay.perLine, s.place[p.blk], s.user, s.gc) <= lay.rank[p] < lay.perLine;
    }
  }
}
