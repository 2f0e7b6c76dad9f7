/**
 The translation layer of conv_ftl.c for one partition, on arrays and lists updated in place.  `View()` is
 its abstract state; every primitive is tied to an update of FtlState, and the invariant is kept by the
 lemmas about those updates.
 */
module ConvFtl {
  import opened Wrappers
  import opened Geometry
  import opened FtlState
  import opened Heap
  import opened FtlUpdates
  import opened FtlCollect
  import opened FtlPass
  import opened FtlSpace
  import opened FtlRuns
  import opened FtlFacts
  import opened LineLists
  import opened GcOrder
  import opened VictimScore
  import opened Sets
  import opened FlashArray
  import opened MapTables
  import opened WritePointers
  import opened LineMgmt

  /** The layout of a geometry: ranks are the steps of the write pointer. */
  ghost function LayoutOf(g: Geo): Layout
    requires g.pgsPerOneshot > 0
  {
    Layout(g.blksPerPl, g.PgsPerLine(), g.TtPgs(), map p | p in g.Pages() :: g.Rank(p.ch, p.lun, p.pg))
  }

  lemma LayoutIsOk(g: Geo)
    requires g.Ok()
    ensures LayoutOf(g).Ok()
  {
    var lay := LayoutOf(g);
    forall p <- lay.rank
      ensures p.blk < lay.lines && lay.rank[p] < lay.perLine
    {
      g.PagesAreValid(p);
      RankBound(g, p.ch, p.lun, p.pg);
    }
    forall p, q | p in lay.rank && q in lay.rank && p.blk == q.blk && lay.rank[p] == lay.rank[q]
      ensures p == q
    {
      g.PagesAreValid(p);
      g.PagesAreValid(q);
      PageAtRank(g, p);
      PageAtRank(g, q);
    }
  }

  /** The write pointer's order misses no page of a line. */
  lemma LayoutIsComplete(g: Geo) returns (page: map<(nat, nat), Ppa>)
    requires g.Ok()
    ensures RanksComplete(LayoutOf(g), page)
  {
    page := map b: nat, k: nat | 0 <= b < g.blksPerPl && 0 <= k < g.PgsPerLine() :: (b, k) := g.PageAt(b, k);
    var lay := LayoutOf(g);
    forall b, k | 0 <= b < lay.lines && 0 <= k < lay.perLine
      ensures (b, k) in page && page[(b, k)] in lay.rank && page[(b, k)].blk == b && lay.rank[page[(b, k)]] == k
    {
      RankOfPageAt(g, b, k);
      g.PagesAreValid(g.PageAt(b, k));
    }
  }

  lemma BlocksOfPages(g: Geo)
    ensures forall p <- g.Pages() :: BlkOf(p) in g.Blocks()
  {
    forall p <- g.Pages()
      ensures BlkOf(p) in g.Blocks()
    {
      g.PagesAreValid(p);
      g.BlocksAreValid(BlkOf(p));
    }
  }

  /** `struct write_flow_control`; both fields are 32-bit counters. */
  class WriteFlow {
    var credits: nat
    var refill: nat

    /** init_write_flow_control */
    constructor (perLine: nat)
      ensures credits == perLine && refill == perLine
    {
      credits, refill := perLine, perLine;
    }
  }

  class ConvFtl {
    const g: Geo
    const policy: Policy
    const flash: Flash
    const tbl: Tables
    const lines: Lines
    const userWp: WritePointer
    const gcWp: WritePointer
    const wfc: WriteFlow
    var host: nat              // host_write_pages
    var copied: nat            // gc_valid_copied
    var collections: nat       // gc_cnt
    var victimVpcSum: nat      // gc_victim_vpc_sum
    var discarded: nat         // dsm_invalidated_pages
    ghost const lay: Layout
    ghost var place: seq<Place>

    ghost function Repr(): set<object> {
      {this, userWp, gcWp} + flash.Repr() + tbl.Repr() + lines.Repr()
    }

    /** The parts fit the geometry and share no storage. */
    ghost predicate Static() {
      && g.Ok() && lay == LayoutOf(g) && PolicyOk(policy)
      && flash.g == g && flash.Shape() && tbl.g == g && tbl.Shape()
      && lines.perLine == g.PgsPerLine() && lines.pq.pri.Length == g.blksPerPl
      && userWp != gcWp
      && wfc !in Repr()
      && {this as object, userWp, gcWp} !! flash.Repr() !! tbl.Repr() !! lines.Repr()
    }

    ghost predicate Wf()
      reads Repr()
    {
      Static() && lines.Valid() && userWp.Valid(g) && gcWp.Valid(g)
    }

    ghost function View(): Ftl
      requires Wf()
      reads Repr()
    {
      Ftl(tbl.maptbl[..], tbl.RmapView(), flash.StatusView(), flash.VpcView(), flash.IpcView(),
          lines.Vpc(), lines.Ipc(), lines.free, lines.full, lines.Victims(),
          OpenLine(userWp.line, userWp.Done(g)), OpenLine(gcWp.line, gcWp.Done(g)),
          place, host, copied, collections, victimVpcSum, discarded)
    }

    /** The slots of the victim heap, also those not in use. */
    ghost function Slots(): seq<nat>
      reads lines.pq.d
    {
      lines.pq.d[..]
    }

    /** The heap has not shrunk below `n`, and the slots not in use are as they were in `before`. */
    ghost predicate SlotsKept(before: seq<nat>, n: int)
      reads lines.pq, lines.pq.d
    {
      && n <= lines.pq.size && |before| == lines.pq.d.Length
      && forall j | lines.pq.size <= j < |before| :: lines.pq.d[j] == before[j]
    }

    ghost predicate Agree(a: seq<nat>, b: seq<nat>, n: int) {
      |a| == |b| && forall j | 0 <= j < |a| && n <= j :: a[j] == b[j]
    }

    lemma SlotsKeptSoFar(before: seq<nat>, n: int)
      requires SlotsKept(before, n)
      ensures n <= lines.pq.size && Agree(before, Slots(), lines.pq.size)
    {
    }

    lemma SlotsKeptOn(before: seq<nat>, n: int, between: seq<nat>, m: int)
      requires n <= m && Agree(before, between, m) && SlotsKept(between, m)
      ensures SlotsKept(before, n)
    {
    }

    lemma SlotsStay()
      ensures SlotsKept(Slots(), lines.pq.size)
    {
    }

    ghost predicate Good(victim: Option<nat>, stale: set<Ppa>)
      reads Repr()
    {
      Wf() && Inv(lay, View(), victim, stale)
    }

    /** The allocations of conv_init_ftl; the first two free lines go to the write pointers. */
    static method Parts(g: Geo) returns (fl: Flash, tb: Tables, lm: Lines, uw: WritePointer, gw: WritePointer)
      requires g.Ok() && g.blksPerPl >= 2
      ensures fresh(fl.Repr()) && fresh(tb.Repr()) && fresh(lm.Repr()) && fresh(uw) && fresh(gw) && uw != gw
      ensures fl.Repr() !! tb.Repr() !! lm.Repr() !! {uw as object, gw}
      ensures fl.g == g && fl.Shape() && tb.g == g && tb.Shape() && lm.Valid()
      ensures lm.perLine == g.PgsPerLine() && lm.pq.pri.Length == g.blksPerPl
      ensures uw.Valid(g) && gw.Valid(g) && uw.line == 0 && gw.line == 1 && uw.Done(g) == 0 && gw.Done(g) == 0
      ensures forall l | 0 <= l < tb.maptbl.Length :: tb.maptbl[l] == None
      ensures forall p <- fl.StatusView() :: fl.StatusView()[p] == Free
      ensures forall k <- fl.VpcView() :: fl.VpcView()[k] == 0 && fl.IpcView()[k] == 0
      ensures forall b | 0 <= b < g.blksPerPl :: lm.Vpc()[b] == 0 && lm.Ipc()[b] == 0
      ensures lm.full == [] && lm.Victims() == {}
      ensures |lm.free| == g.blksPerPl - 2 && forall i | 0 <= i < |lm.free| :: lm.free[i] == i + 2
    {
      FirstRank(g);
      lm := new Lines(g.blksPerPl, g.PgsPerLine());
      var user := lm.NextFree();
      var gc := lm.NextFree();
      uw := new WritePointer(user.value);
      gw := new WritePointer(gc.value);
      tb := new Tables(g);
      fl := new Flash(g);
    }

    /** conv_init_ftl; the source asserts that both write pointers get a line. */
    constructor (g: Geo, policy: Policy)
      requires g.Ok() && PolicyOk(policy) && g.blksPerPl >= 2
      ensures this.g == g && this.policy == policy
      ensures fresh(flash.Repr()) && fresh(tbl.Repr()) && fresh(lines.Repr()) && fresh(userWp) && fresh(gcWp)
            && fresh(wfc)
      ensures Good(None, {}) && Fresh(lay, View())
      ensures wfc.credits == lay.perLine && wfc.refill == lay.perLine
    {
      this.g := g;
      this.policy := policy;
      var fl, tb, lm, uw, gw := Parts(g);
      flash, tbl, lines, userWp, gcWp := fl, tb, lm, uw, gw;
      wfc := new WriteFlow(g.PgsPerLine());
      host, copied, collections, victimVpcSum, discarded := 0, 0, 0, 0, 0;
      lay := LayoutOf(g);
      place := seq(g.blksPerPl, b => if b == 0 then UserOpen else if b == 1 then GcOpen else InFree);
      new;
      assert Static();
      IsFresh();
    }

    lemma IsFresh()
      requires Wf() && g.blksPerPl >= 2
      requires forall l | 0 <= l < tbl.maptbl.Length :: tbl.maptbl[l] == None
      requires forall p <- flash.StatusView() :: flash.StatusView()[p] == Free
      requires forall k <- flash.VpcView() :: flash.VpcView()[k] == 0 && flash.IpcView()[k] == 0
      requires forall b | 0 <= b < g.blksPerPl :: lines.Vpc()[b] == 0 && lines.Ipc()[b] == 0
      requires lines.full == [] && lines.Victims() == {}
      requires |lines.free| == g.blksPerPl - 2 && forall i | 0 <= i < |lines.free| :: lines.free[i] == i + 2
      requires userWp.line == 0 && gcWp.line == 1 && userWp.Done(g) == 0 && gcWp.Done(g) == 0
      requires |place| == g.blksPerPl
      requires forall b | 0 <= b < |place| :: place[b] == if b == 0 then UserOpen else if b == 1 then GcOpen else InFree
      requires host == copied == collections == victimVpcSum == discarded == 0
      ensures Fresh(lay, View()) && Good(None, {})
    {
      LayoutIsOk(g);
      BlocksOfPages(g);
      FreshInv(lay, View());
    }

    // ----- primitives -----

    method InvalidateInFlash(p: Ppa)
      requires Wf() && CanInvalidate(View(), p) && g.ValidPpa(p)
      modifies flash.Repr()
      ensures Wf() && View() == InvalidatePage(old(View()), p)
      ensures SlotsKept(old(Slots()), old(lines.pq.size))
    {
      hide Lines.Valid, Lines.Victims, Tables.RmapView, Flash.StatusView, Flash.VpcView, Flash.IpcView,
          WritePointer.Done;
      flash.InvalidatePage(p);
    }

    method InvalidateInLine(b: nat)
      requires Wf() && b < |View().vpc| == |View().ipc| == |View().place| && View().vpc[b] > 0
      requires View().place[b] == InFull <==> View().vpc[b] == lay.perLine
      requires View().place[b] == InFull ==> b in View().full && b !in View().victims
      modifies lines.Repr(), `place
      ensures Wf() && View() == InvalidateLine(old(View()), b)
      ensures SlotsKept(old(Slots()), old(lines.pq.size))
    {
      hide Tables.RmapView, Flash.StatusView, Flash.VpcView, Flash.IpcView, WritePointer.Done, WritePointer.Valid,
          Geo.Ok, PolicyOk;
      if place[b] == InFull {
        place := place[b := InVictims];
      }
      lines.Invalidate(b);
    }

    /** mark_page_invalid */
    method MarkPageInvalid(p: Ppa)
      requires Wf() && CanInvalidate(View(), p) && g.ValidPpa(p)
      requires View().place[p.blk] == InFull <==> View().vpc[p.blk] == lay.perLine
      requires View().place[p.blk] == InFull ==> p.blk in View().full && p.blk !in View().victims
      modifies Repr()
      ensures Wf() && View() == MarkInvalid(old(View()), p)
      ensures SlotsKept(old(Slots()), old(lines.pq.size))
    {
      hide Wf, View;
      InvalidateInFlash(p);
      InvalidateInLine(p.blk);
    }

    method ValidateInFlash(p: Ppa)
      requires Wf() && g.ValidPpa(p) && p in View().status && View().status[p] == Free && BlkOf(p) in View().blkVpc
      modifies flash.Repr()
      ensures Wf() && View() == ValidatePage(old(View()), p)
      ensures SlotsKept(old(Slots()), old(lines.pq.size))
    {
      hide Lines.Valid, Lines.Victims, Tables.RmapView, Flash.StatusView, Flash.VpcView, Flash.IpcView,
          WritePointer.Done;
      flash.ValidatePage(p);
    }

    method CountValidInLine(b: nat)
      requires Wf() && b < |View().vpc| && b !in View().victims
      modifies lines.Repr()
      ensures Wf() && View() == CountValid(old(View()), b)
      ensures SlotsKept(old(Slots()), old(lines.pq.size))
    {
      lines.CountValid(b);
    }

    /** mark_page_valid */
    method MarkPageValid(p: Ppa)
      requires Wf() && g.ValidPpa(p) && p in View().status && View().status[p] == Free
      requires BlkOf(p) in View().blkVpc && p.blk < |View().vpc| && p.blk !in View().victims
      modifies Repr()
      ensures Wf() && View() == MarkValid(old(View()), p)
      ensures SlotsKept(old(Slots()), old(lines.pq.size))
    {
      hide Wf, View;
      ValidateInFlash(p);
      CountValidInLine(p.blk);
    }

    /** set_maptbl_ent, set_rmap_ent */
    method SetMaps(l: nat, q: Ppa)
      requires Wf() && l < |View().maptbl| && g.ValidPpa(q)
      modifies tbl.Repr()
      ensures Wf() && View() == Link(old(View()), l, q)
      ensures SlotsKept(old(Slots()), old(lines.pq.size))
    {
      tbl.SetMaptbl(l, Some(q));
      tbl.SetRmap(q, Some(l));
    }

    method StepPointer(io: Io) returns (lineFull: bool)
      requires Wf()
      modifies userWp, gcWp
      ensures Wf()
      ensures SlotsKept(old(Slots()), old(lines.pq.size))
      ensures old(View()).Open(io).done < lay.perLine
      ensures lineFull <==> old(View()).Open(io).done + 1 == lay.perLine
      ensures !lineFull ==> View() == Bump(old(View()), io)
      ensures lineFull ==> View() == SetOpen(old(View()), io, OpenLine(old(View()).Open(io).line, 0))
    {
      RankBound(g, userWp.ch, userWp.lun, userWp.pg);
      RankBound(g, gcWp.ch, gcWp.lun, gcWp.pg);
      if io == User {
        lineFull := userWp.Step(g);
      } else {
        lineFull := gcWp.Step(g);
      }
    }

    method CloseInLists(b: nat)
      requires Wf() && b < |View().vpc| && b !in View().victims
      modifies lines.Repr()
      ensures Wf() && View() == CloseLists(lay.perLine, old(View()), b)
      ensures SlotsKept(old(Slots()), old(lines.pq.size))
    {
      lines.Close(b);
    }

    /** get_next_free_line, and continue the pointer there. */
    method Reopen(io: Io) returns (ok: bool)
      requires Wf()
      requires (View().free != [] ==> View().free[0] < g.blksPerPl) && View().Open(io).done == 0
      modifies lines, userWp, gcWp
      ensures ok <==> old(View()).free != []
      ensures ok ==> Wf() && View() == Reopened(old(View()), io)
      ensures SlotsKept(old(Slots()), old(lines.pq.size))
    {
      var next := lines.NextFree();
      if next == None {
        return false;
      }
      if io == User {
        userWp.line := next.value;
      } else {
        gcWp.line := next.value;
      }
      return true;
    }

    ghost method MovePlaces(b: nat, x: Place, n: nat, io: Io)
      requires Wf() && b < |View().place| && n < |View().place|
      modifies `place
      ensures Wf() && View() == Replaced(old(View()), b, x, n, io)
      ensures SlotsKept(old(Slots()), old(lines.pq.size))
    {
      place := place[b := x][n := if io == User then UserOpen else GcOpen];
    }

    /** Move the used-up line to the full list or the victims and pick another empty line. */
    method CloseLine(io: Io) returns (ok: bool)
      requires Wf() && View().Open(io).done == 0
      requires var s := View();
               && s.Open(io).line < |s.place| == |s.vpc| == g.blksPerPl && s.Open(io).line !in s.victims
               && (s.free != [] ==> s.free[0] < |s.place|)
      modifies Repr()
      ensures ok <==> old(View()).free != []
      ensures ok ==> Wf() && View() == CloseSteps(lay.perLine, old(View()), io)
      ensures SlotsKept(old(Slots()), old(lines.pq.size))
    {
      hide Wf, View, SlotsKept, Slots;
      ghost var s, slots, n := View(), Slots(), lines.pq.size;
      ghost var b := s.Open(io).line;
      CloseInLists(LineOf(io));
      SlotsKeptSoFar(slots, n);
      ghost var slots', n' := Slots(), lines.pq.size;
      ok := Reopen(io);
      SlotsKeptOn(slots, n, slots', n');
      if ok {
        SlotsKeptSoFar(slots, n);
        slots', n' := Slots(), lines.pq.size;
        MovePlaces(b, if s.vpc[b] == lay.perLine then InFull else InVictims, s.free[0], io);
        SlotsKeptOn(slots, n, slots', n');
      }
    }

    function LineOf(io: Io): (b: nat)
      requires Wf()
      reads Repr()
      ensures b == View().Open(io).line
    {
      if io == User then userWp.line else gcWp.line
    }

    /**
     advance_write_pointer; fails when the line is used up and no line is free, where the source dereferences
     NULL.
     */
    method AdvanceWritePointer(io: Io) returns (ok: bool)
      requires Wf()
      requires var s := View();
               && s.Open(io).line < |s.place| == |s.vpc| == g.blksPerPl && s.Open(io).line !in s.victims
               && (s.free != [] ==> s.free[0] < |s.place|)
      modifies Repr()
      ensures old(View()).Open(io).done < lay.perLine
      ensures ok <==> CanAdvance(lay, old(View()), io)
      ensures ok ==> Wf() && View() == Close(lay, Bump(old(View()), io), io)
      ensures SlotsKept(old(Slots()), old(lines.pq.size))
    {
      ghost var s := View();
      hide Wf, View;
      var lineFull := StepPointer(io);
      if !lineFull {
        return true;
      }
      if s.free != [] {
        CloseInSteps(lay, s, io);
      }
      ok := CloseLine(io);
    }

    // ----- page writes -----

    /** get_new_page: the page at the write pointer. */
    method NewPage(io: Io) returns (q: Ppa)
      requires Wf()
      ensures g.ValidPpa(q) && IsNext(lay, View(), io, q)
    {
      if io == User {
        q := userWp.NewPage(g);
      } else {
        q := gcWp.NewPage(g);
      }
      g.PagesAreValid(q);
    }

    method CountWrite(io: Io)
      requires Wf()
      modifies `host, `copied
      ensures Wf()
      ensures SlotsKept(old(Slots()), old(lines.pq.size))
      ensures io == User ==> View() == old(View()).(host := old(View()).host + 1)
      ensures io == Gc ==> View() == old(View()).(copied := old(View()).copied + 1)
    {
      if io == User {
        host := host + 1;
      } else {
        copied := copied + 1;
      }
    }

    /** `t` is the state as if logical page `l` had no stale entry in the mapping table. */
    method WriteAt(io: Io, l: nat, page: Ppa, ghost t: Ftl)
      requires Wf() && g.ValidPpa(page) && l < |t.maptbl| == |View().maptbl|
      requires View() == t.(maptbl := t.maptbl[l := View().maptbl[l]])
      requires page in t.status && t.status[page] == Free && BlkOf(page) in t.blkVpc
      requires page.blk < |t.vpc| && page.blk !in t.victims
      modifies Repr()
      ensures Wf() && View() == Written(t, io, l, page)
      ensures SlotsKept(old(Slots()), old(lines.pq.size))
      ensures var s := View();
              && s.place == t.place && |s.vpc| == |t.vpc| && s.free == t.free && s.victims == t.victims
              && s.user == t.user && s.gc == t.gc
    {
      hide Wf, View;
      SetMaps(l, page);
      assert View().maptbl == Link(t, l, page).maptbl;
      MarkPageValid(page);
      CountWrite(io);
    }

    lemma ProgramNeeds(t: Ftl, victim: Option<nat>, stale: set<Ppa>, io: Io, l: nat, q: Ppa)
      requires Wf() && Inv(lay, t, victim, stale) && l < |t.maptbl| && IsNext(lay, t, io, q)
      ensures CanFill(lay, t, io, l, q) && (t.free != [] ==> t.free[0] < |t.place|)
      ensures q in t.status && t.status[q] == Free && BlkOf(q) in t.blkVpc && q.blk < |t.vpc|
      ensures t.Open(io).line < |t.place| == |t.vpc| == g.blksPerPl && q.blk == t.Open(io).line && q.blk !in t.victims
    {
      NextPageIsFree(lay, t, victim, stale, io, l, q);
      assert LinesOk(lay, t, victim, stale);
      FreeLineInRange(lay, t, victim);
    }

    /**
     Write logical page `l` at a write pointer: the second half of a page write, and gc_write_page.  `t` is the
     state as if `l` had no stale entry in the mapping table.
     */
    method ProgramPage(io: Io, l: nat, ghost t: Ftl, ghost victim: Option<nat>,
        ghost stale: set<Ppa>) returns (ok: bool, ghost q: Ppa)
      requires Wf() && Inv(lay, t, victim, stale) && l < |t.maptbl| == |View().maptbl|
      requires View() == t.(maptbl := t.maptbl[l := View().maptbl[l]])
      requires io == Gc <==> t.maptbl[l].Some?
      requires t.maptbl[l].Some? ==> victim == Some(t.maptbl[l].value.blk)
      modifies Repr()
      ensures IsNext(lay, t, io, q) && CanFill(lay, t, io, l, q) && (t.free != [] ==> t.free[0] < |t.place|)
      ensures ok <==> CanAdvance(lay, t, io)
      ensures ok ==> Wf() && View() == Program(lay, t, io, l, q)
      ensures SlotsKept(old(Slots()), old(lines.pq.size))
    {
      hide Wf, View, Inv, Close, CanFill, Written;
      var page := NewPage(io);
      q := page;
      ProgramNeeds(t, victim, stale, io, l, q);
      WriteAt(io, l, page, t);
      ok := AdvanceWritePointer(io);
    }

    // ----- garbage collection -----

    /**
     A pass over line `v` that began in state `s0` has dealt with the pages `stale` and erased the blocks
     `erased`.
     */
    ghost predicate Passing(s0: Ftl, v: nat, stale: set<Ppa>, erased: set<Blk>)
      reads Repr()
    {
      Wf() && Progress(lay, s0, View(), v, stale, erased) && LineInUse(s0.status, v) && v < g.blksPerPl
    }

    function ReadStatus(p: Ppa): (x: Status)
      requires Wf() && g.ValidPpa(p)
      reads Repr()
      ensures p in View().status && x == View().status[p]
    {
      g.PagesAreValid(p);
      flash.status[p.ch, p.lun, p.blk, p.pg]
    }

    method ReadRmap(p: Ppa) returns (l: Option<nat>)
      requires Wf() && g.ValidPpa(p)
      ensures p in View().rmap && l == View().rmap[p]
    {
      l := tbl.GetRmap(p);
    }

    /** gc_write_page: move a valid page of the victim to the garbage collection pointer. */
    method GcWritePage(p: Ppa, ghost s0: Ftl, ghost v: nat, ghost stale: set<Ppa>,
        ghost erased: set<Blk>) returns (ok: bool)
      requires Passing(s0, v, stale, erased) && g.ValidPpa(p) && p.blk == v && p !in stale
      requires p in View().status && View().status[p] == Valid
      modifies Repr()
      ensures Spare(lay, s0) > 0 ==> ok
      ensures ok ==> Passing(s0, v, stale + {p}, erased)
      ensures SlotsKept(old(Slots()), old(lines.pq.size))
    {
      hide Wf, View, Inv, Progress, LineInUse, SlotsKept;
      ghost var s := View();
      CopySource(lay, s0, s, v, stale, erased, p);
      var l := ReadRmap(p);
      if Spare(lay, s0) > 0 {
        SpareSuffices(lay, s0, s, v, stale, erased, p);
      }
      ghost var q;
      ok, q := ProgramPage(Gc, l.value, s, Some(v), stale);
      if ok {
        ProgressCopies(lay, s0, s, v, stale, erased, p, q);
      }
    }

    /** A victim page that is not valid needs no copy. */
    lemma SkipPage(s0: Ftl, v: nat, stale: set<Ppa>, erased: set<Blk>, p: Ppa)
      requires Passing(s0, v, stale, erased) && p in View().status && p.blk == v && View().status[p] != Valid
      ensures Passing(s0, v, stale + {p}, erased)
    {
      hide Wf, View, Progress;
      ProgressSkips(lay, s0, View(), v, stale, erased, p);
    }

    /** The pages of a flash page are in use when its turn comes. */
    lemma FlashPageInUse(s0: Ftl, v: nat, stale: set<Ppa>, fp: nat, ch: nat, lun: nat, p: Ppa)
      requires Passing(s0, v, stale, ErasedBlocks(g, v, fp, ch, lun)) && p in View().status
      requires BlkOf(p) == Blk(ch, lun, v) && fp < g.flashPerBlk
      ensures View().status[p] != Free
    {
      VictimPageInUse(lay, s0, View(), v, stale, ErasedBlocks(g, v, fp, ch, lun), p);
    }

    /** clean_one_flashpg */
    method CleanOneFlashpg(v: nat, fp: nat, ch: nat, lun: nat, ghost s0: Ftl) returns (ok: bool)
      requires v < g.blksPerPl && fp < g.flashPerBlk && ch < g.nchs && lun < g.lunsPerCh && g.Ok()
      requires Passing(s0, v, Visited(g, v, fp, ch, lun, 0), ErasedBlocks(g, v, fp, ch, lun))
      modifies Repr()
      ensures Spare(lay, s0) > 0 ==> ok
      ensures ok ==> Passing(s0, v, Visited(g, v, fp, ch, lun, g.pgsPerFlash), ErasedBlocks(g, v, fp, ch, lun))
      ensures SlotsKept(old(Slots()), old(lines.pq.size))
    {
      hide Passing, Visited, ErasedBlocks, Wf, View, SlotsKept, Slots;
      ghost var slots, n := Slots(), lines.pq.size;
      SlotsStay();
      var cnt := CountFlashpg(v, fp, ch, lun, s0);
      if cnt == 0 {
        return true;
      }
      var i := 0;
      while i < g.pgsPerFlash
        invariant 0 <= i <= g.pgsPerFlash
        invariant Passing(s0, v, Visited(g, v, fp, ch, lun, i), ErasedBlocks(g, v, fp, ch, lun))
        invariant SlotsKept(slots, n)
      {
        SlotsKeptSoFar(slots, n);
        ghost var slots', n' := Slots(), lines.pq.size;
        ok := CleanPage(v, fp, ch, lun, i, s0);
        SlotsKeptOn(slots, n, slots', n');
        if !ok {
          return;
        }
        i := i + 1;
      }
      return true;
    }

    /** The first loop of clean_one_flashpg: with no valid page there is nothing to do. */
    method CountFlashpg(v: nat, fp: nat, ch: nat, lun: nat, ghost s0: Ftl) returns (cnt: nat)
      requires v < g.blksPerPl && fp < g.flashPerBlk && ch < g.nchs && lun < g.lunsPerCh && g.Ok()
      requires Passing(s0, v, Visited(g, v, fp, ch, lun, 0), ErasedBlocks(g, v, fp, ch, lun))
      ensures cnt == 0 ==> Passing(s0, v, Visited(g, v, fp, ch, lun, g.pgsPerFlash), ErasedBlocks(g, v, fp, ch, lun))
    {
      hide Passing, Visited, ErasedBlocks, Wf, View;
      cnt := 0;
      var i := 0;
      while i < g.pgsPerFlash
        invariant 0 <= i <= g.pgsPerFlash
        invariant Passing(s0, v, Visited(g, v, fp, ch, lun, 0), ErasedBlocks(g, v, fp, ch, lun))
        invariant cnt == 0 ==> Passing(s0, v, Visited(g, v, fp, ch, lun, i), ErasedBlocks(g, v, fp, ch, lun))
      {
        var p := Current(g, v, fp, ch, lun, i);
        NextPageStatus(v, fp, ch, lun, i, s0);
        var x := ReadStatus(p);
        assert x != Free;
        if x == Valid {
          cnt := cnt + 1;
        }
        i := i + 1;
      }
    }

    lemma NextPageStatus(v: nat, fp: nat, ch: nat, lun: nat, i: nat, s0: Ftl)
      requires v < g.blksPerPl && fp < g.flashPerBlk && ch < g.nchs && lun < g.lunsPerCh && i < g.pgsPerFlash && g.Ok()
      requires Passing(s0, v, Visited(g, v, fp, ch, lun, 0), ErasedBlocks(g, v, fp, ch, lun))
      ensures Wf() && g.ValidPpa(Current(g, v, fp, ch, lun, i))
      ensures var x := ReadStatus(Current(g, v, fp, ch, lun, i));
              && x != Free
              && (x != Valid && Passing(s0, v, Visited(g, v, fp, ch, lun, i), ErasedBlocks(g, v, fp, ch, lun)) ==>
                    Passing(s0, v, Visited(g, v, fp, ch, lun, i + 1), ErasedBlocks(g, v, fp, ch, lun)))
    {
      hide Visited, ErasedBlocks, Wf, View, Progress;
      var p := Current(g, v, fp, ch, lun, i);
      VisitOne(g, v, fp, ch, lun, i);
      CurrentDigits(g, v, fp, ch, lun, i);
      assert ReadStatus(p) in {Free, Valid, Invalid} && p in View().status;
      FlashPageInUse(s0, v, Visited(g, v, fp, ch, lun, 0), fp, ch, lun, p);
      if ReadStatus(p) != Valid && Passing(s0, v, Visited(g, v, fp, ch, lun, i), ErasedBlocks(g, v, fp, ch, lun)) {
        SkipPage(s0, v, Visited(g, v, fp, ch, lun, i), ErasedBlocks(g, v, fp, ch, lun), p);
      }
    }

    method CleanPage(v: nat, fp: nat, ch: nat, lun: nat, i: nat, ghost s0: Ftl) returns (ok: bool)
      requires v < g.blksPerPl && fp < g.flashPerBlk && ch < g.nchs && lun < g.lunsPerCh && i < g.pgsPerFlash && g.Ok()
      requires Passing(s0, v, Visited(g, v, fp, ch, lun, i), ErasedBlocks(g, v, fp, ch, lun))
      modifies Repr()
      ensures Spare(lay, s0) > 0 ==> ok
      ensures ok ==> Passing(s0, v, Visited(g, v, fp, ch, lun, i + 1), ErasedBlocks(g, v, fp, ch, lun))
      ensures SlotsKept(old(Slots()), old(lines.pq.size))
    {
      hide Visited, ErasedBlocks, Wf, View, Progress, SlotsKept;
      ghost var stale, erased := Visited(g, v, fp, ch, lun, i), ErasedBlocks(g, v, fp, ch, lun);
      var p := Current(g, v, fp, ch, lun, i);
      VisitOne(g, v, fp, ch, lun, i);
      CurrentDigits(g, v, fp, ch, lun, i);
      var x := ReadStatus(p);
      if x == Valid {
        ok := GcWritePage(p, s0, v, stale, erased);
      } else {
        SkipPage(s0, v, stale, erased, p);
        SlotsStay();
        ok := true;
      }
    }

    /** mark_block_free, in the round of the last flash page. */
    method EraseVictimBlock(v: nat, fp: nat, ch: nat, lun: nat, ghost s0: Ftl)
      requires v < g.blksPerPl && fp + 1 == g.flashPerBlk && ch < g.nchs && lun < g.lunsPerCh && g.Ok()
      requires Passing(s0, v, Visited(g, v, fp, ch, lun, g.pgsPerFlash), ErasedBlocks(g, v, fp, ch, lun))
      modifies Repr()
      ensures Passing(s0, v, Visited(g, v, fp, ch, lun, g.pgsPerFlash), ErasedBlocks(g, v, fp, ch, lun + 1))
      ensures SlotsKept(old(Slots()), old(lines.pq.size))
    {
      hide Visited, ErasedBlocks, Wf, View, Progress;
      ghost var stale, erased := Visited(g, v, fp, ch, lun, g.pgsPerFlash), ErasedBlocks(g, v, fp, ch, lun);
      EraseOne(g, v, fp, ch, lun);
      var k := Blk(ch, lun, v);
      BlockIsDone(v, ch, lun);
      ProgressErases(lay, s0, View(), v, stale, erased, k);
      EraseInFlash(k);
    }

    lemma BlockIsDone(v: nat, ch: nat, lun: nat)
      requires Wf()
      ensures BlockDone(View().status, Visited(g, v, g.flashPerBlk - 1, ch, lun, g.pgsPerFlash), Blk(ch, lun, v))
      ensures View().blkVpc.Keys == g.Blocks()
    {
      forall p <- View().status | BlkOf(p) == Blk(ch, lun, v)
        ensures p in Visited(g, v, g.flashPerBlk - 1, ch, lun, g.pgsPerFlash)
      {
        BlockVisited(g, v, ch, lun, p);
      }
    }

    method EraseInFlash(k: Blk)
      requires Wf() && k in g.Blocks()
      modifies flash.Repr()
      ensures Wf() && View() == EraseBlock(old(View()), k)
      ensures SlotsKept(old(Slots()), old(lines.pq.size))
    {
      hide Lines.Valid, Lines.Victims, Tables.RmapView, WritePointer.Done;
      flash.EraseBlock(k);
    }

    /** The loops of do_gc: every page of the victim is visited once and every block erased once. */
    method CollectLine(v: nat, ghost s0: Ftl) returns (ok: bool)
      requires v < g.blksPerPl && g.Ok() && Passing(s0, v, Visited(g, v, 0, 0, 0, 0), ErasedBlocks(g, v, 0, 0, 0))
      modifies Repr()
      ensures Spare(lay, s0) > 0 ==> ok
      ensures ok ==> Passing(s0, v, Visited(g, v, g.flashPerBlk, 0, 0, 0), ErasedBlocks(g, v, g.flashPerBlk, 0, 0))
      ensures SlotsKept(old(Slots()), old(lines.pq.size))
    {
      hide Passing, Visited, ErasedBlocks, Wf, View, SlotsKept, Slots;
      ghost var slots, n := Slots(), lines.pq.size;
      SlotsStay();
      var fp := 0;
      while fp < g.flashPerBlk
        invariant 0 <= fp <= g.flashPerBlk
        invariant Passing(s0, v, Visited(g, v, fp, 0, 0, 0), ErasedBlocks(g, v, fp, 0, 0))
        invariant SlotsKept(slots, n)
      {
        var ch := 0;
        while ch < g.nchs
          invariant 0 <= ch <= g.nchs
          invariant Passing(s0, v, Visited(g, v, fp, ch, 0, 0), ErasedBlocks(g, v, fp, ch, 0))
          invariant SlotsKept(slots, n)
        {
          var lun := 0;
          while lun < g.lunsPerCh
            invariant 0 <= lun <= g.lunsPerCh
            invariant Passing(s0, v, Visited(g, v, fp, ch, lun, 0), ErasedBlocks(g, v, fp, ch, lun))
            invariant SlotsKept(slots, n)
          {
            SlotsKeptSoFar(slots, n);
            ghost var slots', n' := Slots(), lines.pq.size;
            ok := CleanOneFlashpg(v, fp, ch, lun, s0);
            SlotsKeptOn(slots, n, slots', n');
            if !ok {
              return;
            }
            EraseOne(g, v, fp, ch, lun);
            if fp == g.flashPerBlk - 1 {
              SlotsKeptSoFar(slots, n);
              slots', n' := Slots(), lines.pq.size;
              EraseVictimBlock(v, fp, ch, lun, s0);
              SlotsKeptOn(slots, n, slots', n');
            }
            VisitCarry(g, v, fp, ch, lun);
            lun := lun + 1;
          }
          VisitCarry(g, v, fp, ch, lun);
          EraseCarry(g, v, fp, ch);
          ch := ch + 1;
        }
        VisitCarry(g, v, fp, ch, 0);
        EraseCarry(g, v, fp, ch);
        fp := fp + 1;
      }
      return true;
    }

    /** The victim each policy must choose from the lines of state `s`. */
    ghost predicate Chosen(s: Ftl, ages: seq<uint64>, v: nat)
      requires PolicyOk(policy) && |s.vpc| == |s.ipc| == |ages|
    {
      && v in s.victims && v < |s.vpc|
      && match policy
         case Greedy(_) => forall b <- s.victims :: b < |s.vpc| && s.vpc[v] <= s.vpc[b]
         case CostBenefit(profile) => IsBest(s.vpc, Scores(s.ipc, s.vpc, profile, ages), s.victims, v)
    }

    /** Whether the scan of the policy, in state `s` with these slots, picks one of the heap's lines. */
    ghost predicate ScanFinds(s: Ftl, ages: seq<uint64>, slots: seq<nat>) {
      && PolicyOk(policy) && |s.vpc| == |s.ipc| == |ages| && |s.victims| + 1 < |slots|
      && (forall c <- s.victims :: c < |s.vpc|)
      && ScanOk(policy, s.vpc, s.ipc, s.victims, ages, slots[|s.victims| + 1])
    }

    lemma SizeCountsVictims()
      requires Wf()
      ensures lines.pq.size == |View().victims| + 1 && |Slots()| == g.blksPerPl + 1
    {
      lines.SizeCountsVictims();
    }

    /** Greedy looks at the slot after the heap only to sample it. */
    lemma GreedyFinds(s: Ftl, ages: seq<uint64>, slots: seq<nat>)
      requires policy.Greedy? && |s.vpc| == |s.ipc| == |ages| && |s.victims| + 1 < |slots|
      requires forall c <- s.victims :: c < |s.vpc|
      ensures ScanFinds(s, ages, slots) <==> policy.samples ==> slots[|s.victims| + 1] <= |s.vpc|
    {
    }

    method SelectInLists(ages: seq<uint64>, force: bool) returns (ok: bool, v: Option<nat>)
      requires Wf() && |ages| == |View().vpc| == |View().ipc| && |View().victims| < |View().vpc|
      requires forall b | 0 <= b < |View().vpc| :: View().vpc[b] < 0x8000_0000 && View().ipc[b] < 0x8000_0000
      modifies lines.Repr()
      ensures Wf() && PolicyOk(policy)
      ensures v == None ==> View() == old(View()) && Slots() == old(Slots())
      ensures v.Some? ==> SlotsKept(old(Slots()), old(lines.pq.size) - 1)
      ensures !ok ==> v == None
      ensures force ==> (ok <==> old(View()).victims == {} || ScanFinds(old(View()), ages, old(Slots())))
      ensures force && ok ==> (v == None <==> old(View()).victims == {})
      ensures v.Some? ==> Chosen(old(View()), ages, v.value)
      ensures v.Some? ==> View() == old(View()).(victims := old(View()).victims - {v.value})
    {
      hide Tables.RmapView, Flash.StatusView, Flash.VpcView, Flash.IpcView, WritePointer.Done, Lines.Victims,
          IsBest, Scores, ScanOk;
      SizeCountsVictims();
      ok, v := lines.SelectVictim(policy, ages, force);
      SizeCountsVictims();
    }

    method CountVictim(v: nat)
      requires Wf() && v < g.blksPerPl && |View().place| == g.blksPerPl == |View().vpc|
      modifies `place, `collections, `victimVpcSum
      ensures Wf() && v < |old(View()).place| && |old(View()).vpc| == |old(View()).place|
      ensures var s := old(View());
              View() == s.(place := s.place[v := Collecting],
                           collections := s.collections + 1, victimVpcSum := s.victimVpcSum + s.vpc[v])
    {
      hide Tables.RmapView, Flash.StatusView, Flash.VpcView, Flash.IpcView, WritePointer.Done, Lines.Victims;
      collections := collections + 1;
      victimVpcSum := victimVpcSum + lines.pq.pri[v];
      place := place[v := Collecting];
    }

    /** select_victim_line, and the counters do_gc updates for the chosen line. */
    method TakeVictimLine(ages: seq<uint64>, force: bool) returns (ok: bool, v: Option<nat>)
      requires Good(None, {}) && |ages| == g.blksPerPl
      modifies Repr()
      ensures Wf() && PolicyOk(policy)
      ensures v == None ==> View() == old(View()) && Slots() == old(Slots())
      ensures v.Some? ==> SlotsKept(old(Slots()), old(lines.pq.size) - 1)
      ensures !ok ==> v == None
      ensures force ==> (ok <==> old(View()).victims == {} || ScanFinds(old(View()), ages, old(Slots())))
      ensures force && ok ==> (v == None <==> old(View()).victims == {})
      ensures |old(View()).vpc| == |old(View()).ipc| == |old(View()).place| == g.blksPerPl
      ensures v.Some? ==> Chosen(old(View()), ages, v.value) && View() == TakeVictim(old(View()), v.value)
    {
      hide Wf, View, Inv, Chosen, PolicyOk, ScanFinds;
      ghost var s := View();
      GeometryBounds();
      VictimCounters(s);
      ok, v := SelectInLists(ages, force);
      if v.Some? {
        ChosenInRange(s, ages, v.value);
        CountVictim(v.value);
      }
    }

    lemma GeometryBounds()
      requires Wf()
      ensures 0 < lay.perLine < 0x8000_0000 && lay.lines == g.blksPerPl && g.Ok() && PolicyOk(policy) && wfc !in Repr()
      ensures lay.rank.Keys == g.Pages() && lay.logical == tbl.maptbl.Length
    {
    }

    lemma ChosenInRange(s: Ftl, ages: seq<uint64>, v: nat)
      requires PolicyOk(policy) && |s.vpc| == |s.ipc| == |ages| && Chosen(s, ages, v)
      ensures v in s.victims && v < |s.vpc|
    {
    }

    lemma VictimCounters(s: Ftl)
      requires Idle(lay, s) && lay.perLine < 0x8000_0000
      ensures |s.vpc| == |s.ipc| == |s.place| == lay.lines && |s.victims| < |s.vpc|
      ensures forall b | 0 <= b < |s.vpc| :: s.vpc[b] < 0x8000_0000 && s.ipc[b] < 0x8000_0000
      ensures forall b <- s.victims :: b < |s.vpc|
    {
      hide TablesOk, LevelOk, CountOk, ConserveOk, StaleOk;
      assert LinesOk(lay, s, None, {});
      LineCount(lay.lines, s);
      forall b | 0 <= b < |s.vpc|
        ensures s.vpc[b] < 0x8000_0000 && s.ipc[b] < 0x8000_0000
      {
        assert s.vpc[b] + s.ipc[b] == Level(lay.perLine, s.place[b], s.user, s.gc);
      }
    }

    function VictimIpc(v: nat): (n: nat)
      requires Wf() && v < g.blksPerPl
      reads Repr()
      ensures v < |View().ipc| && n == View().ipc[v]
    {
      lines.ipc[v]
    }

    /** mark_line_free */
    method MarkLineFree(v: nat)
      requires Wf() && v < g.blksPerPl && v !in View().victims && |View().place| == g.blksPerPl
      modifies lines.Repr(), `place
      ensures |old(View()).ipc| == |old(View()).vpc| == |old(View()).place| && v < |old(View()).vpc|
      ensures Wf() && View() == FreeLine(old(View()), v)
      ensures SlotsKept(old(Slots()), old(lines.pq.size))
    {
      hide Tables.RmapView, Flash.StatusView, Flash.VpcView, Flash.IpcView, WritePointer.Done;
      lines.Release(v);
      place := place[v := InFree];
    }

    /** What a forced collection of line `v` did to the state `s`. */
    ghost predicate CollectedAs(s: Ftl, ages: seq<uint64>, v: nat)
      requires |s.vpc| == |s.ipc| == |ages|
      reads Repr()
    {
      Good(None, {}) && PolicyOk(policy) && Chosen(s, ages, v) && Collected(lay, s, View(), v)
    }

    /** A pass begins: the victim leaves the heap and its invalid pages become the next credits. */
    method BeginPass(ages: seq<uint64>, force: bool) returns (ok: bool, v: Option<nat>)
      requires Good(None, {}) && |ages| == g.blksPerPl
      modifies Repr(), wfc
      ensures |old(View()).vpc| == |old(View()).ipc| == |old(View()).place| == g.blksPerPl && PolicyOk(policy)
      ensures !ok ==> v == None
      ensures force ==> (ok <==> old(View()).victims == {} || ScanFinds(old(View()), ages, old(Slots())))
      ensures force && ok ==> (v == None <==> old(View()).victims == {})
      ensures v == None ==> Wf() && View() == old(View()) && Slots() == old(Slots()) && wfc.refill == old(wfc.refill)
      ensures v.Some? ==> SlotsKept(old(Slots()), old(lines.pq.size) - 1)
      ensures v.Some? ==> Chosen(old(View()), ages, v.value) && wfc.refill == old(View()).ipc[v.value]
      ensures v.Some? ==> Passing(TakeVictim(old(View()), v.value), v.value, {}, {})
      ensures v.Some? ==>
                Spare(lay, TakeVictim(old(View()), v.value))
                == Room(lay.perLine, old(View())) - old(View()).vpc[v.value]
      ensures wfc.credits == old(wfc.credits)
    {
      hide Wf, View, Inv, Chosen, PolicyOk, Progress, LineInUse, Spare, Room, ScanFinds;
      GeometryBounds();
      ghost var s := View();
      StartSizes(lay, s);
      ok, v := TakeVictimLine(ages, force);
      if v.Some? {
        ChosenInRange(s, ages, v.value);
        PassStarts(lay, s, v.value);
        wfc.refill := VictimIpc(v.value);
      }
    }

    lemma AllVisited(s: Ftl, v: nat)
      requires g.Ok() && v < |s.place| && |s.vpc| == |s.place|
      requires Passing(TakeVictim(s, v), v,
                       Visited(g, v, g.flashPerBlk, 0, 0, 0), ErasedBlocks(g, v, g.flashPerBlk, 0, 0))
      ensures forall p <- s.status | p.blk == v ::
                p in Visited(g, v, g.flashPerBlk, 0, 0, 0) && BlkOf(p) in ErasedBlocks(g, v, g.flashPerBlk, 0, 0)
    {
      hide Visited, ErasedBlocks, Inv;
      VisitStartsAndEnds(g, v);
      assert View().status.Keys == g.Pages();
    }

    /** A pass ends: the erased victim joins the free list. */
    method EndPass(v: nat, ghost s: Ftl)
      requires g.Ok() && v in s.victims && v < |s.place| && |s.vpc| == |s.ipc| == |s.place|
      requires Passing(TakeVictim(s, v), v,
                       Visited(g, v, g.flashPerBlk, 0, 0, 0), ErasedBlocks(g, v, g.flashPerBlk, 0, 0))
      requires Idle(lay, s)
      modifies Repr()
      ensures Good(None, {}) && Collected(lay, s, View(), v)
      ensures Room(lay.perLine, s) > s.vpc[v]
      ensures SlotsKept(old(Slots()), old(lines.pq.size))
    {
      hide Wf, View, Inv, Progress, Collected, Visited, ErasedBlocks, LineInUse, Room, Spare;
      ghost var stale, erased := Visited(g, v, g.flashPerBlk, 0, 0, 0), ErasedBlocks(g, v, g.flashPerBlk, 0, 0);
      GeometryBounds();
      AllVisited(s, v);
      PassStarts(lay, s, v);
      EndFacts(s, View(), v, stale, erased);
      PassEnds(lay, s, View(), v, stale, erased);
      MarkLineFree(v);
    }

    lemma EndFacts(s: Ftl, t: Ftl, v: nat, stale: set<Ppa>, erased: set<Blk>)
      requires v < |s.place| && |s.vpc| == |s.place| && Progress(lay, TakeVictim(s, v), t, v, stale, erased)
      requires forall p <- s.status | p.blk == v :: p in stale
      ensures v !in t.victims && |t.place| == lay.lines && Spare(lay, TakeVictim(s, v)) > 0
    {
      hide Inv, LogicalKept;
      assert Pending(t.status, Some(v), stale) == {};
      SpareOf(lay, TakeVictim(s, v), t, v, stale, erased);
      VictimIsOut(lay, t, v, stale);
    }

    /**
     do_gc.  A forced pass finds a victim exactly when there is one and the scan of the policy picks it; the pass
     then succeeds exactly when there is room for the victim's valid pages, and grants the victim's invalid pages
     as credits.
     */
    method DoGc(ages: seq<uint64>, force: bool) returns (found: bool, ok: bool, ghost v: nat)
      requires Good(None, {}) && |ages| == g.blksPerPl
      modifies Repr(), wfc
      ensures |old(View()).vpc| == |old(View()).ipc| == g.blksPerPl && PolicyOk(policy)
      ensures force ==> (found <==> old(View()).victims != {} && ScanFinds(old(View()), ages, old(Slots())))
      ensures force && !found ==> (ok <==> old(View()).victims == {})
      ensures !found ==> Good(None, {}) && View() == old(View()) && wfc.refill == old(wfc.refill)
      ensures !found ==> Slots() == old(Slots())
      ensures found ==> SlotsKept(old(Slots()), old(lines.pq.size) - 1)
      ensures found ==> Chosen(old(View()), ages, v) && v < |old(View()).vpc|
      ensures found && policy.CostBenefit? ==>
                HighestScore(old(View()).vpc, old(View()).ipc, policy.profile, ages, old(View()).victims, v)
      ensures found ==> (ok <==> Room(lay.perLine, old(View())) > old(View()).vpc[v])
      ensures found && ok ==> CollectedAs(old(View()), ages, v) && wfc.refill == old(View()).ipc[v]
      ensures wfc.credits == old(wfc.credits)
    {
      hide Wf, View, Inv, Chosen, PolicyOk, Passing, Collected, Visited, ErasedBlocks, TakeVictim, Spare, Room,
          ScanFinds, SlotsKept, Slots, HighestScore;
      GeometryBounds();
      ghost var s, slots, n := View(), Slots(), lines.pq.size - 1;
      v := 0;
      var victim;
      ok, victim := BeginPass(ages, force);
      found := victim.Some?;
      if !found {
        return;
      }
      v := victim.value;
      ChosenInRange(s, ages, v);
      ChosenIsHighest(s, ages, v);
      SlotsKeptSoFar(slots, n);
      ghost var slots', n' := Slots(), lines.pq.size;
      ok := EmptyLine(victim.value, s);
      SlotsKeptOn(slots, n, slots', n');
    }

    /** The rest of a pass: the loops, and the victim becomes free. */
    method EmptyLine(v: nat, ghost s: Ftl) returns (ok: bool)
      requires g.Ok() && v in s.victims && v < |s.place| && |s.vpc| == |s.ipc| == |s.place| && Idle(lay, s)
      requires v < g.blksPerPl && Passing(TakeVictim(s, v), v, {}, {})
      requires Spare(lay, TakeVictim(s, v)) == Room(lay.perLine, s) - s.vpc[v]
      modifies Repr()
      ensures ok <==> Room(lay.perLine, s) > s.vpc[v]
      ensures ok ==> Good(None, {}) && Collected(lay, s, View(), v)
      ensures SlotsKept(old(Slots()), old(lines.pq.size))
    {
      hide Wf, View, Inv, Passing, Collected, Visited, ErasedBlocks, TakeVictim, Spare, Room, SlotsKept, Slots;
      ghost var slots, n := Slots(), lines.pq.size;
      VisitStartsAndEnds(g, v);
      ok := CollectLine(v, TakeVictim(s, v));
      if ok {
        SlotsKeptSoFar(slots, n);
        ghost var slots', n' := Slots(), lines.pq.size;
        EndPass(v, s);
        SlotsKeptOn(slots, n, slots', n');
      }
    }

    /** A line the cost-benefit policy may choose is the victim its profile ranks first. */
    lemma ChosenIsHighest(s: Ftl, ages: seq<uint64>, v: nat)
      requires PolicyOk(policy) && |s.vpc| == |s.ipc| == |ages| && Chosen(s, ages, v)
      ensures policy.CostBenefit? ==> HighestScore(s.vpc, s.ipc, policy.profile, ages, s.victims, v)
    {
      hide IsBest, HighestScore;
      if policy.CostBenefit? {
        BestIsHighest(s.vpc, s.ipc, policy.profile, ages, s.victims, v);
      }
    }

    // ----- write flow control -----

    /** Two victims a policy may choose have the same number of valid pages. */
    lemma ChosenAlike(s: Ftl, ages: seq<uint64>, v: nat, w: nat)
      requires PolicyOk(policy) && |s.vpc| == |s.ipc| == |ages| && Chosen(s, ages, v) && Chosen(s, ages, w)
      ensures v < |s.vpc| && w < |s.vpc| && s.vpc[v] == s.vpc[w]
    {
      match policy
      case Greedy(_) =>
      case CostBenefit(profile) => BestIsUnique(s.vpc, Scores(s.ipc, s.vpc, profile, ages), s.victims, v, w);
    }

    /** With the FLAT profile, what the cost-benefit policy may choose is what Greedy may choose. */
    lemma FlatChoosesLikeGreedy(s: Ftl, ages: seq<uint64>, v: nat)
      requires policy == CostBenefit(FLAT) && Idle(lay, s) && |s.vpc| == |s.ipc| == |ages| && Chosen(s, ages, v)
      ensures v < |s.vpc| && forall b <- s.victims :: b < |s.vpc| && s.vpc[v] <= s.vpc[b]
    {
      hide Scores, IsBest, Score, AgeValue;
      forall b <- s.victims
        ensures b < |s.vpc| && s.vpc[v] <= s.vpc[b]
      {
        VictimSums(s);
        FlatBeatsNone(lay.perLine, s.ipc, s.vpc, ages, s.victims, v, b);
      }
    }

    lemma VictimSums(s: Ftl)
      requires Idle(lay, s)
      ensures |s.vpc| == |s.ipc| && forall b <- s.victims :: b < |s.vpc| && s.ipc[b] + s.vpc[b] == lay.perLine
    {
      assert LinesOk(lay, s, None, {});
      forall b <- s.victims
        ensures b < |s.vpc| && s.ipc[b] + s.vpc[b] == lay.perLine
      {
        assert s.place[b] == InVictims;
      }
    }

    /**
     When foreground_gc has no victim to miss or to fail on: more than two lines are free, or there is no victim,
     or the scan picks one and there is room for its valid pages.
     */
    ghost predicate CanCollect(s: Ftl, ages: seq<uint64>, slots: seq<nat>) {
      |s.free| <= 2 && s.victims != {} ==>
        && ScanFinds(s, ages, slots)
        && exists v: nat :: Chosen(s, ages, v) && Room(lay.perLine, s) > s.vpc[v]
    }

    /** When foreground_gc collects a line. */
    ghost predicate Collects(s: Ftl, ages: seq<uint64>, slots: seq<nat>) {
      |s.free| <= 2 && s.victims != {} && ScanFinds(s, ages, slots)
    }

    /** A victim of state `s` has been collected and its invalid pages are the next credits. */
    ghost predicate PaidBack(s: Ftl, ages: seq<uint64>, slots: seq<nat>)
      reads Repr(), wfc
    {
      && |s.vpc| == |s.ipc| == |ages| && SlotsKept(slots, |s.victims|)
      && exists v: nat :: v < |s.ipc| && CollectedAs(s, ages, v) && wfc.refill == s.ipc[v]
    }

    /**
     What spending a credit in state `s` came to: a collection if the last one went and there is something to
     collect, or nothing but the new credits.
     */
    ghost predicate Refilled(s: Ftl, ages: seq<uint64>, slots: seq<nat>, credits: nat, refill: nat, ok: bool)
      reads Repr(), wfc
    {
      if credits == 0 && Collects(s, ages, slots) then
        ok ==> PaidBack(s, ages, slots) && wfc.credits == wfc.refill % 0x1_0000_0000
      else
        && Good(None, {}) && View() == s && Slots() == slots && wfc.refill == refill
        && wfc.credits == if credits == 0 then refill % 0x1_0000_0000 else credits
    }

    /** The scan of a forced pass would pick a line that is not a victim, or follow a pointer never written. */
    ghost predicate Misled(ages: seq<uint64>)
      reads Repr()
    {
      Good(None, {}) && |View().free| <= 2 && View().victims != {} && !ScanFinds(View(), ages, Slots())
    }

    /** Under Greedy only a build that samples the candidates can go wrong, on a slot that was never written. */
    lemma GreedyIsMisledExactly(ages: seq<uint64>)
      requires policy.Greedy? && |ages| == g.blksPerPl && Good(None, {})
      ensures |View().victims| + 1 < |Slots()|
      ensures Misled(ages) <==> policy.samples && |View().free| <= 2 && View().victims != {}
                                && Slots()[|View().victims| + 1] > lay.lines
    {
      hide Wf, View, Inv, ScanFinds;
      GeometryBounds();
      VictimCounters(View());
      SizeCountsVictims();
      GreedyFinds(View(), ages, Slots());
    }

    lemma GreedyIsNeverMisled(ages: seq<uint64>)
      requires policy == Greedy(false) && |ages| == g.blksPerPl
      ensures !Misled(ages)
    {
      hide Wf, View, Inv, ScanFinds;
      if Misled(ages) {
        GreedyIsMisledExactly(ages);
      }
    }

    /** foreground_gc: collect when at most two lines are free (gc_thres_lines_high). */
    method ForegroundGc(ages: seq<uint64>) returns (ok: bool)
      requires Good(None, {}) && |ages| == g.blksPerPl
      modifies Repr(), wfc
      ensures wfc.credits == old(wfc.credits)
      ensures ok <==> CanCollect(old(View()), ages, old(Slots()))
      ensures ok ==> Good(None, {}) && Relocated(old(View()), View())
      ensures 1 <= old(wfc.refill) <= lay.perLine && Clean(lay.perLine, old(View())) >= 2 * lay.perLine
              && Bounded(lay, Mapped(old(View()).maptbl)) ==>
                if ok then SpaceOk(lay, View(), wfc.refill, wfc.refill) else Misled(ages)
      ensures !Collects(old(View()), ages, old(Slots())) ==>
                Good(None, {}) && View() == old(View()) && Slots() == old(Slots()) && wfc.refill == old(wfc.refill)
      ensures ok && Collects(old(View()), ages, old(Slots())) ==> PaidBack(old(View()), ages, old(Slots()))
    {
      hide Wf, View, Inv, Collected, Clean, SpaceOk, Relocated, Chosen, PolicyOk, Room, Mapped, ScanFinds, CanCollect;
      hide SlotsKept, Slots;
      ghost var s, slots := View(), Slots();
      SizeCountsVictims();
      GeometryBounds();
      NothingRelocates(s);
      var freeCnt := FreeLineCount();
      if freeCnt <= 2 {
        var found;
        ghost var v;
        found, ok, v := DoGc(ages, true);
        CollectExactly(s, ages, slots, found, ok, v);
        if found && ok {
          CollectedRelocates(lay, s, View(), v);
        }
        if Clean(lay.perLine, s) >= 2 * lay.perLine && Bounded(lay, Mapped(s.maptbl)) {
          VictimExists(lay, s);
          if found {
            ChosenInRange(s, ages, v);
            RoomForVictim(lay, s, v);
            CollectionPaysItsCredits(lay, s, View(), v);
          }
        }
      } else {
        ok := true;
        ManyFreeLines(s, ages, slots);
        if 1 <= wfc.refill <= lay.perLine {
          RefillWithoutCollection(lay, s, wfc.refill);
        }
      }
    }

    lemma CollectExactly(s: Ftl, ages: seq<uint64>, slots: seq<nat>, found: bool, ok: bool, v: nat)
      requires PolicyOk(policy) && |s.vpc| == |s.ipc| == |ages| && |s.free| <= 2
      requires found <==> s.victims != {} && ScanFinds(s, ages, slots)
      requires !found ==> (ok <==> s.victims == {})
      requires found ==> Chosen(s, ages, v) && v < |s.vpc| && (ok <==> Room(lay.perLine, s) > s.vpc[v])
      ensures ok <==> CanCollect(s, ages, slots)
    {
      hide ScanFinds, Room;
      if found && exists w: nat :: Chosen(s, ages, w) && Room(lay.perLine, s) > s.vpc[w] {
        var w: nat :| Chosen(s, ages, w) && Room(lay.perLine, s) > s.vpc[w];
        ChosenAlike(s, ages, v, w);
      }
    }

    lemma ManyFreeLines(s: Ftl, ages: seq<uint64>, slots: seq<nat>)
      requires |s.free| > 2
      ensures CanCollect(s, ages, slots)
    {
    }

    function FreeLineCount(): (n: nat)
      requires Wf()
      reads Repr()
      ensures n == |View().free|
    {
      lines.freeCnt
    }

    lemma NothingRelocates(s: Ftl)
      ensures Relocated(s, s)
    {
    }

    /** check_and_refill_write_credit; the counters are 32 bits wide. */
    method CheckAndRefillWriteCredit(ages: seq<uint64>) returns (ok: bool)
      requires Good(None, {}) && |ages| == g.blksPerPl
      modifies Repr(), wfc
      ensures ok <==> (old(wfc.credits) == 0 ==> CanCollect(old(View()), ages, old(Slots())))
      ensures ok ==> Good(None, {}) && Relocated(old(View()), View())
      ensures Balanced(lay, old(View()), old(wfc.credits), old(wfc.refill))
              && Bounded(lay, Mapped(old(View()).maptbl)) ==>
                if ok then SpaceOk(lay, View(), wfc.credits, wfc.refill) else Misled(ages)
      ensures Refilled(old(View()), ages, old(Slots()), old(wfc.credits), old(wfc.refill), ok)
    {
      hide Wf, View, Inv, Relocated, Mapped, PolicyOk, Clean, CanCollect, Misled, Collects, CollectedAs;
      hide Slots, SlotsKept;
      GeometryBounds();
      ghost var s := View();
      NothingRelocates(s);
      ok := true;
      if wfc.credits <= 0 {
        ok := ForegroundGc(ages);
        wfc.credits := (wfc.credits + wfc.refill) % 0x1_0000_0000;
      }
    }

    /** consume_write_credit */
    function OneCreditLess(credits: nat): nat {
      (credits + 0xFFFF_FFFF) % 0x1_0000_0000
    }

    method ConsumeWriteCredit()
      modifies wfc
      ensures wfc.credits == OneCreditLess(old(wfc.credits)) && wfc.refill == old(wfc.refill)
    {
      wfc.credits := (wfc.credits + 0xFFFF_FFFF) % 0x1_0000_0000;
    }

    /** Every page write spends one credit and refills when none is left. */
    method SpendCredit(ages: seq<uint64>) returns (ok: bool)
      requires Good(None, {}) && |ages| == g.blksPerPl
      modifies Repr(), wfc
      ensures ok <==> (OneCreditLess(old(wfc.credits)) == 0 ==> CanCollect(old(View()), ages, old(Slots())))
      ensures ok ==> Good(None, {}) && Relocated(old(View()), View())
      ensures old(wfc.credits) >= 1 && Balanced(lay, old(View()), old(wfc.credits) - 1, old(wfc.refill))
              && Bounded(lay, Mapped(old(View()).maptbl)) ==>
                if ok then SpaceOk(lay, View(), wfc.credits, wfc.refill) else Misled(ages)
      ensures Refilled(old(View()), ages, old(Slots()), OneCreditLess(old(wfc.credits)), old(wfc.refill), ok)
    {
      hide Wf, View, Inv, Relocated, Mapped, PolicyOk, Clean, Bounded, CanCollect, Misled, Collects, CollectedAs, Slots;
      GeometryBounds();
      ConsumeWriteCredit();
      ok := CheckAndRefillWriteCredit(ages);
    }

    // ----- host page writes -----

    function ReadMaptbl(l: nat): (e: Option<Ppa>)
      requires Wf() && l < lay.logical
      reads Repr()
      ensures l < |View().maptbl| && e == View().maptbl[l]
    {
      tbl.maptbl[l]
    }

    method SetRmapNone(p: Ppa)
      requires Wf() && g.ValidPpa(p)
      modifies tbl.rmap
      ensures Wf() && View() == old(View()).(rmap := old(View()).rmap[p := None])
      ensures SlotsKept(old(Slots()), old(lines.pq.size))
    {
      tbl.SetRmap(p, None);
    }

    method SetMaptblNone(l: nat)
      requires Wf() && l < lay.logical
      modifies tbl.maptbl
      ensures l < |old(View()).maptbl|
      ensures Wf() && View() == old(View()).(maptbl := old(View()).maptbl[l := None])
    {
      tbl.SetMaptbl(l, None);
    }

    lemma MappedPage(l: nat, p: Ppa)
      requires Good(None, {}) && l < |View().maptbl| && View().maptbl[l] == Some(p)
      ensures CanInvalidate(View(), p) && g.ValidPpa(p)
      ensures View().place[p.blk] == InFull <==> View().vpc[p.blk] == lay.perLine
      ensures View().place[p.blk] == InFull ==> p.blk in View().full && p.blk !in View().victims
    {
      hide View, CountOk, BlkOk, ConserveOk;
      assert p in View().status && g.ValidPpa(p) by {
        InFlash(p);
      }
      MappedPageCanBeInvalidated(lay, View(), l);
      FullMeansAllValid(View(), p);
    }

    lemma InFlash(p: Ppa)
      requires Wf()
      ensures p in View().status <==> g.ValidPpa(p)
    {
      g.PagesAreValid(p);
    }

    lemma FullMeansAllValid(s: Ftl, p: Ppa)
      requires Idle(lay, s) && CanInvalidate(s, p)
      ensures s.place[p.blk] == InFull <==> s.vpc[p.blk] == lay.perLine
      ensures s.place[p.blk] == InFull ==> p.blk in s.full && p.blk !in s.victims
    {
      hide CountOk, BlkOk, ConserveOk, MapOk;
      assert LinesOk(lay, s, None, {}) && OpenOk(lay, s);
    }

    /** The state `s` without what logical page `l` occupied. */
    ghost predicate Forgotten(s: Ftl, t: Ftl, l: nat)
      requires l < |s.maptbl|
    {
      if s.maptbl[l].Some? then CanInvalidate(s, s.maptbl[l].value) && t == Unmap(s, l) else t == s
    }

    lemma UnmapsTo(s: Ftl, l: nat)
      requires Idle(lay, s) && l < |s.maptbl| && s.maptbl[l].Some? && CanInvalidate(s, s.maptbl[l].value)
      ensures Idle(lay, Unmap(s, l)) && Unmap(s, l).maptbl == s.maptbl[l := None]
            && Unmap(s, l).discarded == s.discarded
      ensures var p := s.maptbl[l].value;
              var x := MarkInvalid(s, p);
              x.(rmap := x.rmap[p := None]) == Unmap(s, l).(maptbl := s.maptbl)
    {
      UnmapKeepsInv(lay, s, l);
    }

    /** The first half of a page write: the old page becomes invalid, though the mapping table still names it. */
    method ForgetOldPage(l: nat) returns (ghost t: Ftl)
      requires Good(None, {}) && l < lay.logical
      modifies Repr()
      ensures l < |old(View()).maptbl| && Forgotten(old(View()), t, l) && t.discarded == old(View()).discarded
      ensures Wf() && Idle(lay, t) && l < |t.maptbl| == |View().maptbl| && t.maptbl[l] == None
      ensures View() == t.(maptbl := t.maptbl[l := View().maptbl[l]])
      ensures SlotsKept(old(Slots()), old(lines.pq.size))
    {
      hide Wf, View, Inv, CanInvalidate, Unmap;
      ghost var s := View();
      t := s;
      var e := ReadMaptbl(l);
      if e.Some? {
        var p := e.value;
        MappedPage(l, p);
        UnmapsTo(s, l);
        t := Unmap(s, l);
        MarkPageInvalid(p);
        SetRmapNone(p);
        assert t.maptbl[l := s.maptbl[l]] == s.maptbl;
      } else {
        assert s.maptbl[l := None] == s.maptbl;
      }
    }

    /** The state `s` without the page that logical page `l` occupies. */
    ghost function WithoutPage(s: Ftl, l: nat): Ftl
      requires l < |s.maptbl| && (s.maptbl[l].Some? ==> CanInvalidate(s, s.maptbl[l].value))
    {
      if s.maptbl[l].Some? then Unmap(s, l) else s
    }

    /** Page `q` is where logical page `l` will be written from state `s`. */
    ghost predicate Placed(s: Ftl, l: nat, q: Ppa) {
      && l < |s.maptbl| && (s.maptbl[l].Some? ==> CanInvalidate(s, s.maptbl[l].value))
      && var t := WithoutPage(s, l);
         && l < |t.maptbl| && IsNext(lay, t, User, q) && CanFill(lay, t, User, l, q)
         && (t.free != [] ==> t.free[0] < |t.place|)
    }

    ghost predicate HasLine(s: Ftl, l: nat)
      requires l < |s.maptbl| && (s.maptbl[l].Some? ==> CanInvalidate(s, s.maptbl[l].value))
    {
      CanAdvance(lay, WithoutPage(s, l), User)
    }

    /** The state once logical page `l` is written at `q`, before a credit is spent. */
    ghost function PageWritten(s: Ftl, l: nat, q: Ppa): Ftl
      requires Placed(s, l, q) && HasLine(s, l)
    {
      Program(lay, WithoutPage(s, l), User, l, q)
    }

    /**
     What a page write needs, as it can be told from the state before it: a free line if the open one fills up,
     and, when the last credit goes, a collection that cannot fail.
     */
    ghost predicate Fits(s: Ftl, l: nat, q: Ppa, ages: seq<uint64>, slots: seq<nat>, credits: nat)
      requires Placed(s, l, q)
    {
      HasLine(s, l) && (OneCreditLess(credits) == 0 ==> CanCollect(PageWritten(s, l, q), ages, slots))
    }

    /** The slots after the heap stay as they are until a line leaves it. */
    lemma SlotsAgree(s: Ftl, ages: seq<uint64>, before: seq<nat>, n: nat)
      requires Wf() && View() == s && SlotsKept(before, n)
      ensures CanCollect(s, ages, before) == CanCollect(s, ages, Slots())
    {
      hide Wf, View, ScanOk, Chosen, Room;
      SizeCountsVictims();
    }

    /**
     One page of a write command (the loop body of conv_write).  It fails exactly when the open line fills up and
     no line is free, or the last credit is spent and the collection fails.  While the space invariant holds and
     the mapped pages stay within the bound, only a misled scan makes it fail.  `heap` is the slots after the page
     was written and before a credit was spent.
     */
    method WritePage(l: nat, ages: seq<uint64>) returns (ok: bool, ghost q: Ppa, ghost heap: seq<nat>)
      requires Good(None, {}) && l < lay.logical && |ages| == g.blksPerPl
      modifies Repr(), wfc
      ensures l < |old(View()).maptbl| && Placed(old(View()), l, q)
      ensures ok <==> Fits(old(View()), l, q, ages, old(Slots()), old(wfc.credits))
      ensures ok ==> Good(None, {}) && Rewritten(old(View()), View(), l)
      ensures SpaceOk(lay, old(View()), old(wfc.credits), old(wfc.refill))
              && Bounded(lay, Mapped(old(View()).maptbl) + {l}) ==>
                if ok then SpaceOk(lay, View(), wfc.credits, wfc.refill) else Misled(ages)
      ensures Outcome(old(View()), l, q, ages, old(Slots()), heap, old(wfc.credits), old(wfc.refill), ok)
    {
      hide Wf, View, Inv, Unmap, Program, Relocated, Rewritten, FreesNothing, Mapped, PolicyOk, CanFill, Bounded, Clean;
      hide Forgotten, Link, CanCollect, CanInvalidate, Misled, Slots, SlotsKept, Refilled, HeapSlots;
      ghost var s, slots, n := View(), Slots(), lines.pq.size;
      GeometryBounds();
      ghost var t := ForgetOldPage(l);
      ForgottenUnmapped(s, t, l);
      ghost var slots', n' := Slots(), lines.pq.size;
      SlotsKeptSoFar(slots, n);
      ok, q := ProgramPage(User, l, t, None, {});
      SlotsKeptOn(slots, n, slots', n');
      FitsWhenBalanced(s, t, l, q, wfc.credits, wfc.refill);
      heap := Slots();
      if !ok {
        return;
      }
      WrittenPage(s, t, l, q);
      ghost var u := View();
      SlotsAgree(u, ages, slots, n);
      SlotsInOrder(slots, n);
      RewrittenMaps(s, u, l);
      ok := SpendCredit(ages);
      if ok {
        RewrittenThenRelocated(s, u, View(), l);
      }
    }

    /** The slots hold the victims of state `s` in heap order of their valid pages. */
    ghost predicate HeapSlots(s: Ftl, slots: seq<nat>) {
      var n := |s.victims| + 1;
      && n <= |slots| && Ranked(slots, s.vpc, n) && Ordered(slots, s.vpc, n)
      && Distinct(slots[1..n]) && Elems(slots, n) == s.victims
    }

    /** What a page write comes to: a failure for want of a line, or the page is written and a credit spent. */
    ghost predicate Outcome(s: Ftl, l: nat, q: Ppa, ages: seq<uint64>, slots: seq<nat>, heap: seq<nat>,
        credits: nat, refill: nat, ok: bool)
      requires Placed(s, l, q)
      reads Repr(), wfc
    {
      HasLine(s, l) ==>
        var u := PageWritten(s, l, q);
        && Idle(lay, u) && HeapSlots(u, heap) && Agree(slots, heap, |u.victims| + 1)
        && Refilled(u, ages, heap, OneCreditLess(credits), refill, ok)
    }

    lemma SlotsInOrder(before: seq<nat>, n: int)
      requires Wf() && SlotsKept(before, n)
      ensures HeapSlots(View(), Slots()) && Agree(before, Slots(), |View().victims| + 1)
    {
      SizeCountsVictims();
      PositionedDistinct(lines.pq.d[..], lines.pq.pos[..], lines.pq.size);
    }

    lemma ForgottenUnmapped(s: Ftl, t: Ftl, l: nat)
      requires l < |s.maptbl| && Forgotten(s, t, l)
      ensures s.maptbl[l] == None ==> t == s
      ensures (s.maptbl[l].Some? ==> CanInvalidate(s, s.maptbl[l].value)) && t == WithoutPage(s, l)
    {
    }

    lemma FitsWhenBalanced(s: Ftl, t: Ftl, l: nat, q: Ppa, credits: nat, refill: nat)
      requires l < |s.maptbl| && Forgotten(s, t, l) && Idle(lay, t)
      requires CanFill(lay, t, User, l, q) && (t.free != [] ==> t.free[0] < |t.place|)
      ensures SpaceOk(lay, s, credits, refill) ==>
                CanAdvance(lay, t, User) && Balanced(lay, Program(lay, t, User, l, q), credits - 1, refill)
    {
      hide LinesOk, TablesOk;
      assert OpenOk(lay, t);
      if SpaceOk(lay, s, credits, refill) {
        WriteKeepsBalance(lay, s, t, l, q, credits, refill);
      }
    }

    lemma WrittenPage(s: Ftl, t: Ftl, l: nat, q: Ppa)
      requires l < |s.maptbl| && Forgotten(s, t, l) && Idle(lay, t) && t.maptbl[l] == None
      requires IsNext(lay, t, User, q) && CanAdvance(lay, t, User)
      requires CanFill(lay, t, User, l, q) && (t.free != [] ==> t.free[0] < |t.place|)
      ensures var u := Program(lay, t, User, l, q); Idle(lay, u) && Rewritten(s, u, l) && FreesNothing(s, u)
    {
      hide Inv;
      ProgramRewrites(lay, s, t, l, q);
      ProgramFreesNothing(lay, s, t, l, q);
      ProgramKeepsInv(lay, t, None, {}, User, l, q);
    }

    /** One page of a discard (the loop body of conv_discard). */
    method DiscardPage(l: nat)
      requires Good(None, {}) && l < lay.logical
      modifies Repr()
      ensures l < |old(View()).maptbl| && Good(None, {})
      ensures old(View()).maptbl[l] == None ==> View() == old(View())
      ensures old(View()).maptbl[l].Some? ==>
                && CanInvalidate(old(View()), old(View()).maptbl[l].value)
                && View() == Unmap(old(View()), l).(discarded := old(View()).discarded + 1)
    {
      hide Wf, View, Inv, Unmap, CanInvalidate;
      var e := ReadMaptbl(l);
      if e.Some? {
        MappedIsValid(l, e.value);
      }
      if e.None? || !g.ValidPpa(e.value) {
        return;
      }
      ghost var t := DropPage(l);
      DiscardCounterIsFree(t);
    }

    lemma MappedIsValid(l: nat, p: Ppa)
      requires Good(None, {}) && l < |View().maptbl| && View().maptbl[l] == Some(p)
      ensures g.ValidPpa(p)
    {
      hide View, Inv;
      MappedPage(l, p);
    }

    method DropPage(l: nat) returns (ghost t: Ftl)
      requires Good(None, {}) && l < lay.logical
      modifies Repr()
      ensures l < |old(View()).maptbl| && Forgotten(old(View()), t, l) && t.discarded == old(View()).discarded
      ensures Wf() && Idle(lay, t) && View() == t.(discarded := t.discarded + 1)
    {
      hide Wf, View, Inv, Unmap, CanInvalidate, Forgotten;
      t := ForgetOldPage(l);
      SetMaptblNone(l);
      assert View().maptbl == t.maptbl;
      CountDiscard();
    }

    method CountDiscard()
      requires Wf()
      modifies `discarded
      ensures Wf() && View() == old(View()).(discarded := old(View()).discarded + 1)
    {
      discarded := discarded + 1;
    }

    lemma DiscardCounterIsFree(t: Ftl)
      requires Idle(lay, t)
      ensures Idle(lay, t.(discarded := t.discarded + 1))
    {
      hide PlaceOk, LevelOk, SumOk, CountOk, ConserveOk, MapOk, BlkOk;
      assert LinesOk(lay, t, None, {});
      PlaceLengths(lay, t);
      DiscardCounterPlaces(t);
      DiscardCounterLevels(t);
      DiscardCounterSums(t);
    }

    lemma PlaceLengths(lay: Layout, t: Ftl)
      requires PlaceOk(lay.lines, t, None) && SumOk(lay, t)
      ensures |t.place| == |t.vpc| == |t.ipc| == lay.lines
    {
    }

    lemma DiscardCounterPlaces(t: Ftl)
      requires PlaceOk(lay.lines, t, None) && ConserveOk(lay.perLine, t, None, {})
      ensures var u := t.(discarded := t.discarded + 1);
              PlaceOk(lay.lines, u, None) && ConserveOk(lay.perLine, u, None, {})
    {
    }

    lemma DiscardCounterLevels(t: Ftl)
      requires |t.place| == lay.lines && lay.Ok() && LevelOk(lay, t)
      ensures LevelOk(lay, t.(discarded := t.discarded + 1))
    {
    }

    lemma DiscardCounterSums(t: Ftl)
      requires |t.place| == |t.vpc| == |t.ipc| == lay.lines && SumOk(lay, t) && CountOk(t)
      ensures var u := t.(discarded := t.discarded + 1); SumOk(lay, u) && CountOk(u)
    {
    }

    // ----- commands and runs -----

    /** Between commands: the invariant and the space invariant. */
    ghost predicate Ready()
      reads Repr(), wfc
    {
      Good(None, {}) && SpaceOk(lay, View(), wfc.credits, wfc.refill)
    }

    /** A fresh device of at least three lines is ready. */
    lemma FreshIsReady()
      requires Good(None, {}) && Fresh(lay, View()) && lay.lines >= 3
      requires wfc.credits == lay.perLine && wfc.refill == lay.perLine
      ensures Ready() && MappedNow() == {}
    {
      hide Wf, View, Inv, Fresh, SpaceOk, Mapped;
      FreshHasSpace(lay, View());
    }

    /** The clean pages that the credits are weighed against are exactly the free pages of the flash. */
    lemma CleanPagesAreFree()
      requires Good(None, {})
      ensures Clean(lay.perLine, View()) == |FreePages(View().status)|
    {
      hide View, Inv, Clean, FreePages, RanksComplete;
      var page := LayoutIsComplete(g);
      CleanCountsFreePages(lay, View(), page);
    }

    ghost function MappedNow(): set<nat>
      requires Wf()
      reads Repr()
    {
      Mapped(View().maptbl)
    }

    /** A page write from a ready state within the bound fails only on a misled scan, and otherwise stays ready. */
    method WriteReady(l: nat, ages: seq<uint64>) returns (ok: bool)
      requires Ready() && l < lay.logical && |ages| == g.blksPerPl && Bounded(lay, MappedNow() + {l})
      modifies Repr(), wfc
      ensures ok ==> Ready() && MappedNow() == old(MappedNow()) + {l} && host == old(host) + 1
      ensures !ok ==> Misled(ages)
    {
      hide Inv, SpaceOk, Bounded, Mapped, Rewritten, View, Wf, Fits, Placed, Misled;
      ghost var s := View();
      HostField();
      ghost var q;
      ghost var heap;
      ok, q, heap := WritePage(l, ages);
      if ok {
        RewrittenMaps(s, View(), l);
        RewrittenCounts(s, View(), l);
        HostField();
      }
    }

    lemma HostField()
      requires Wf()
      ensures View().host == host
    {
    }

    lemma RewrittenCounts(s: Ftl, u: Ftl, l: nat)
      requires Rewritten(s, u, l)
      ensures u.host == s.host + 1
    {
    }

    /** The page loop of conv_write. */
    method WritePages(start: nat, upto: nat, ages: nat -> seq<uint64>) returns (ok: bool)
      requires Ready() && start <= upto <= lay.logical && forall i :: |ages(i)| == g.blksPerPl
      requires Bounded(lay, MappedNow() + Range(start, upto))
      modifies Repr(), wfc
      ensures ok ==> Ready() && MappedNow() == old(MappedNow()) + Range(start, upto) && host == old(host) + upto - start
      ensures !ok ==> exists i: nat :: Misled(ages(i))
    {
      hide Ready, MappedNow, Wf, View, Inv, SpaceOk, Bounded, Misled;
      ReadyIsWf();
      ghost var before := MappedNow();
      var l := start;
      while l < upto
        invariant start <= l <= upto
        invariant Ready() && Wf() && MappedNow() == before + Range(start, l)
        invariant host == old(host) + l - start
      {
        BoundedSubset(lay, MappedNow() + {l}, before + Range(start, upto));
        ok := WriteReady(l, ages(l));
        if !ok {
          return;
        }
        assert Range(start, l + 1) == Range(start, l) + {l};
        ReadyIsWf();
        l := l + 1;
      }
      return true;
    }

    /**
     conv_write: a request that ends past the device is rejected, any other maps exactly the pages its logical
     blocks lie in, unless the scan of a pass is misled.
     */
    method ConvWrite(slba: nat, nlb: nat, secsPerPg: nat, ages: nat -> seq<uint64>) returns (accepted: bool, ok: bool)
      requires Ready() && nlb > 0 && secsPerPg > 0 && forall i :: |ages(i)| == g.blksPerPl
      requires Bounded(lay, MappedNow() + CoveredBy(slba, nlb, lay.logical, secsPerPg))
      modifies Repr(), wfc
      ensures accepted <==> slba + nlb <= lay.logical * secsPerPg
      ensures !accepted ==> ok && Wf() && View() == old(View())
      ensures ok ==> Ready() && MappedNow() == old(MappedNow()) + CoveredBy(slba, nlb, lay.logical, secsPerPg)
      ensures ok ==> forall l: nat :: l in MappedNow() <==>
                       l in old(MappedNow()) || Reaches(slba, nlb, l, lay.logical, secsPerPg)
      ensures ok ==> host == old(host) + PagesWritten(Write(slba, nlb), lay.logical, secsPerPg)
      ensures ok ==> host == old(host) + |CoveredBy(slba, nlb, lay.logical, secsPerPg)|
      ensures !ok ==> exists i: nat :: Misled(ages(i))
    {
      hide Ready, MappedNow, Wf, View, Inv, SpaceOk, Bounded, FirstPage, LastPage, Misled, Reaches;
      AcceptedExactly(slba, nlb, lay.logical, secsPerPg);
      CoveredExactly(slba, nlb, lay.logical, secsPerPg);
      PagesWrittenExactly(Write(slba, nlb), lay.logical, secsPerPg);
      var start := FirstPage(slba, secsPerPg);
      var end := LastPage(slba, nlb, secsPerPg);
      PagesInOrder(slba, nlb, secsPerPg);
      LogicalSize();
      if end >= g.TtPgs() {
        return false, true;
      }
      ok := WritePages(start, end + 1, ages);
      accepted := true;
    }

    lemma ReadyIsWf()
      requires Ready()
      ensures Wf()
    {
    }

    lemma LogicalSize()
      requires Ready()
      ensures Wf() && lay.logical == g.TtPgs()
    {
    }

    lemma PagesInOrder(slba: nat, nlb: nat, secsPerPg: nat)
      requires nlb > 0 && secsPerPg > 0
      ensures FirstPage(slba, secsPerPg) <= LastPage(slba, nlb, secsPerPg)
    {
      DivMonotone(slba, slba + nlb - 1, secsPerPg, secsPerPg);
    }

    /** One page of a deallocation, from a ready state. */
    method DiscardReady(l: nat)
      requires Ready() && l < lay.logical
      modifies Repr()
      ensures Ready() && MappedNow() == old(MappedNow()) - {l} && host == old(host)
    {
      hide Wf, View, Inv, SpaceOk, Mapped, Unmap, CanInvalidate;
      ghost var s := View();
      HostField();
      DiscardPage(l);
      HostField();
      DiscardKeepsSpace(s, View(), l, wfc.credits, wfc.refill);
    }

    lemma DiscardKeepsSpace(s: Ftl, t: Ftl, l: nat, credits: nat, refill: nat)
      requires SpaceOk(lay, s, credits, refill) && l < |s.maptbl|
      requires s.maptbl[l] == None ==> t == s
      requires s.maptbl[l].Some? ==>
                 CanInvalidate(s, s.maptbl[l].value) && t == Unmap(s, l).(discarded := s.discarded + 1)
      ensures t.host == s.host
      ensures SpaceOk(lay, t, credits, refill) && Mapped(t.maptbl) == Mapped(s.maptbl) - {l}
    {
      hide CanInvalidate, Unmap, Mapped;
      if s.maptbl[l].Some? {
        UnmapUnmaps(s, l);
        UnmapKeepsHost(s, l);
        UnmapKeepsSpace(lay, s, l);
      } else {
        UnmappedIsNotMapped(s, l);
      }
    }

    lemma UnmapKeepsHost(s: Ftl, l: nat)
      requires l < |s.maptbl| && s.maptbl[l].Some? && CanInvalidate(s, s.maptbl[l].value)
      ensures Unmap(s, l).host == s.host
    {
    }

    lemma UnmappedIsNotMapped(s: Ftl, l: nat)
      requires l < |s.maptbl| && s.maptbl[l] == None
      ensures l !in Mapped(s.maptbl)
    {
    }

    /** The page loop of conv_discard for one range. */
    method DiscardPages(start: nat, upto: nat)
      requires Ready() && start <= upto <= lay.logical
      modifies Repr()
      ensures Ready() && MappedNow() == old(MappedNow()) - Range(start, upto) && host == old(host)
    {
      hide Ready, MappedNow, Wf, View, Inv, SpaceOk;
      ReadyIsWf();
      ghost var before := MappedNow();
      var l := start;
      while l < upto
        invariant start <= l <= upto
        invariant Ready() && Wf() && MappedNow() == before - Range(start, l) && host == old(host)
      {
        DiscardReady(l);
        assert Range(start, l + 1) == Range(start, l) + {l};
        ReadyIsWf();
        l := l + 1;
      }
    }

    /** conv_discard: exactly the pages that hold a logical block of a range inside the device become unmapped. */
    method ConvDiscard(ranges: seq<(nat, nat)>, secsPerPg: nat)
      requires Ready() && secsPerPg > 0
      modifies Repr()
      ensures Ready() && MappedNow() == old(MappedNow()) - Covered(ranges, lay.logical, secsPerPg) && host == old(host)
      ensures forall l: nat :: l in MappedNow() <==>
                l in old(MappedNow()) && !SomeReaches(ranges, l, lay.logical, secsPerPg)
    {
      hide Ready, MappedNow, Wf, View, Inv, SpaceOk, FirstPage, LastPage, CoveredBy, SomeReaches;
      CoveredByRanges(ranges, lay.logical, secsPerPg);
      ReadyIsWf();
      ghost var before := MappedNow();
      var i := 0;
      while i < |ranges|
        invariant 0 <= i <= |ranges|
        invariant Ready() && Wf() && host == old(host)
        invariant MappedNow() == before - Covered(ranges[..i], lay.logical, secsPerPg)
      {
        assert ranges[..i + 1][..i] == ranges[..i];
        DiscardRange(ranges[i].0, ranges[i].1, secsPerPg);
        ReadyIsWf();
        i := i + 1;
      }
      assert ranges[..i] == ranges;
    }

    /** One range of conv_discard. */
    method DiscardRange(slba: nat, nlb: nat, secsPerPg: nat)
      requires Ready() && secsPerPg > 0
      modifies Repr()
      ensures Ready() && MappedNow() == old(MappedNow()) - CoveredBy(slba, nlb, lay.logical, secsPerPg)
      ensures host == old(host)
    {
      hide Ready, MappedNow, Wf, View, Inv, SpaceOk, FirstPage, LastPage;
      LogicalSize();
      if nlb == 0 {
        return;
      }
      PagesInOrder(slba, nlb, secsPerPg);
      if LastPage(slba, nlb, secsPerPg) >= g.TtPgs() {
        return;
      }
      DiscardPages(FirstPage(slba, secsPerPg), LastPage(slba, nlb, secsPerPg) + 1);
    }

    /** One command of a run. */
    method Execute(c: Command, secsPerPg: nat, ages: nat -> seq<uint64>) returns (ok: bool)
      requires Ready() && secsPerPg > 0 && (forall i :: |ages(i)| == g.blksPerPl) && (c.Write? ==> c.nlb > 0)
      requires Bounded(lay, MappedNow() + Writes(c, lay.logical, secsPerPg))
      modifies Repr(), wfc
      ensures ok ==> Ready() && MappedNow() == MappedAfter(old(MappedNow()), c, lay.logical, secsPerPg)
      ensures ok ==> host == old(host) + PagesWritten(c, lay.logical, secsPerPg)
      ensures !ok ==> exists i: nat :: Misled(ages(i))
    {
      hide Ready, MappedNow, Wf, View, Inv, SpaceOk, Bounded, FirstPage, LastPage, Covered, Range, Misled;
      ReadyIsWf();
      match c {
        case Write(slba, nlb) =>
          var accepted;
          accepted, ok := ConvWrite(slba, nlb, secsPerPg, ages);
        case Deallocate(ranges) =>
          ConvDiscard(ranges, secsPerPg);
          ok := true;
      }
    }

    /**
     Safety over whole runs: while the mapped pages stay within the bound, no command of a run finds the device
     out of lines; the invariants hold after every command, the host's page count is what the commands say, and a
     page is mapped exactly when the last command that reached it was a write, or none did and it was mapped before.
     Only the scan of a cost-benefit policy can spoil a run, by picking a line that is not a victim.
     */
    method Run(cmds: seq<Command>, secsPerPg: nat, ages: nat -> nat -> seq<uint64>) returns (ok: bool)
      requires Ready() && secsPerPg > 0 && forall i, j :: |ages(i)(j)| == g.blksPerPl
      requires StaysBounded(lay, MappedNow(), cmds, secsPerPg)
      requires forall c <- cmds :: c.Write? ==> c.nlb > 0
      modifies Repr(), wfc
      ensures ok ==> Ready() && MappedNow() == MappedAfterAll(old(MappedNow()), cmds, lay.logical, secsPerPg)
      ensures ok ==> forall l: nat :: l in MappedNow() <==>
                       (exists i | 0 <= i < |cmds| :: LastFills(cmds, i, l, lay.logical, secsPerPg))
                       || (l in old(MappedNow()) && NoneEmpties(cmds, 0, l, lay.logical, secsPerPg))
      ensures ok ==> host == old(host) + PagesWrittenByAll(cmds, lay.logical, secsPerPg)
      ensures !ok ==> exists i: nat, j: nat :: Misled(ages(i)(j))
      ensures policy == Greedy(false) ==> ok
    {
      hide Ready, MappedNow, Wf, View, Inv, SpaceOk, Bounded, Writes, MappedAfter, PagesWritten, Misled;
      hide LastFills, NoneEmpties;
      ReadyIsWf();
      ghost var before := MappedNow();
      var i := 0;
      while i < |cmds|
        invariant 0 <= i <= |cmds|
        invariant Ready() && Wf() && MappedNow() == MappedAfterAll(before, cmds[..i], lay.logical, secsPerPg)
        invariant host == old(host) + PagesWrittenByAll(cmds[..i], lay.logical, secsPerPg)
      {
        assert cmds[i] in cmds;
        assert cmds[..i + 1][..i] == cmds[..i];
        ok := Execute(cmds[i], secsPerPg, ages(i));
        if !ok {
          ghost var j: nat :| Misled(ages(i)(j));
          if policy == Greedy(false) {
            GreedyIsNeverMisled(ages(i)(j));
          }
          return;
        }
        ReadyIsWf();
        i := i + 1;
      }
      assert cmds[..i] == cmds;
      forall l: nat
        ensures l in MappedAfterAll(before, cmds, lay.logical, secsPerPg) <==>
                (exists j | 0 <= j < |cmds| :: LastFills(cmds, j, l, lay.logical, secsPerPg))
                || (l in before && NoneEmpties(cmds, 0, l, lay.logical, secsPerPg))
      {
        LastCommandDecides(before, cmds, lay.logical, secsPerPg, l);
      }
      return true;
    }

    /** One page of a sequential fill. */
    method FillOne(i: nat, ages: seq<uint64>) returns (ok: bool)
      requires Wf() && Filling(lay, View(), i) && i < lay.logical && |ages| == g.blksPerPl
      modifies Repr(), wfc
      ensures ok <==> i + 1 < (lay.lines - 1) * lay.perLine
      ensures ok ==> Wf() && Filling(lay, View(), i + 1)
    {
      hide Wf, View, Inv, CanFill, Program, CanAdvance, Rewritten, SpaceOk, Bounded, Filling;
      ghost var s := View();
      FillingSizes(s, i);
      ghost var q;
      ghost var heap;
      ok, q, heap := WritePage(i, ages);
      FillingStep(lay, s, i, q);
      FillingVictims(lay, s, i, q);
    }

    /**
     Without the bound the guarantee fails, on every geometry: writing the logical pages 0, 1, ... of a fresh
     device once each succeeds exactly for fewer pages than one line less than the device has, although every
     one of these pages passes the range check of conv_write.
     */
    method FillDistinct(n: nat, ages: nat -> seq<uint64>) returns (ok: bool)
      requires Wf() && Fresh(lay, View()) && n <= lay.logical && forall i :: |ages(i)| == g.blksPerPl
      modifies Repr(), wfc
      ensures ok <==> n == 0 || n < (lay.lines - 1) * lay.perLine
    {
      hide Wf, View, Fresh, Filling;
      FreshIsFilling(lay, View());
      var i := 0;
      ok := true;
      while ok && i < n
        invariant 0 <= i <= n
        invariant ok ==> Wf() && Filling(lay, View(), i)
        invariant ok ==> i == 0 || i < (lay.lines - 1) * lay.perLine
        invariant !ok ==> n > 0 && n >= (lay.lines - 1) * lay.perLine
      {
        ok := FillOne(i, ages(i));
        i := i + 1;
      }
    }

    lemma FillingSizes(s: Ftl, n: nat)
      requires Filling(lay, s, n) && n < lay.logical
      ensures Idle(lay, s) && n < |s.maptbl| && s.maptbl[n] == None
    {
      assert LinesOk(lay, s, None, {});
    }

    lemma FillingVictims(lay: Layout, s: Ftl, n: nat, q: Ppa)
      requires n < |s.maptbl| && CanFill(lay, s, User, n, q) && (s.free != [] ==> s.free[0] < |s.place|)
      requires CanAdvance(lay, s, User) ==> Filling(lay, Program(lay, s, User, n, q), n + 1)
      ensures CanAdvance(lay, s, User) ==> Program(lay, s, User, n, q).victims == {}
    {
      hide Program;
    }
  }
}
