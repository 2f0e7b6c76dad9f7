/** What a garbage collection pass has achieved at every point of its nested loops, and at its end (do_gc). */
module FtlPass {
  import opened Wrappers
  import opened Geometry
  import opened FtlState
  import opened FtlUpdates
  import opened FtlCollect
  import opened LineLists

  /** Pages that garbage collection can still write before it needs a line that is not there. */
  ghost function Room(perLine: nat, s: Ftl): int {
    |s.free| * perLine + perLine - s.gc.done
  }

  /**
   Where a logical page may be after part of a pass: where it was, unless its page is among the `stale`
   ones, and then on a page outside the victim that was free when the pass began.
   */
  ghost predicate Moved(before: Option<Ppa>, after: Option<Ppa>, status0: map<Ppa, Status>, v: nat, stale: set<Ppa>) {
    if before.Some? && before.value in stale then
      after.Some? && after.value in status0 && status0[after.value] == Free && after.value.blk != v
    else
      after == before
  }

  ghost predicate LogicalKept(s0: Ftl, s: Ftl, v: nat, stale: set<Ppa>) {
    && |s.maptbl| == |s0.maptbl|
    && (forall l | 0 <= l < |s0.maptbl| :: Moved(s0.maptbl[l], s.maptbl[l], s0.status, v, stale))
  }

  /** Victim pages keep their status until their block is erased; elsewhere only free pages change. */
  ghost predicate PagesKept(s0: Ftl, s: Ftl, v: nat, erased: set<Blk>) {
    && s.status.Keys == s0.status.Keys
    && (forall p <- s0.status | p.blk == v :: s.status[p] == if BlkOf(p) in erased then Free else s0.status[p])
    && (forall p <- s0.status | p.blk != v && s0.status[p] != Free :: s.status[p] == s0.status[p])
  }

  ghost predicate CountersKept(lay: Layout, s0: Ftl, s: Ftl, v: nat) {
    && s.user == s0.user && s.host == s0.host && s.discarded == s0.discarded
    && s.collections == s0.collections && s.victimVpcSum == s0.victimVpcSum
    && |s.vpc| == |s0.vpc| && |s.ipc| == |s0.ipc| && v < |s0.vpc| && v < |s0.ipc|
    && s.vpc[v] == s0.vpc[v] && s.ipc[v] == s0.ipc[v]
    && s.copied >= s0.copied
    && Room(lay.perLine, s) + s.copied == Room(lay.perLine, s0) + s0.copied
  }

  /** The lines are as the copies made so far leave them. */
  ghost predicate ListsKept(perLine: nat, s0: Ftl, s: Ftl) {
    s.copied >= s0.copied && ListsOf(s) == CopyPages(perLine, ListsOf(s0), s.copied - s0.copied)
  }

  ghost predicate Progress(lay: Layout, s0: Ftl, s: Ftl, v: nat, stale: set<Ppa>, erased: set<Blk>) {
    && Inv(lay, s, Some(v), stale)
    && LogicalKept(s0, s, v, stale)
    && PagesKept(s0, s, v, erased)
    && CountersKept(lay, s0, s, v)
    && ListsKept(lay.perLine, s0, s)
    && s.blkVpc.Keys == s0.blkVpc.Keys
    && ErasedAreStale(s0.status, stale, erased)
  }

  ghost predicate ErasedAreStale(status0: map<Ppa, Status>, stale: set<Ppa>, erased: set<Blk>) {
    forall p <- status0 | BlkOf(p) in erased :: p in stale
  }

  lemma ProgressStarts(lay: Layout, s0: Ftl, v: nat)
    requires Inv(lay, s0, Some(v), {})
    ensures Progress(lay, s0, s0, v, {}, {})
  {
    assert LinesOk(lay, s0, Some(v), {});
    assert v < |s0.place|;
  }

  /** A victim page that is not valid needs no copy. */
  lemma ProgressSkips(lay: Layout, s0: Ftl, s: Ftl, v: nat, stale: set<Ppa>, erased: set<Blk>, p: Ppa)
    requires Progress(lay, s0, s, v, stale, erased)
    requires p in s.status && p.blk == v && s.status[p] != Valid
    ensures Progress(lay, s0, s, v, stale + {p}, erased)
  {
    SkipInv(lay, s, v, stale, p);
    SkipLogical(s0, s, v, stale, p) by {
      assert MapOk(s.maptbl, s.rmap, s.status, stale);
    }
  }

  lemma SkipInv(lay: Layout, s: Ftl, v: nat, stale: set<Ppa>, p: Ppa)
    requires Inv(lay, s, Some(v), stale) && p in s.status && p.blk == v && s.status[p] != Valid
    ensures Inv(lay, s, Some(v), stale + {p})
  {
    SkipMap(s, stale, p);
    SkipLines(lay, s, v, stale, p);
  }

  lemma SkipMap(s: Ftl, stale: set<Ppa>, p: Ppa)
    requires MapOk(s.maptbl, s.rmap, s.status, stale) && p in s.status && s.status[p] != Valid
    ensures MapOk(s.maptbl, s.rmap, s.status, stale + {p})
  {
  }

  lemma SkipLines(lay: Layout, s: Ftl, v: nat, stale: set<Ppa>, p: Ppa)
    requires LinesOk(lay, s, Some(v), stale) && p in s.status && p.blk == v && s.status[p] != Valid
    ensures LinesOk(lay, s, Some(v), stale + {p})
  {
    SkipConserve(lay, s, v, stale, p);
  }

  lemma SkipConserve(lay: Layout, s: Ftl, v: nat, stale: set<Ppa>, p: Ppa)
    requires ConserveOk(lay.perLine, s, Some(v), stale) && StaleOk(s.status, Some(v), stale)
    requires p in s.status && p.blk == v && s.status[p] != Valid
    ensures ConserveOk(lay.perLine, s, Some(v), stale + {p}) && StaleOk(s.status, Some(v), stale + {p})
  {
    assert Pending(s.status, Some(v), stale + {p}) == Pending(s.status, Some(v), stale);
  }

  lemma SkipLogical(s0: Ftl, s: Ftl, v: nat, stale: set<Ppa>, p: Ppa)
    requires LogicalKept(s0, s, v, stale) && MapOk(s.maptbl, s.rmap, s.status, stale)
    requires p in s.status && s.status[p] != Valid
    ensures LogicalKept(s0, s, v, stale + {p})
  {
    forall l | 0 <= l < |s0.maptbl|
      ensures Moved(s0.maptbl[l], s.maptbl[l], s0.status, v, stale + {p})
    {
      assert Moved(s0.maptbl[l], s.maptbl[l], s0.status, v, stale);
    }
  }

  // ----- copying a valid page -----

  lemma RoomAfter(lay: Layout, s: Ftl, l: nat, q: Ppa)
    requires CanFill(lay, s, Gc, l, q) && CanAdvance(lay, s, Gc) && s.gc.done < lay.perLine
    requires s.free != [] ==> s.free[0] < |s.place|
    ensures Room(lay.perLine, Program(lay, s, Gc, l, q)) == Room(lay.perLine, s) - 1
  {
    if s.gc.done + 1 == lay.perLine {
      assert |s.free| * lay.perLine == (|s.free| - 1) * lay.perLine + lay.perLine;
    }
  }

  /** There is room for every page still to be copied, so the garbage collection pointer never lacks a line. */
  lemma RoomSuffices(lay: Layout, s: Ftl, v: nat, stale: set<Ppa>, p: Ppa)
    requires p in s.status && p.blk == v && s.status[p] == Valid && p !in stale
    requires Room(lay.perLine, s) > |Pending(s.status, Some(v), stale)|
    ensures CanAdvance(lay, s, Gc)
  {
    assert p in Pending(s.status, Some(v), stale);
  }

  /** Room beyond the valid pages of the victim, when the pass starts in state `s0`. */
  ghost function Spare(lay: Layout, s0: Ftl): int {
    Room(lay.perLine, s0) + s0.copied - s0.victimVpcSum
  }

  /** Copying a page takes one page of room and leaves one page less to copy. */
  lemma SpareIsConstant(lay: Layout, s0: Ftl, s: Ftl, v: nat, stale: set<Ppa>)
    requires CountersKept(lay, s0, s, v) && ConserveOk(lay.perLine, s, Some(v), stale)
    ensures Room(lay.perLine, s) - |Pending(s.status, Some(v), stale)| == Spare(lay, s0)
  {
  }

  /** With room to spare at the start of the pass, every copy of the pass can be made. */
  lemma SpareSuffices(lay: Layout, s0: Ftl, s: Ftl, v: nat, stale: set<Ppa>, erased: set<Blk>, p: Ppa)
    requires Progress(lay, s0, s, v, stale, erased) && Spare(lay, s0) > 0
    requires p in s.status && p.blk == v && s.status[p] == Valid && p !in stale
    ensures CanAdvance(lay, s, Gc)
  {
    SpareOf(lay, s0, s, v, stale, erased);
    RoomSuffices(lay, s, v, stale, p);
  }

  lemma SpareOf(lay: Layout, s0: Ftl, s: Ftl, v: nat, stale: set<Ppa>, erased: set<Blk>)
    requires Progress(lay, s0, s, v, stale, erased)
    ensures Room(lay.perLine, s) - |Pending(s.status, Some(v), stale)| == Spare(lay, s0)
    ensures Room(lay.perLine, s) > 0
  {
    hide PlaceOk, LevelOk, SumOk, CountOk, ConserveOk, StaleOk, TablesOk;
    hide LogicalKept, PagesKept, CountersKept, Room, Spare;
    assert LinesOk(lay, s, Some(v), stale) && OpenOk(lay, s);
    SpareIsConstant(lay, s0, s, v, stale);
    RoomIsPositive(lay.perLine, s);
  }

  lemma RoomIsPositive(perLine: nat, s: Ftl)
    requires s.gc.done < perLine
    ensures Room(perLine, s) > 0
  {
    assert |s.free| * perLine >= 0;
  }

  lemma CopySource(lay: Layout, s0: Ftl, s: Ftl, v: nat, stale: set<Ppa>, erased: set<Blk>, p: Ppa)
    requires Progress(lay, s0, s, v, stale, erased)
    requires p in s.status && p.blk == v && s.status[p] == Valid && p !in stale
    ensures Inv(lay, s, Some(v), stale)
    ensures p in s.rmap && s.rmap[p].Some? && s.rmap[p].value < |s.maptbl| && s.maptbl[s.rmap[p].value] == Some(p)
    ensures s == s.(maptbl := s.maptbl[s.rmap[p].value := s.maptbl[s.rmap[p].value]])
  {
    hide LinesOk, LogicalKept, PagesKept, CountersKept, MapOk, BlkOk;
    ReverseOfValid(s, stale, p);
    assert s.maptbl == s.maptbl[s.rmap[p].value := s.maptbl[s.rmap[p].value]];
  }

  /** A page of the victim is not free before its block is erased. */
  lemma VictimPageInUse(lay: Layout, s0: Ftl, s: Ftl, v: nat, stale: set<Ppa>, erased: set<Blk>, p: Ppa)
    requires Progress(lay, s0, s, v, stale, erased) && LineInUse(s0.status, v)
    requires p in s.status && p.blk == v && BlkOf(p) !in erased
    ensures s.status[p] != Free
  {
  }

  ghost predicate LineInUse(status: map<Ppa, Status>, v: nat) {
    forall p <- status | p.blk == v :: status[p] != Free
  }

  lemma VictimInUse(lay: Layout, s: Ftl, v: nat)
    requires Idle(lay, s) && v in s.victims
    ensures LineInUse(s.status, v)
  {
    assert LinesOk(lay, s, None, {});
  }

  lemma CopyLogical(s0: Ftl, s: Ftl, v: nat, stale: set<Ppa>, p: Ppa, l: nat, q: Ppa)
    requires LogicalKept(s0, s, v, stale) && MapOk(s.maptbl, s.rmap, s.status, stale)
    requires l < |s.maptbl| && s.maptbl[l] == Some(p) && p !in stale && p.blk == v
    requires q in s0.status && s0.status[q] == Free && q.blk != v
    ensures forall t: Ftl | t.maptbl == s.maptbl[l := Some(q)] :: LogicalKept(s0, t, v, stale + {p})
  {
    forall m | 0 <= m < |s0.maptbl|
      ensures Moved(s0.maptbl[m], s.maptbl[l := Some(q)][m], s0.status, v, stale + {p})
    {
      assert Moved(s0.maptbl[m], s.maptbl[m], s0.status, v, stale);
    }
  }

  /** gc_write_page moves the logical page of a valid victim page to the garbage collection pointer. */
  lemma ProgressCopies(lay: Layout, s0: Ftl, s: Ftl, v: nat, stale: set<Ppa>, erased: set<Blk>, p: Ppa, q: Ppa)
    requires Progress(lay, s0, s, v, stale, erased)
    requires p in s.status && p.blk == v && s.status[p] == Valid && p !in stale
    requires IsNext(lay, s, Gc, q) && CanAdvance(lay, s, Gc)
    ensures p in s.rmap && s.rmap[p].Some? && s.rmap[p].value < |s.maptbl|
    ensures CanFill(lay, s, Gc, s.rmap[p].value, q) && (s.free != [] ==> s.free[0] < |s.place|)
    ensures Progress(lay, s0, Program(lay, s, Gc, s.rmap[p].value, q), v, stale + {p}, erased)
  {
    hide LinesOk, MapOk, BlkOk, LogicalKept, PagesKept, CountersKept, ListsKept, CanFill, Program;
    CopyInv(lay, s, v, stale, p, q);
    var l := s.rmap[p].value;
    CopyCounters(lay, s0, s, v, l, q);
    CopyListed(lay, s0, s, l, q);
    CopyKeepsPages(lay, s0, s, v, erased, l, q);
    CopyLogical(s0, s, v, stale, p, l, q);
    CopyFields(lay, s, l, q);
  }

  lemma CopyFields(lay: Layout, s: Ftl, l: nat, q: Ppa)
    requires CanFill(lay, s, Gc, l, q) && CanAdvance(lay, s, Gc) && (s.free != [] ==> s.free[0] < |s.place|)
    ensures var t := Program(lay, s, Gc, l, q); t.maptbl == s.maptbl[l := Some(q)] && t.copied == s.copied + 1
  {
  }

  lemma CopyInv(lay: Layout, s: Ftl, v: nat, stale: set<Ppa>, p: Ppa, q: Ppa)
    requires Inv(lay, s, Some(v), stale)
    requires p in s.status && p.blk == v && s.status[p] == Valid && p !in stale
    requires IsNext(lay, s, Gc, q) && CanAdvance(lay, s, Gc)
    ensures p in s.rmap && s.rmap[p].Some? && s.rmap[p].value < |s.maptbl| && s.maptbl[s.rmap[p].value] == Some(p)
    ensures CanFill(lay, s, Gc, s.rmap[p].value, q) && (s.free != [] ==> s.free[0] < |s.place|)
    ensures q !in stale && q.blk != v && s.gc.done < lay.perLine
    ensures Inv(lay, Program(lay, s, Gc, s.rmap[p].value, q), Some(v), stale + {p})
  {
    ReverseOfValid(s, stale, p);
    var l := s.rmap[p].value;
    NextPageIsFree(lay, s, Some(v), stale, Gc, l, q);
    ProgramKeepsInv(lay, s, Some(v), stale, Gc, l, q);
  }

  lemma ReverseOfValid(s: Ftl, stale: set<Ppa>, p: Ppa)
    requires TablesOk(s, stale) && p in s.status && s.status[p] == Valid && p !in stale
    ensures p in s.rmap && s.rmap[p].Some? && s.rmap[p].value < |s.maptbl| && s.maptbl[s.rmap[p].value] == Some(p)
  {
  }

  lemma CopyCounters(lay: Layout, s0: Ftl, s: Ftl, v: nat, l: nat, q: Ppa)
    requires CountersKept(lay, s0, s, v)
    requires CanFill(lay, s, Gc, l, q) && CanAdvance(lay, s, Gc) && q.blk != v && s.gc.done < lay.perLine
    requires s.free != [] ==> s.free[0] < |s.place|
    ensures CountersKept(lay, s0, Program(lay, s, Gc, l, q), v)
    ensures Program(lay, s, Gc, l, q).blkVpc.Keys == s.blkVpc.Keys
  {
    RoomAfter(lay, s, l, q);
  }

  lemma CopyListed(lay: Layout, s0: Ftl, s: Ftl, l: nat, q: Ppa)
    requires ListsKept(lay.perLine, s0, s)
    requires CanFill(lay, s, Gc, l, q) && CanAdvance(lay, s, Gc) && s.gc.done < lay.perLine
    requires s.free != [] ==> s.free[0] < |s.place|
    ensures ListsKept(lay.perLine, s0, Program(lay, s, Gc, l, q))
  {
    hide Program;
    CopyFields(lay, s, l, q);
    ProgramLists(lay, s, Gc, l, q);
  }

  lemma CopyKeepsPages(lay: Layout, s0: Ftl, s: Ftl, v: nat, erased: set<Blk>, l: nat, q: Ppa)
    requires PagesKept(s0, s, v, erased)
    requires CanFill(lay, s, Gc, l, q) && CanAdvance(lay, s, Gc) && q.blk != v
    requires s.free != [] ==> s.free[0] < |s.place|
    ensures PagesKept(s0, Program(lay, s, Gc, l, q), v, erased) && q in s0.status && s0.status[q] == Free
  {
  }

  // ----- erasing -----

  /** mark_block_free, once every page of the block has been dealt with. */
  lemma ProgressErases(lay: Layout, s0: Ftl, s: Ftl, v: nat, stale: set<Ppa>, erased: set<Blk>, k: Blk)
    requires Progress(lay, s0, s, v, stale, erased)
    requires k.blk == v && k in s.blkVpc && BlockDone(s.status, stale, k)
    ensures Progress(lay, s0, EraseBlock(s, k), v, stale, erased + {k})
  {
    EraseKeepsInv(lay, s, Some(v), stale, k);
    ErasePages(s0, s, v, erased, k);
    EraseRest(lay, s0, s, v, stale, erased, k);
  }

  lemma EraseRest(lay: Layout, s0: Ftl, s: Ftl, v: nat, stale: set<Ppa>, erased: set<Blk>, k: Blk)
    requires LogicalKept(s0, s, v, stale) && CountersKept(lay, s0, s, v) && ErasedAreStale(s0.status, stale, erased)
    requires ListsKept(lay.perLine, s0, s)
    requires s.status.Keys == s0.status.Keys && BlockDone(s.status, stale, k) && k in s.blkVpc
    ensures var s' := EraseBlock(s, k);
            && LogicalKept(s0, s', v, stale) && CountersKept(lay, s0, s', v) && ListsKept(lay.perLine, s0, s')
            && ErasedAreStale(s0.status, stale, erased + {k}) && s'.blkVpc.Keys == s.blkVpc.Keys
  {
  }

  lemma ErasePages(s0: Ftl, s: Ftl, v: nat, erased: set<Blk>, k: Blk)
    requires PagesKept(s0, s, v, erased) && k.blk == v
    ensures PagesKept(s0, EraseBlock(s, k), v, erased + {k})
  {
    assert EraseBlock(s, k).status.Keys == s.status.Keys;
  }

  // ----- the whole pass -----

  /**
   The outcome of a pass over line `v`, from the state `s` before it: no logical page is lost or gained,
   those outside the victim do not move, those inside move to distinct pages that were free, the victim is
   erased and free, and the counters and lists of the lines account for every copied page.
   */
  ghost predicate Collected(lay: Layout, s: Ftl, s': Ftl, v: nat)
    requires v < |s.vpc| && v < |s.ipc|
  {
    && |s'.maptbl| == |s.maptbl|
    && (forall l | 0 <= l < |s.maptbl| ::
          match s.maptbl[l]
          case None => s'.maptbl[l] == None
          case Some(p) =>
            if p.blk != v then s'.maptbl[l] == Some(p)
            else s'.maptbl[l].Some? && s'.maptbl[l].value in s.status
                 && s.status[s'.maptbl[l].value] == Free && s'.maptbl[l].value.blk != v)
    && s'.status.Keys == s.status.Keys && LineErased(s'.status, v)
    && s'.free != [] && s'.free[|s'.free| - 1] == v
    && v < |s'.vpc| && v < |s'.ipc| && s'.vpc[v] == 0 && s'.ipc[v] == 0
    && s'.copied == s.copied + s.vpc[v] && s'.victimVpcSum == s.victimVpcSum + s.vpc[v]
    && s'.collections == s.collections + 1 && s'.host == s.host && s'.discarded == s.discarded
    && s'.user == s.user
    && ListsOf(s') == CollectLists(lay.perLine, ListsOf(s), v)
    && Room(lay.perLine, s') == Room(lay.perLine, s) - s.vpc[v] + lay.perLine
  }

  lemma PassEnds(lay: Layout, s: Ftl, t: Ftl, v: nat, stale: set<Ppa>, erased: set<Blk>)
    requires Idle(lay, s) && v in s.victims && v < |s.place| && |s.vpc| == |s.place| && |s.ipc| == |s.place|
    requires Progress(lay, TakeVictim(s, v), t, v, stale, erased)
    requires forall p <- s.status | p.blk == v :: p in stale && BlkOf(p) in erased
    ensures v < |t.vpc| && |t.ipc| == |t.vpc| == |t.place|
    ensures Idle(lay, FreeLine(t, v)) && Collected(lay, s, FreeLine(t, v), v)
  {
    PassErases(TakeVictim(s, v), t, v, erased);
    FreeKeepsInv(lay, t, v, stale);
    PassLists(lay.perLine, s, t, v, stale) by {
      assert LinesOk(lay, t, Some(v), stale) && LinesOk(lay, s, None, {});
      AllSettled(s, t, v, stale);
    }
    PassCollects(lay, s, t, v, stale) by {
      assert LinesOk(lay, t, Some(v), stale) && LinesOk(lay, s, None, {});
    }
  }

  lemma PassErases(s0: Ftl, t: Ftl, v: nat, erased: set<Blk>)
    requires PagesKept(s0, t, v, erased)
    requires forall p <- s0.status | p.blk == v :: BlkOf(p) in erased
    ensures LineErased(t.status, v)
  {
  }

  lemma AllSettled(s: Ftl, t: Ftl, v: nat, stale: set<Ppa>)
    requires t.status.Keys == s.status.Keys && forall p <- s.status | p.blk == v :: p in stale
    ensures Pending(t.status, Some(v), stale) == {}
  {
  }

  lemma PassLists(perLine: nat, s: Ftl, t: Ftl, v: nat, stale: set<Ppa>)
    requires ConserveOk(perLine, s, None, {}) && ConserveOk(perLine, t, Some(v), stale)
    requires v < |s.place| && |s.vpc| == |s.place| && v < |t.vpc| && |t.ipc| == |t.vpc| == |t.place|
    requires ListsKept(perLine, TakeVictim(s, v), t) && t.victimVpcSum == s.victimVpcSum + s.vpc[v]
    requires Pending(t.status, Some(v), stale) == {}
    ensures ListsOf(FreeLine(t, v)) == CollectLists(perLine, ListsOf(s), v)
  {
    assert t.copied == s.copied + s.vpc[v];
  }

  lemma PassCollects(lay: Layout, s: Ftl, t: Ftl, v: nat, stale: set<Ppa>)
    requires ConserveOk(lay.perLine, s, None, {}) && ConserveOk(lay.perLine, t, Some(v), stale)
    requires v < |s.place| && |s.vpc| == |s.place| && |s.ipc| == |s.place|
    requires CountersKept(lay, TakeVictim(s, v), t, v) && LineErased(t.status, v)
    requires |t.ipc| == |t.vpc| == |t.place| && t.status.Keys == s.status.Keys
    requires LogicalKept(TakeVictim(s, v), t, v, stale) && StaleOk(t.status, Some(v), stale)
    requires MapOk(s.maptbl, s.rmap, s.status, {})
    requires forall p <- s.status | p.blk == v :: p in stale
    requires ListsOf(FreeLine(t, v)) == CollectLists(lay.perLine, ListsOf(s), v)
    ensures Collected(lay, s, FreeLine(t, v), v)
  {
    PassCounters(lay, s, t, v, stale);
    PassLogical(s, t, v, stale) by {
      LogicalKeptFrom(s, t, v, stale);
    }
  }

  lemma LogicalKeptFrom(s: Ftl, t: Ftl, v: nat, stale: set<Ppa>)
    requires v < |s.place| && |s.vpc| == |s.place|
    requires LogicalKept(TakeVictim(s, v), t, v, stale)
    ensures LogicalKept(s, t, v, stale)
  {
    forall l | 0 <= l < |s.maptbl|
      ensures Moved(s.maptbl[l], t.maptbl[l], s.status, v, stale)
    {
      assert Moved(TakeVictim(s, v).maptbl[l], t.maptbl[l], s.status, v, stale);
    }
  }

  lemma PassLogical(s: Ftl, t: Ftl, v: nat, stale: set<Ppa>)
    requires LogicalKept(s, t, v, stale) && StaleOk(t.status, Some(v), stale)
    requires MapOk(s.maptbl, s.rmap, s.status, {})
    requires forall p <- s.status | p.blk == v :: p in stale
    ensures forall l | 0 <= l < |s.maptbl| ::
              match s.maptbl[l]
              case None => t.maptbl[l] == None
              case Some(p) =>
                if p.blk != v then t.maptbl[l] == Some(p)
                else t.maptbl[l].Some? && t.maptbl[l].value in s.status
                     && s.status[t.maptbl[l].value] == Free && t.maptbl[l].value.blk != v
  {
    forall l | 0 <= l < |s.maptbl|
      ensures Moved(s.maptbl[l], t.maptbl[l], s.status, v, stale)
    {
    }
  }

  lemma PassCounters(lay: Layout, s: Ftl, t: Ftl, v: nat, stale: set<Ppa>)
    requires ConserveOk(lay.perLine, s, None, {}) && ConserveOk(lay.perLine, t, Some(v), stale)
    requires v < |s.place| && |s.vpc| == |s.place| && |s.ipc| == |s.place|
    requires CountersKept(lay, TakeVictim(s, v), t, v) && LineErased(t.status, v) && |t.place| == |t.vpc|
    ensures t.copied == s.copied + s.vpc[v]
    ensures Room(lay.perLine, FreeLine(t, v)) == Room(lay.perLine, s) - s.vpc[v] + lay.perLine
  {
    assert Pending(t.status, Some(v), stale) == {};
    assert |FreeLine(t, v).free| * lay.perLine == |t.free| * lay.perLine + lay.perLine;
  }

  /** The state right after the victim is taken starts a pass; its room to spare is that of the state before. */
  lemma PassStarts(lay: Layout, s: Ftl, v: nat)
    requires Idle(lay, s) && v in s.victims
    ensures v < |s.place| && |s.vpc| == |s.place| && |s.ipc| == |s.place|
    ensures var s0 := TakeVictim(s, v);
            && Progress(lay, s0, s0, v, {}, {}) && LineInUse(s0.status, v)
            && Spare(lay, s0) == Room(lay.perLine, s) - s.vpc[v]
  {
    TakeKeepsInv(lay, s, v);
    VictimInUse(lay, s, v);
    ProgressStarts(lay, TakeVictim(s, v), v);
    StartSizes(lay, s);
  }

  lemma StartSizes(lay: Layout, s: Ftl)
    requires Idle(lay, s)
    ensures |s.vpc| == |s.ipc| == |s.place| == lay.lines && s.copied == s.victimVpcSum
  {
    assert LinesOk(lay, s, None, {});
  }

  lemma VictimIsOut(lay: Layout, s: Ftl, v: nat, stale: set<Ppa>)
    requires Inv(lay, s, Some(v), stale)
    ensures v !in s.victims && v < |s.place| == lay.lines
  {
    assert LinesOk(lay, s, Some(v), stale);
  }
}
