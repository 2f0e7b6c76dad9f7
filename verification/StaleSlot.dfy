/**
 A run that misleads the cost-benefit scan (conv_ftl.c): after a pass took its victim from the last slot of the
 heap, the slot still names the line, which is free by then, and the next pass picks it.
 */
module StaleSlot {
  import opened Wrappers
  import opened Geometry
  import opened Sets
  import opened Heap
  import opened FtlState
  import opened FtlUpdates
  import opened FtlPass
  import opened FtlSpace
  import opened FtlRuns
  import opened LineLists
  import opened VictimScore
  import opened FlashArray
  import opened MapTables
  import opened WritePointers
  import opened LineMgmt
  import opened ConvFtl

  // ----- a pass that stays within the open line -----

  /** A page that was free before and is valid after a pass that opened no line lies on the line it copied to. */
  lemma CopiedToOpenLine(lay: Layout, s: Ftl, s': Ftl, v: nat, p: Ppa)
    requires Idle(lay, s) && Idle(lay, s') && s'.free == s.free + [v] && s'.user == s.user
    requires p in s.status && s.status[p] == Free && p in s'.status && s'.status[p] == Valid
    ensures p.blk == s.gc.line
  {
    hide Inv;
    FreePageIsOn(lay, s, p);
    UsedPageIsOff(lay, s', p);
    assert p.blk in s.free ==> p.blk in s'.free;
  }

  /** A free page lies on a free line or ahead of a write pointer. */
  lemma FreePageIsOn(lay: Layout, s: Ftl, p: Ppa)
    requires Idle(lay, s) && p in s.status && s.status[p] == Free
    ensures p in lay.rank
    ensures p.blk in s.free || (p.blk == s.user.line && s.user.done <= lay.rank[p]) || p.blk == s.gc.line
  {
    hide TablesOk, SumOk, CountOk, ConserveOk, StaleOk;
    assert LinesOk(lay, s, None, {});
  }

  lemma UsedPageIsOff(lay: Layout, s: Ftl, p: Ppa)
    requires Idle(lay, s) && p in s.status && s.status[p] != Free
    ensures p in lay.rank && p.blk !in s.free && !(p.blk == s.user.line && s.user.done <= lay.rank[p])
  {
    hide TablesOk, SumOk, CountOk, ConserveOk, StaleOk;
    assert LinesOk(lay, s, None, {});
  }

  lemma MapsToValid(lay: Layout, s: Ftl, l: nat)
    requires Idle(lay, s) && l < |s.maptbl| && s.maptbl[l].Some?
    ensures s.maptbl[l].value in s.status && s.status[s.maptbl[l].value] == Valid
  {
    assert MapOk(s.maptbl, s.rmap, s.status, {});
  }

  /** The pages of the victim move to the open line, all others stay. */
  function Rehoused(at: map<nat, nat>, v: nat, line: nat): map<nat, nat> {
    map l | l in at :: if at[l] == v then line else at[l]
  }

  lemma PassInOpenLine(lay: Layout, s: Ftl, s': Ftl, v: nat)
    requires Idle(lay, s) && Idle(lay, s') && v < |s.vpc| == |s.ipc| && Collected(lay, s, s', v)
    requires s.gc.line < |s.vpc| && s.gc.line != v && s.gc.done + s.vpc[v] < lay.perLine
    ensures SketchOf(s') == Sketch(Rehoused(At(s.maptbl), v, s.gc.line), CollectLists(lay.perLine, ListsOf(s), v))
  {
    hide Inv, CollectLists;
    CollectInLine(lay.perLine, ListsOf(s), v);
    forall l | 0 <= l < |s.maptbl| && s.maptbl[l].Some? && s.maptbl[l].value.blk == v
      ensures s'.maptbl[l].Some? && s'.maptbl[l].value.blk == s.gc.line
    {
      MapsToValid(lay, s', l);
      CopiedToOpenLine(lay, s, s', v, s'.maptbl[l].value);
    }
    assert At(s'.maptbl) == Rehoused(At(s.maptbl), v, s.gc.line);
  }

  // ----- single steps of a run -----

  /** kmalloc happened to return cleared memory for the heap. */
  method ClearSlots(f: ConvFtl)
    requires f.Good(None, {}) && f.View().victims == {}
    modifies f.lines.pq.d
    ensures f.Good(None, {}) && f.View() == old(f.View())
    ensures |f.Slots()| == f.g.blksPerPl + 1 && forall j | 0 <= j < |f.Slots()| :: f.Slots()[j] == f.g.blksPerPl
  {
    hide Inv;
    f.SizeCountsVictims();
    for i := 0 to f.lines.pq.d.Length
      invariant forall j | 0 <= j < i :: f.lines.pq.d[j] == f.g.blksPerPl
    {
      f.lines.pq.d[i] := f.g.blksPerPl;
    }
    assert f.lines.Victims() == {};
  }

  /** What a page write of `l` does to the lines. */
  lemma WriteSketch(f: ConvFtl, s: Ftl, l: nat, q: Ppa)
    requires Idle(f.lay, s) && f.Placed(s, l, q)
    ensures f.HasLine(s, l) <==> CanRewrite(f.lay.perLine, SketchOf(s), l)
    ensures f.HasLine(s, l) ==> SketchOf(f.PageWritten(s, l, q)) == Rewrite(f.lay.perLine, SketchOf(s), l)
  {
    RewriteIsExact(f.lay, s, f.WithoutPage(s, l), l, q);
  }

  /** A page write during which nothing is collected. */
  method QuietWrite(f: ConvFtl, l: nat, ages: seq<uint64>, ghost k: Sketch) returns (ok: bool)
    requires f.Good(None, {}) && SketchOf(f.View()) == k && l < f.lay.logical && |ages| == f.g.blksPerPl
    requires CanRewrite(f.lay.perLine, k, l)
    requires var x := Rewrite(f.lay.perLine, k, l).lists;
             f.OneCreditLess(f.wfc.credits) == 0 ==> |x.free| > 2 || x.victims == {}
    modifies f.Repr(), f.wfc
    ensures ok && f.Good(None, {}) && SketchOf(f.View()) == Rewrite(f.lay.perLine, k, l)
    ensures f.wfc.refill == old(f.wfc.refill)
    ensures var c := f.OneCreditLess(old(f.wfc.credits));
            f.wfc.credits == if c == 0 then f.wfc.refill % 0x1_0000_0000 else c
    ensures f.Agree(old(f.Slots()), f.Slots(), |Rewrite(f.lay.perLine, k, l).lists.victims| + 1)
  {
    hide SpaceOk, Bounded, Rewritten, Mapped, ConvFtl.Misled;
    hide Inv, CanRewrite, Rewrite, ConvFtl.Wf, ConvFtl.View, ConvFtl.ScanFinds, ConvFtl.Slots,
        ConvFtl.Placed, ConvFtl.HasLine, ConvFtl.PageWritten, ConvFtl.HeapSlots;
    ghost var s := f.View();
    ghost var q, heap;
    ok, q, heap := f.WritePage(l, ages);
    WriteSketch(f, s, l, q);
  }

  // ----- the run -----

  const PROFILE := Steps([10], [1, 8])

  /**
   The ages of the lines at each write.  Line 0 was last invalidated by the fifth write and line 2 by the tenth:
   the clock advances by ten or more from the fifth to the twelfth, and by less from the tenth to the sixteenth.
   */
  ghost predicate OldAndYoung(ages: nat -> seq<uint64>) {
    (forall i :: |ages(i)| == 7) && ages(12)[0] >= 10 && ages(12)[2] < 10 && ages(16)[2] < 10
  }

  /** A device of seven lines of four pages under the cost-benefit policy. */
  ghost predicate Small(f: ConvFtl) {
    f.g.blksPerPl == 7 && f.g.PgsPerLine() == 4 && f.policy == CostBenefit(PROFILE)
  }

  /** The device has come to the sketch `k`, and the slots from `n` on are null. */
  ghost predicate Stage(f: ConvFtl, k: Sketch, n: nat)
    reads f.Repr()
  {
    && Small(f) && f.Good(None, {}) && SketchOf(f.View()) == k && |f.Slots()| == 8
    && forall j | n <= j < 8 :: f.Slots()[j] == 7
  }

  lemma SmallSizes(f: ConvFtl)
    requires f.Wf() && Small(f)
    ensures f.lay.perLine == 4 && f.lay.lines == 7 && f.lay.logical == 28
  {
    TtPgsProduct(f.g);
  }

  /** On lines of four pages, a write of `l` leads from one sketch to the other. */
  ghost predicate Leads(k: Sketch, l: nat, k': Sketch) {
    CanRewrite(4, k, l) && Rewrite(4, k, l) == k'
  }

  /** A quiet write on the small device. */
  method Step(f: ConvFtl, l: nat, ages: seq<uint64>, ghost k: Sketch, ghost k': Sketch,
      ghost n: nat) returns (ok: bool)
    requires Stage(f, k, n) && l < 28 && |ages| == 7 && Leads(k, l, k')
    requires 1 <= f.wfc.credits <= 4 && 1 <= f.wfc.refill <= 4
    requires f.wfc.credits == 1 ==> |k'.lists.free| > 2 || k'.lists.victims == {}
    requires |k'.lists.victims| < n
    modifies f.Repr(), f.wfc
    ensures ok && Stage(f, k', n) && f.wfc.refill == old(f.wfc.refill)
    ensures f.wfc.credits == if old(f.wfc.credits) == 1 then f.wfc.refill else old(f.wfc.credits) - 1
  {
    hide Inv, Rewrite, CanRewrite, ConvFtl.Wf, ConvFtl.View, ConvFtl.Slots;
    SmallSizes(f);
    ok := QuietWrite(f, l, ages, k);
  }

  /** The sketches the run goes through, numbered by the pages written so far. */
  const K0 := Sketch(map[], Lists([0, 0, 0, 0, 0, 0, 0], [0, 0, 0, 0, 0, 0, 0], [2, 3, 4, 5, 6], [], {},
                                  OpenLine(0, 0), OpenLine(1, 0)))
  const K1 := Sketch(map[0 := 0], K0.lists.(vpc := [1, 0, 0, 0, 0, 0, 0], user := OpenLine(0, 1)))
  const K2 := Sketch(K1.at[1 := 0], K0.lists.(vpc := [2, 0, 0, 0, 0, 0, 0], user := OpenLine(0, 2)))
  const K3 := Sketch(K2.at[2 := 0], K0.lists.(vpc := [3, 0, 0, 0, 0, 0, 0], user := OpenLine(0, 3)))
  const K4 := Sketch(K3.at[3 := 0], Lists([4, 0, 0, 0, 0, 0, 0], [0, 0, 0, 0, 0, 0, 0], [3, 4, 5, 6], [0], {},
                                          OpenLine(2, 0), OpenLine(1, 0)))
  const K5 := Sketch(K4.at[0 := 2], Lists([3, 0, 1, 0, 0, 0, 0], [1, 0, 0, 0, 0, 0, 0], [3, 4, 5, 6], [], {0},
                                          OpenLine(2, 1), OpenLine(1, 0)))
  const K6 := Sketch(K5.at[4 := 2], K5.lists.(vpc := [3, 0, 2, 0, 0, 0, 0], user := OpenLine(2, 2)))
  const K7 := Sketch(K6.at[5 := 2], K5.lists.(vpc := [3, 0, 3, 0, 0, 0, 0], user := OpenLine(2, 3)))
  const K8 := Sketch(K7.at[6 := 2], Lists([3, 0, 4, 0, 0, 0, 0], [1, 0, 0, 0, 0, 0, 0], [4, 5, 6], [2], {0},
                                          OpenLine(3, 0), OpenLine(1, 0)))
  const K9 := Sketch(K8.at[4 := 3], Lists([3, 0, 3, 1, 0, 0, 0], [1, 0, 1, 0, 0, 0, 0], [4, 5, 6], [], {2, 0},
                                          OpenLine(3, 1), OpenLine(1, 0)))
  const K10 := Sketch(K9.at[5 := 3], K9.lists.(vpc := [3, 0, 2, 2, 0, 0, 0], ipc := [1, 0, 2, 0, 0, 0, 0],
                                               user := OpenLine(3, 2)))
  const K11 := Sketch(K10.at[7 := 3], K10.lists.(vpc := [3, 0, 2, 3, 0, 0, 0], user := OpenLine(3, 3)))

  /** The twelfth write, before a line is collected. */
  const K12 := Sketch(K11.at[8 := 3], Lists([3, 0, 2, 4, 0, 0, 0], [1, 0, 2, 0, 0, 0, 0], [5, 6], [3], {2, 0},
                                            OpenLine(4, 0), OpenLine(1, 0)))

  /** Line 0 has been collected. */
  const C12 := Sketch(Rehoused(K12.at, 0, 1), Lists([0, 3, 2, 4, 0, 0, 0], [0, 0, 2, 0, 0, 0, 0], [5, 6, 0], [3], {2},
                                                    OpenLine(4, 0), OpenLine(1, 3)))
  const K13 := Sketch(C12.at[9 := 4], C12.lists.(vpc := [0, 3, 2, 4, 1, 0, 0], user := OpenLine(4, 1)))
  const K14 := Sketch(K13.at[10 := 4], C12.lists.(vpc := [0, 3, 2, 4, 2, 0, 0], user := OpenLine(4, 2)))
  const K15 := Sketch(K14.at[1 := 4], C12.lists.(vpc := [0, 2, 2, 4, 3, 0, 0], ipc := [0, 1, 2, 0, 0, 0, 0],
                                                 user := OpenLine(4, 3)))
  const K16 := Sketch(K15.at[2 := 4], Lists([0, 1, 2, 4, 4, 0, 0], [0, 2, 2, 0, 0, 0, 0], [6, 0], [3, 4], {2},
                                            OpenLine(5, 0), OpenLine(1, 3)))

  lemma Write1And2()
    ensures Leads(K0, 0, K1) && Leads(K1, 1, K2)
  {
  }

  lemma Write3And4()
    ensures Leads(K2, 2, K3) && Leads(K3, 3, K4)
  {
  }

  lemma Write5()
    ensures Leads(K4, 0, K5)
  {
    assert Without([0], 0) == [];
  }

  lemma Write6()
    ensures Leads(K5, 4, K6)
  {
  }

  lemma Write7()
    ensures Leads(K6, 5, K7)
  {
  }

  lemma Write8()
    ensures Leads(K7, 6, K8)
  {
  }

  lemma Write9()
    ensures Leads(K8, 4, K9)
  {
    assert Without([2], 2) == [];
  }

  lemma Write10()
    ensures Leads(K9, 5, K10)
  {
  }

  lemma Write11()
    ensures Leads(K10, 7, K11)
  {
  }

  lemma Write12()
    ensures Leads(K11, 8, K12)
  {
  }

  lemma Write13()
    ensures Leads(C12, 9, K13)
  {
  }

  lemma Write14()
    ensures Leads(K13, 10, K14)
  {
  }

  lemma Write15()
    ensures Leads(K14, 1, K15)
  {
  }

  lemma Write16()
    ensures Leads(K15, 2, K16)
  {
    var x := K15.lists.(vpc := [0, 1, 2, 4, 3, 0, 0], ipc := [0, 2, 2, 0, 0, 0, 0]);
    assert DropPage(K15.lists, 1) == x && K15.at[2] == 1;
    LastPage(x);
  }

  lemma LastPage(x: Lists)
    requires x == K15.lists.(vpc := [0, 1, 2, 4, 3, 0, 0], ipc := [0, 2, 2, 0, 0, 0, 0])
    ensures FillPage(4, x, User) == K16.lists
  {
  }

  lemma Collection()
    ensures CollectLists(4, K12.lists, 0) == C12.lists
  {
    CollectInLine(4, K12.lists, 0);
  }

  /** Lines 0 and 2 are written, and one page of line 0 is overwritten. */
  method WriteTwoLines(f: ConvFtl, ages: nat -> seq<uint64>)
    requires Stage(f, K0, 2) && f.wfc.credits == 4 && f.wfc.refill == 4 && OldAndYoung(ages)
    modifies f.Repr(), f.wfc
    ensures Stage(f, K8, 2) && f.wfc.credits == 4 && f.wfc.refill == 4
  {
    hide Stage, Leads;
    Write1And2();
    Write3And4();
    Write5();
    Write6();
    Write7();
    Write8();
    var ok := Step(f, 0, ages(1), K0, K1, 2);
    ok := Step(f, 1, ages(2), K1, K2, 2);
    ok := Step(f, 2, ages(3), K2, K3, 2);
    ok := Step(f, 3, ages(4), K3, K4, 2);
    ok := Step(f, 0, ages(5), K4, K5, 2);
    ok := Step(f, 4, ages(6), K5, K6, 2);
    ok := Step(f, 5, ages(7), K6, K7, 2);
    ok := Step(f, 6, ages(8), K7, K8, 2);
  }

  /** Line 3 is written but for one page, and two pages of line 2 are overwritten. */
  method WriteThirdLine(f: ConvFtl, ages: nat -> seq<uint64>)
    requires Stage(f, K8, 2) && f.wfc.credits == 4 && f.wfc.refill == 4 && OldAndYoung(ages)
    modifies f.Repr(), f.wfc
    ensures Stage(f, K11, 3) && f.wfc.credits == 1 && f.wfc.refill == 4
  {
    hide Stage, Leads;
    Write9();
    Write10();
    Write11();
    assert Stage(f, K8, 3) by {
      LaterSlots(f, K8, 2, 3);
    }
    var ok := Step(f, 4, ages(9), K8, K9, 3);
    ok := Step(f, 5, ages(10), K9, K10, 3);
    ok := Step(f, 7, ages(11), K10, K11, 3);
  }

  lemma LaterSlots(f: ConvFtl, k: Sketch, n: nat, m: nat)
    requires Stage(f, k, n) && n <= m
    ensures Stage(f, k, m)
  {
  }

  /** Of the victims 2 and 0, line 0 has more valid pages and is in the last slot. */
  lemma LineZeroIsLast(f: ConvFtl, u: Ftl, heap: seq<nat>)
    requires f.HeapSlots(u, heap) && ListsOf(u) == K12.lists
    ensures |u.victims| == 2 && |heap| >= 3 && heap[2] == 0
  {
    ElemsOfLive(heap, 3);
    assert heap[1..3][0] == heap[1] && heap[1..3][1] == heap[2];
    assert heap[1] in u.victims && heap[2] in u.victims;
    assert u.vpc[heap[2 / 2]] <= u.vpc[heap[2]];
  }

  lemma LineScores(vpc: seq<nat>, ipc: seq<nat>, ages: seq<uint64>)
    requires |vpc| == |ipc| == |ages| == 7
    ensures var s := Scores(ipc, vpc, PROFILE, ages);
            && s[0] == Score(ipc[0], vpc[0], if ages[0] >= 10 then 8 else 1)
            && s[2] == Score(ipc[2], vpc[2], if ages[2] >= 10 then 8 else 1)
  {
    LevelIs([10], ages[0], if ages[0] >= 10 then 1 else 0);
    LevelIs([10], ages[2], if ages[2] >= 10 then 1 else 0);
  }

  lemma RoomForZero(perLine: nat, u: Ftl)
    requires ListsOf(u) == K12.lists && perLine == 4
    ensures Room(perLine, u) > u.vpc[0]
  {
    assert |u.free| == 2;
  }

  /** Line 0 is the best victim, and a null slot after the heap lets the scan find it. */
  lemma LineZeroIsBest(f: ConvFtl, u: Ftl, slots: seq<nat>, ages: seq<uint64>)
    requires |ages| == 7 && ages[0] >= 10 && ages[2] < 10
    requires Small(f) && f.lay.perLine == 4 && ListsOf(u) == K12.lists && |slots| == 8 && slots[3] == 7
    ensures f.Collects(u, ages, slots) && f.CanCollect(u, ages, slots)
  {
    hide Scores, IsBest, Room;
    assert |u.victims| == 2;
    ZeroWins(u.vpc, u.ipc, ages);
    RoomForZero(f.lay.perLine, u);
    assert f.Chosen(u, ages, 0);
  }

  lemma OnlyZero(f: ConvFtl, u: Ftl, v: nat, ages: seq<uint64>)
    requires |ages| == 7 && ages[0] >= 10 && ages[2] < 10 && Small(f) && ListsOf(u) == K12.lists && f.Chosen(u, ages, v)
    ensures v == 0
  {
    hide Scores, IsBest;
    ZeroWins(u.vpc, u.ipc, ages);
    BestIsUnique(u.vpc, Scores(u.ipc, u.vpc, PROFILE, ages), u.victims, v, 0);
  }

  lemma ZeroWins(vpc: seq<nat>, ipc: seq<nat>, ages: seq<uint64>)
    requires |ages| == 7 && ages[0] >= 10 && ages[2] < 10 && vpc == K12.lists.vpc && ipc == K12.lists.ipc
    ensures IsBest(vpc, Scores(ipc, vpc, PROFILE, ages), {2, 0}, 0)
  {
    LineScores(vpc, ipc, ages);
    var s := Scores(ipc, vpc, PROFILE, ages);
    assert s[0] == 2 && s[2] == 0;
    assert Beats(vpc, s, 0, 2);
  }

  /** With line 0 free again, lines 0 and 2 score nothing, and line 0 has fewer valid pages. */
  lemma FreeLineWins(f: ConvFtl, u: Ftl, slots: seq<nat>, ages: seq<uint64>)
    requires |ages| == 7 && ages[2] < 10 && Small(f) && ListsOf(u) == K16.lists && |slots| == 8 && slots[2] == 0
    ensures !f.ScanFinds(u, ages, slots)
  {
    assert |u.victims| == 1;
    LineScores(u.vpc, u.ipc, ages);
    var s := Scores(u.ipc, u.vpc, PROFILE, ages);
    assert s[0] == 0 && s[2] == 0;
    assert !Beats(u.vpc, s, 2, 0);
  }

  /** The device has come to the sketch `k`, and slot 2 of the heap holds line 0. */
  ghost predicate Stale(f: ConvFtl, k: Sketch)
    reads f.Repr()
  {
    Small(f) && f.Good(None, {}) && SketchOf(f.View()) == k && |f.Slots()| == 8 && f.Slots()[2] == 0
  }

  /** A pass over line 0. */
  lemma ZeroCollected(f: ConvFtl, u: Ftl, heap: seq<nat>, ages: seq<uint64>)
    requires |ages| == 7 && ages[0] >= 10 && ages[2] < 10
    requires Small(f) && Idle(f.lay, u) && SketchOf(u) == K12 && f.HeapSlots(u, heap) && f.PaidBack(u, ages, heap)
    requires |heap| == 8
    ensures Stale(f, C12) && f.wfc.refill == 1
  {
    hide Inv, ConvFtl.Wf, ConvFtl.View, ConvFtl.ScanFinds, ConvFtl.Slots, ConvFtl.Chosen, ConvFtl.HeapSlots,
        ConvFtl.SlotsKept, CollectLists, Rehoused, Collected, Room;
    SmallSizes(f);
    LineZeroIsLast(f, u, heap);
    var v: nat :| v < |u.ipc| && f.CollectedAs(u, ages, v) && f.wfc.refill == u.ipc[v];
    assert v == 0 by {
      OnlyZero(f, u, v, ages);
    }
    PassInOpenLine(f.lay, u, f.View(), 0);
    Collection();
    SlotTwoStays(f, heap);
  }

  lemma SlotTwoStays(f: ConvFtl, heap: seq<nat>)
    requires f.Wf() && f.SlotsKept(heap, 2) && ListsOf(f.View()) == C12.lists && |heap| > 2
    ensures |f.Slots()| == |heap| && f.Slots()[2] == heap[2]
  {
    hide Lines.Valid, Tables.RmapView, Flash.StatusView, Flash.VpcView, Flash.IpcView, WritePointer.Done;
    f.SizeCountsVictims();
    assert |{2}| == 1;
  }

  /** The twelfth write spends the last credit, and a pass collects line 0. */
  method CollectingWrite(f: ConvFtl, ages: seq<uint64>)
    requires |ages| == 7 && ages[0] >= 10 && ages[2] < 10
    requires Stage(f, K11, 3) && f.wfc.credits == 1 && f.wfc.refill == 4
    modifies f.Repr(), f.wfc
    ensures Stale(f, C12) && f.wfc.credits == 1 && f.wfc.refill == 1
  {
    hide SpaceOk, Bounded, Rewritten, Mapped, ConvFtl.Misled;
    hide Inv, CanRewrite, Rewrite, ConvFtl.Wf, ConvFtl.View, ConvFtl.ScanFinds, ConvFtl.Slots, ConvFtl.Chosen,
        ConvFtl.Placed, ConvFtl.HasLine, ConvFtl.PageWritten, ConvFtl.HeapSlots, ConvFtl.PaidBack,
        ConvFtl.CanCollect, ConvFtl.Collects;
    SmallSizes(f);
    Write12();
    ghost var s, slots := f.View(), f.Slots();
    var ok;
    ghost var q, heap;
    ok, q, heap := f.WritePage(8, ages);
    WriteSketch(f, s, 8, q);
    ghost var u := f.PageWritten(s, 8, q);
    assert ListsOf(u) == K12.lists;
    LineZeroIsLast(f, u, heap);
    LineZeroIsBest(f, u, heap, ages);
    LineZeroIsBest(f, u, slots, ages);
    ZeroCollected(f, u, heap, ages);
  }

  /** Three more writes fill line 4 but for one page, one of them over a page that the pass has copied. */
  method WriteFourthLine(f: ConvFtl, ages: nat -> seq<uint64>)
    requires Stale(f, C12) && f.wfc.credits == 1 && f.wfc.refill == 1 && OldAndYoung(ages)
    modifies f.Repr(), f.wfc
    ensures Stale(f, K15) && f.wfc.credits == 1
  {
    hide Stale, Leads;
    Write13();
    Write14();
    Write15();
    var ok := StaleStep(f, 9, ages(13), C12, K13);
    ok := StaleStep(f, 10, ages(14), K13, K14);
    ok := StaleStep(f, 1, ages(15), K14, K15);
  }

  method StaleStep(f: ConvFtl, l: nat, ages: seq<uint64>, ghost k: Sketch, ghost k': Sketch) returns (ok: bool)
    requires Stale(f, k) && l < 28 && |ages| == 7 && Leads(k, l, k') && f.wfc.credits == 1 && f.wfc.refill == 1
    requires |k'.lists.free| > 2 && k'.lists.victims == {2}
    modifies f.Repr(), f.wfc
    ensures ok && Stale(f, k') && f.wfc.credits == 1 && f.wfc.refill == 1
  {
    hide Inv, Rewrite, CanRewrite, ConvFtl.Wf, ConvFtl.View, ConvFtl.Slots;
    SmallSizes(f);
    assert |{2}| == 1;
    ok := QuietWrite(f, l, ages, k);
  }

  /** The sixteenth write is due to collect a line, and the scan picks line 0, which is free. */
  method LastWrite(f: ConvFtl, ages: seq<uint64>) returns (ok: bool)
    requires Stale(f, K15) && f.wfc.credits == 1 && |ages| == 7 && ages[2] < 10
    modifies f.Repr(), f.wfc
    ensures !ok && Stale(f, K16) && f.Misled(ages)
  {
    hide SpaceOk, Bounded, Rewritten, Mapped;
    hide Inv, CanRewrite, Rewrite, ConvFtl.Wf, ConvFtl.View, ConvFtl.Slots, ConvFtl.ScanFinds,
        ConvFtl.Placed, ConvFtl.HasLine, ConvFtl.PageWritten, ConvFtl.HeapSlots, ConvFtl.PaidBack;
    SmallSizes(f);
    Write16();
    assert |{2}| == 1;
    ghost var s, slots := f.View(), f.Slots();
    ghost var q, heap;
    ok, q, heap := f.WritePage(2, ages);
    WriteSketch(f, s, 2, q);
    ghost var u := f.PageWritten(s, 2, q);
    assert SketchOf(u) == K16;
    FreeLineWins(f, u, slots, ages);
    FreeLineWins(f, u, heap, ages);
  }

  /**
   A device on which the cost-benefit scan picks a line that is not a victim, although fewer pages are mapped
   than the bound allows.  On cleared memory, sixteen page writes reach it; the last one fails.
   */
  method MisledDevice(g: Geo, ages: nat -> seq<uint64>) returns (f: ConvFtl, ok: bool)
    requires g.Ok() && g.blksPerPl == 7 && g.PgsPerLine() == 4 && OldAndYoung(ages)
    ensures f.g == g && f.policy == CostBenefit(PROFILE) && !ok && f.Good(None, {}) && f.Misled(ages(16))
    ensures Bounded(f.lay, Mapped(f.View().maptbl))
    ensures f.View().victims == {2} && f.View().free == [6, 0] && |f.Slots()| == 8 && f.Slots()[2] == 0
  {
    hide Inv, ConvFtl.Wf, ConvFtl.View, ConvFtl.Slots, ConvFtl.Misled, Stage, Mapped;
    f := NewDevice(g);
    WriteTwoLines(f, ages);
    WriteThirdLine(f, ages);
    CollectingWrite(f, ages(12));
    WriteFourthLine(f, ages);
    ok := LastWrite(f, ages(16));
    SmallSizes(f);
    ElevenPages(f.View());
  }

  method NewDevice(g: Geo) returns (f: ConvFtl)
    requires g.Ok() && g.blksPerPl == 7 && g.PgsPerLine() == 4
    ensures fresh(f.Repr()) && fresh(f.wfc) && f.g == g
    ensures Stage(f, K0, 2) && f.wfc.credits == 4 && f.wfc.refill == 4
  {
    hide Inv, ConvFtl.Wf, ConvFtl.View, ConvFtl.Slots, Fresh;
    f := new ConvFtl(g, CostBenefit(PROFILE));
    SmallSizes(f);
    FreshSketch(f.lay, f.View());
    ClearSlots(f);
  }

  lemma FreshSketch(lay: Layout, s: Ftl)
    requires Fresh(lay, s) && lay.lines == 7
    ensures SketchOf(s) == K0 && s.victims == {}
  {
    assert s.vpc == K0.lists.vpc && s.ipc == K0.lists.ipc && s.free == K0.lists.free;
    assert At(s.maptbl) == map[];
  }

  lemma KeysOfRun()
    ensures K16.at.Keys <= Upto(11)
  {
  }

  lemma ElevenPages(s: Ftl)
    requires SketchOf(s) == K16
    ensures |Mapped(s.maptbl)| < 12
  {
    assert Mapped(s.maptbl) == At(s.maptbl).Keys;
    KeysOfRun();
    SubsetSize(Mapped(s.maptbl), Upto(11));
  }
}