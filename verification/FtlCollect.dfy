/** A garbage collection pass on the abstract state: what each of its steps keeps, and what the whole pass achieves. */
module FtlCollect {
  import opened Wrappers
  import opened Geometry
  import opened FtlState
  import opened FtlUpdates

  // ----- the victim leaves the heap -----

  lemma TakePlace(lay: Layout, s: Ftl, v: nat)
    requires PlaceOk(lay.lines, s, None) && v in s.victims && |s.vpc| == |s.place|
    ensures PlaceOk(lay.lines, TakeVictim(s, v), Some(v))
  {
  }

  lemma TakeLevel(lay: Layout, s: Ftl, v: nat)
    requires lay.Ok() && PlaceOk(lay.lines, s, None) && v in s.victims && LevelOk(lay, s) && |s.vpc| == |s.place|
    ensures LevelOk(lay, TakeVictim(s, v))
  {
  }

  lemma TakeSum(lay: Layout, s: Ftl, v: nat)
    requires PlaceOk(lay.lines, s, None) && v in s.victims && SumOk(lay, s)
    ensures SumOk(lay, TakeVictim(s, v))
  {
  }

  lemma TakeCount(s: Ftl, v: nat)
    requires v < |s.place| && |s.vpc| == |s.place| && |s.ipc| == |s.place| && CountOk(s)
    ensures CountOk(TakeVictim(s, v))
  {
  }

  lemma TakeConserve(lay: Layout, s: Ftl, v: nat)
    requires v < |s.place| && |s.vpc| == |s.place| && |s.ipc| == |s.place| && s.place[v] != Collecting
    requires CountOk(s) && ConserveOk(lay.perLine, s, None, {})
    ensures ConserveOk(lay.perLine, TakeVictim(s, v), Some(v), {})
  {
    assert Pending(s.status, Some(v), {}) == In(s.status, v, Valid);
    assert lay.perLine * (s.collections + 1) == lay.perLine * s.collections + lay.perLine;
  }

  lemma TakeLines(lay: Layout, s: Ftl, v: nat)
    requires LinesOk(lay, s, None, {}) && v in s.victims
    ensures LinesOk(lay, TakeVictim(s, v), Some(v), {})
  {
    TakePlace(lay, s, v);
    TakeLevel(lay, s, v);
    TakeSum(lay, s, v);
    TakeCount(s, v);
    TakeConserve(lay, s, v);
  }

  lemma TakeKeepsInv(lay: Layout, s: Ftl, v: nat)
    requires Idle(lay, s) && v in s.victims
    ensures v < |s.place| && |s.vpc| == |s.place|
    ensures Inv(lay, TakeVictim(s, v), Some(v), {})
  {
    assert LinesOk(lay, s, None, {});
    TakeLines(lay, s, v);
  }

  // ----- a block of the victim is erased -----

  /** Every page of block `k` has been dealt with. */
  ghost predicate BlockDone(status: map<Ppa, Status>, stale: set<Ppa>, k: Blk) {
    forall p <- status | BlkOf(p) == k :: p in stale
  }

  lemma EraseMap(s: Ftl, stale: set<Ppa>, k: Blk)
    requires MapOk(s.maptbl, s.rmap, s.status, stale) && BlockDone(s.status, stale, k)
    ensures MapOk(s.maptbl, s.rmap, EraseBlock(s, k).status, stale)
  {
    assert EraseBlock(s, k).status.Keys == s.status.Keys;
  }

  lemma EraseBlk(s: Ftl, k: Blk)
    requires BlkOk(s.status, s.blkVpc, s.blkIpc) && k in s.blkVpc
    ensures var s' := EraseBlock(s, k); BlkOk(s'.status, s'.blkVpc, s'.blkIpc)
  {
    var s' := EraseBlock(s, k);
    forall j <- s'.blkVpc
      ensures s'.blkVpc[j] == |InBlk(s'.status, j, Valid)| && s'.blkIpc[j] == |InBlk(s'.status, j, Invalid)|
    {
      EraseCounts(s.status, k, j, Valid);
      EraseCounts(s.status, k, j, Invalid);
    }
  }

  lemma EraseCounts(status: map<Ppa, Status>, k: Blk, j: Blk, x: Status)
    requires x != Free
    ensures var status' := map p | p in status :: if BlkOf(p) == k then Free else status[p];
            InBlk(status', j, x) == if j == k then {} else InBlk(status, j, x)
  {
  }

  lemma EraseLevel(lay: Layout, s: Ftl, victim: Option<nat>, k: Blk)
    requires lay.Ok() && PlaceOk(lay.lines, s, victim) && LevelOk(lay, s) && victim == Some(k.blk)
    ensures LevelOk(lay, EraseBlock(s, k))
  {
  }

  lemma EraseCount(lay: Layout, s: Ftl, victim: Option<nat>, k: Blk)
    requires PlaceOk(lay.lines, s, victim) && |s.vpc| == |s.place| && |s.ipc| == |s.place| && CountOk(s)
          && victim == Some(k.blk)
    ensures CountOk(EraseBlock(s, k))
  {
    var s' := EraseBlock(s, k);
    forall b, x | 0 <= b < |s.place| && b != k.blk
      ensures In(s'.status, b, x) == In(s.status, b, x)
    {
    }
  }

  lemma EraseConserve(lay: Layout, s: Ftl, victim: Option<nat>, stale: set<Ppa>, k: Blk)
    requires ConserveOk(lay.perLine, s, victim, stale) && victim == Some(k.blk) && BlockDone(s.status, stale, k)
    ensures ConserveOk(lay.perLine, EraseBlock(s, k), victim, stale)
  {
    assert Pending(EraseBlock(s, k).status, victim, stale) == Pending(s.status, victim, stale);
  }

  lemma ErasePlace(lay: Layout, s: Ftl, victim: Option<nat>, stale: set<Ppa>, k: Blk)
    requires PlaceOk(lay.lines, s, victim) && SumOk(lay, s) && StaleOk(s.status, victim, stale)
    ensures PlaceOk(lay.lines, EraseBlock(s, k), victim) && SumOk(lay, EraseBlock(s, k))
    ensures StaleOk(EraseBlock(s, k).status, victim, stale)
  {
  }

  lemma EraseLines(lay: Layout, s: Ftl, victim: Option<nat>, stale: set<Ppa>, k: Blk)
    requires LinesOk(lay, s, victim, stale) && victim == Some(k.blk) && BlockDone(s.status, stale, k)
    ensures LinesOk(lay, EraseBlock(s, k), victim, stale)
  {
    ErasePlace(lay, s, victim, stale, k);
    EraseLevel(lay, s, victim, k);
    EraseCount(lay, s, victim, k);
    EraseConserve(lay, s, victim, stale, k);
  }

  lemma EraseKeepsInv(lay: Layout, s: Ftl, victim: Option<nat>, stale: set<Ppa>, k: Blk)
    requires Inv(lay, s, victim, stale) && victim == Some(k.blk) && k in s.blkVpc && BlockDone(s.status, stale, k)
    ensures Inv(lay, EraseBlock(s, k), victim, stale)
  {
    EraseMap(s, stale, k);
    EraseBlk(s, k);
    EraseLines(lay, s, victim, stale, k);
  }

  // ----- the erased line returns to the free list -----

  ghost predicate LineErased(status: map<Ppa, Status>, v: nat) {
    forall p <- status | p.blk == v :: status[p] == Free
  }

  lemma FreeTables(s: Ftl, v: nat, stale: set<Ppa>)
    requires TablesOk(s, stale) && StaleOk(s.status, Some(v), stale) && LineErased(s.status, v)
    ensures MapOk(s.maptbl, s.rmap, s.status, {})
  {
  }

  lemma FreePlace(lay: Layout, s: Ftl, v: nat)
    requires PlaceOk(lay.lines, s, Some(v)) && |s.vpc| == |s.place| && |s.ipc| == |s.place|
    ensures PlaceOk(lay.lines, FreeLine(s, v), None)
  {
    AppendOk(s.free, v);
  }

  lemma FreeLevel(lay: Layout, s: Ftl, v: nat)
    requires lay.Ok() && PlaceOk(lay.lines, s, Some(v)) && LevelOk(lay, s) && LineErased(s.status, v)
    requires |s.vpc| == |s.place| && |s.ipc| == |s.place|
    ensures LevelOk(lay, FreeLine(s, v))
  {
  }

  lemma FreeSum(lay: Layout, s: Ftl, v: nat)
    requires PlaceOk(lay.lines, s, Some(v)) && SumOk(lay, s)
    ensures SumOk(lay, FreeLine(s, v))
  {
  }

  lemma FreeCount(lay: Layout, s: Ftl, v: nat)
    requires PlaceOk(lay.lines, s, Some(v)) && |s.vpc| == |s.place| && |s.ipc| == |s.place| && CountOk(s)
          && LineErased(s.status, v)
    ensures CountOk(FreeLine(s, v))
  {
    assert In(s.status, v, Valid) == {} && In(s.status, v, Invalid) == {};
  }

  lemma FreeConserve(lay: Layout, s: Ftl, v: nat, stale: set<Ppa>)
    requires PlaceOk(lay.lines, s, Some(v)) && SumOk(lay, s) && LineErased(s.status, v)
    requires ConserveOk(lay.perLine, s, Some(v), stale)
    ensures ConserveOk(lay.perLine, FreeLine(s, v), None, {})
  {
    assert Pending(s.status, Some(v), stale) == {};
    SumUpdate(s.vpc, v, 0);
    SumUpdate(s.ipc, v, 0);
  }

  lemma FreeLines(lay: Layout, s: Ftl, v: nat, stale: set<Ppa>)
    requires LinesOk(lay, s, Some(v), stale) && LineErased(s.status, v)
    ensures LinesOk(lay, FreeLine(s, v), None, {})
  {
    FreePlace(lay, s, v);
    FreeLevel(lay, s, v);
    FreeSum(lay, s, v);
    FreeCount(lay, s, v);
    FreeConserve(lay, s, v, stale);
  }

  lemma FreeKeepsInv(lay: Layout, s: Ftl, v: nat, stale: set<Ppa>)
    requires Inv(lay, s, Some(v), stale) && LineErased(s.status, v)
    ensures |s.ipc| == |s.vpc| == |s.place| && v < |s.vpc|
    ensures Idle(lay, FreeLine(s, v))
  {
    assert LinesOk(lay, s, Some(v), stale);
    FreeTables(s, v, stale);
    FreeLines(lay, s, v, stale);
  }
}
