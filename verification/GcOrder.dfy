/** The order in which do_gc visits the pages and blocks of a victim: flash page, channel, LUN, page. */
module GcOrder {
  import opened MixedRadix
  import opened Geometry

  /** Page `p` comes before page `i` of flash page `fp` on channel `ch`, LUN `lun`. */
  ghost predicate Before(g: Geo, p: Ppa, fp: nat, ch: nat, lun: nat, i: nat)
    requires g.pgsPerFlash > 0
  {
    var f, j := p.pg / g.pgsPerFlash, p.pg % g.pgsPerFlash;
    f < fp || (f == fp && (p.ch < ch || (p.ch == ch && (p.lun < lun || (p.lun == lun && j < i)))))
  }

  /** The pages of line `v` visited so far. */
  ghost function Visited(g: Geo, v: nat, fp: nat, ch: nat, lun: nat, i: nat): set<Ppa>
    requires g.pgsPerFlash > 0
  {
    set p | p in g.Pages() && p.blk == v && Before(g, p, fp, ch, lun, i)
  }

  /** The blocks of line `v` erased so far: erasing goes along with the last flash page. */
  ghost function ErasedBlocks(g: Geo, v: nat, fp: nat, ch: nat, lun: nat): set<Blk> {
    set k | k in g.Blocks() && k.blk == v
            && (fp >= g.flashPerBlk || (fp + 1 == g.flashPerBlk && (k.ch < ch || (k.ch == ch && k.lun < lun))))
  }

  /** The page the loops are about to visit. */
  function Current(g: Geo, v: nat, fp: nat, ch: nat, lun: nat, i: nat): Ppa {
    Ppa(ch, lun, v, fp * g.pgsPerFlash + i)
  }

  lemma CurrentDigits(g: Geo, v: nat, fp: nat, ch: nat, lun: nat, i: nat)
    requires g.Ok() && v < g.blksPerPl && fp < g.flashPerBlk && ch < g.nchs && lun < g.lunsPerCh && i < g.pgsPerFlash
    ensures var p := Current(g, v, fp, ch, lun, i);
            g.ValidPpa(p) && p in g.Pages() && p.pg / g.pgsPerFlash == fp && p.pg % g.pgsPerFlash == i
  {
    var p := Current(g, v, fp, ch, lun, i);
    assert p.pg == Mix(fp, i, g.pgsPerFlash);
    MixDigits(fp, i, g.pgsPerFlash);
    MixBound(fp, g.flashPerBlk, i, g.pgsPerFlash);
    assert g.flashPerBlk * g.pgsPerFlash == g.pgsPerFlash * g.flashPerBlk;
    g.PagesAreValid(p);
  }

  /** Each step of the innermost loop visits one page that was not visited before. */
  lemma VisitOne(g: Geo, v: nat, fp: nat, ch: nat, lun: nat, i: nat)
    requires g.Ok() && v < g.blksPerPl && fp < g.flashPerBlk && ch < g.nchs && lun < g.lunsPerCh && i < g.pgsPerFlash
    ensures var p := Current(g, v, fp, ch, lun, i);
            && p !in Visited(g, v, fp, ch, lun, i)
            && Visited(g, v, fp, ch, lun, i + 1) == Visited(g, v, fp, ch, lun, i) + {p}
  {
    CurrentDigits(g, v, fp, ch, lun, i);
    forall q | q in g.Pages() && q.blk == v && q.ch == ch && q.lun == lun && q.pg / g.pgsPerFlash == fp
        && q.pg % g.pgsPerFlash == i
      ensures q == Current(g, v, fp, ch, lun, i)
    {
      assert q.pg == (q.pg / g.pgsPerFlash) * g.pgsPerFlash + q.pg % g.pgsPerFlash;
    }
  }

  lemma VisitCarry(g: Geo, v: nat, fp: nat, ch: nat, lun: nat)
    requires g.Ok()
    ensures Visited(g, v, fp, ch, lun, g.pgsPerFlash) == Visited(g, v, fp, ch, lun + 1, 0)
    ensures Visited(g, v, fp, ch, g.lunsPerCh, 0) == Visited(g, v, fp, ch + 1, 0, 0)
    ensures Visited(g, v, fp, g.nchs, 0, 0) == Visited(g, v, fp + 1, 0, 0, 0)
  {
    forall p | p in g.Pages()
      ensures g.ValidPpa(p)
    {
      g.PagesAreValid(p);
    }
  }

  lemma VisitStartsAndEnds(g: Geo, v: nat)
    requires g.Ok()
    ensures Visited(g, v, 0, 0, 0, 0) == {}
    ensures forall p | p in g.Pages() && p.blk == v :: p in Visited(g, v, g.flashPerBlk, 0, 0, 0)
    ensures ErasedBlocks(g, v, 0, 0, 0) == {}
    ensures forall p | p in g.Pages() && p.blk == v :: BlkOf(p) in ErasedBlocks(g, v, g.flashPerBlk, 0, 0)
  {
    forall p | p in g.Pages() && p.blk == v
      ensures p.pg / g.pgsPerFlash < g.flashPerBlk && BlkOf(p) in g.Blocks()
    {
      g.PagesAreValid(p);
      g.BlocksAreValid(BlkOf(p));
      assert g.PgsPerBlk() == g.flashPerBlk * g.pgsPerFlash;
      DigitBound(p.pg, g.flashPerBlk, g.pgsPerFlash);
    }
  }

  lemma EraseCarry(g: Geo, v: nat, fp: nat, ch: nat)
    requires g.Ok() && fp < g.flashPerBlk
    ensures ErasedBlocks(g, v, fp, ch, g.lunsPerCh) == ErasedBlocks(g, v, fp, ch + 1, 0)
    ensures ErasedBlocks(g, v, fp, g.nchs, 0) == ErasedBlocks(g, v, fp + 1, 0, 0)
  {
  }

  lemma EraseOne(g: Geo, v: nat, fp: nat, ch: nat, lun: nat)
    requires g.Ok() && v < g.blksPerPl && fp < g.flashPerBlk && ch < g.nchs && lun < g.lunsPerCh
    ensures Blk(ch, lun, v) in g.Blocks() && Blk(ch, lun, v) !in ErasedBlocks(g, v, fp, ch, lun)
    ensures ErasedBlocks(g, v, fp, ch, lun + 1)
            == if fp + 1 == g.flashPerBlk then ErasedBlocks(g, v, fp, ch, lun) + {Blk(ch, lun, v)}
               else ErasedBlocks(g, v, fp, ch, lun)
  {
    g.BlocksAreValid(Blk(ch, lun, v));
  }

  /** With the last flash page of a block visited, the whole block has been. */
  lemma BlockVisited(g: Geo, v: nat, ch: nat, lun: nat, p: Ppa)
    requires g.Ok() && p in g.Pages() && BlkOf(p) == Blk(ch, lun, v)
    ensures p in Visited(g, v, g.flashPerBlk - 1, ch, lun, g.pgsPerFlash)
  {
    g.PagesAreValid(p);
    FlashPageOf(g, p.pg);
  }

  lemma FlashPageOf(g: Geo, pg: nat)
    requires g.Ok() && pg < g.PgsPerBlk()
    ensures pg / g.pgsPerFlash < g.flashPerBlk && pg % g.pgsPerFlash < g.pgsPerFlash
  {
    DigitBound(pg, g.flashPerBlk, g.pgsPerFlash);
  }
}
