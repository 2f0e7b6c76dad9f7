/**
 Flash geometry of one partition (ssd.h, ssd.c, conv_ftl.c): physical page addresses, the flat page
 index of the reverse map, the order in which a write pointer visits the pages of a line, and the
 order in which garbage collection visits them.  One plane per LUN, as the source assumes.
 */
module Geometry {
  import opened MixedRadix

  /** A physical page address; the plane is always 0. */
  datatype Ppa = Ppa(ch: nat, lun: nat, blk: nat, pg: nat)

  /** An erase block. */
  datatype Blk = Blk(ch: nat, lun: nat, blk: nat)

  function BlkOf(p: Ppa): Blk {
    Blk(p.ch, p.lun, p.blk)
  }

  /** The fields of `struct ssdparams` that the translation layer reads. */
  datatype Geo = Geo(nchs: nat, lunsPerCh: nat, blksPerPl: nat,
                     pgsPerOneshot: nat, oneshotsPerBlk: nat,
                     pgsPerFlash: nat, flashPerBlk: nat)
  {
    /** Every count positive and within the bit fields of `struct ppa`, page counts of a line within an `int`. */
    ghost predicate Ok() {
      && 0 < nchs <= 0x100 && 0 < lunsPerCh <= 0x100 && 0 < blksPerPl <= 0x1_0000
      && 0 < pgsPerOneshot && 0 < oneshotsPerBlk && 0 < pgsPerFlash && 0 < flashPerBlk
      && PgsPerBlk() <= 0x1_0000
      && PgsPerBlk() == pgsPerFlash * flashPerBlk
      && 0 < PgsPerLine() < 0x8000_0000
    }

    function PgsPerBlk(): nat { pgsPerOneshot * oneshotsPerBlk }
    function PgsPerLun(): nat { PgsPerBlk() * blksPerPl }
    function PgsPerCh(): nat { PgsPerLun() * lunsPerCh }
    function TtPgs(): nat { PgsPerCh() * nchs }
    function PgsPerLine(): nat { (nchs * lunsPerCh) * PgsPerBlk() }

    predicate ValidPpa(p: Ppa) {
      p.ch < nchs && p.lun < lunsPerCh && p.blk < blksPerPl && p.pg < PgsPerBlk()
    }

    /** ppa2pgidx */
    function PgIdx(p: Ppa): nat {
      p.ch * PgsPerCh() + p.lun * PgsPerLun() + p.blk * PgsPerBlk() + p.pg
    }

    ghost function Pages(): set<Ppa> {
      set ch, lun, blk, pg | 0 <= ch < nchs && 0 <= lun < lunsPerCh && 0 <= blk < blksPerPl && 0 <= pg < PgsPerBlk()
        :: Ppa(ch, lun, blk, pg)
    }

    ghost function Blocks(): set<Blk> {
      set ch, lun, blk | 0 <= ch < nchs && 0 <= lun < lunsPerCh && 0 <= blk < blksPerPl :: Blk(ch, lun, blk)
    }

    lemma PagesAreValid(p: Ppa)
      ensures p in Pages() <==> ValidPpa(p)
    {
      if ValidPpa(p) {
        assert Ppa(p.ch, p.lun, p.blk, p.pg) == p;
      }
    }

    lemma BlocksAreValid(k: Blk)
      ensures k in Blocks() <==> k.ch < nchs && k.lun < lunsPerCh && k.blk < blksPerPl
    {
      if k.ch < nchs && k.lun < lunsPerCh && k.blk < blksPerPl {
        assert Blk(k.ch, k.lun, k.blk) == k;
      }
    }

    /** How many pages of its line a write pointer has passed when it stands at channel `ch`, LUN `lun`, page `pg`. */
    ghost function Rank(ch: nat, lun: nat, pg: nat): nat
      requires pgsPerOneshot > 0
    {
      Mix(Mix(Mix(pg / pgsPerOneshot, lun, lunsPerCh), ch, nchs), pg % pgsPerOneshot, pgsPerOneshot)
    }

    /** The page of line `blk` that a write pointer reaches after `k` steps. */
    ghost function PageAt(blk: nat, k: nat): Ppa
      requires nchs > 0 && lunsPerCh > 0 && pgsPerOneshot > 0
    {
      var (steps, sub) := Divided(k, pgsPerOneshot);
      var (rounds, ch) := Divided(steps, nchs);
      var (wordline, lun) := Divided(rounds, lunsPerCh);
      Ppa(ch, lun, blk, Mix(wordline, sub, pgsPerOneshot))
    }
  }

  lemma PgIdxHorner(g: Geo, p: Ppa)
    ensures g.PgIdx(p) == Mix(Mix(Mix(p.ch, p.lun, g.lunsPerCh), p.blk, g.blksPerPl), p.pg, g.PgsPerBlk())
  {
    var B, T, U := g.PgsPerBlk(), g.blksPerPl, g.lunsPerCh;
    var lead := p.ch * U + p.lun;
    assert p.ch * ((B * T) * U) + p.lun * (B * T) == lead * (B * T) by {
      assert p.ch * ((B * T) * U) == (p.ch * U) * (B * T);
      assert lead * (B * T) == (p.ch * U) * (B * T) + p.lun * (B * T);
    }
    assert lead * (B * T) == (lead * T) * B;
    assert (lead * T) * B + p.blk * B == (lead * T + p.blk) * B;
  }

  /** The flat page index never leaves the reverse map. */
  lemma PgIdxBound(g: Geo, p: Ppa)
    requires g.ValidPpa(p)
    ensures g.PgIdx(p) < g.TtPgs()
  {
    PgIdxHorner(g, p);
    MixBound(p.ch, g.nchs, p.lun, g.lunsPerCh);
    MixBound(Mix(p.ch, p.lun, g.lunsPerCh), g.nchs * g.lunsPerCh, p.blk, g.blksPerPl);
    MixBound(Mix(Mix(p.ch, p.lun, g.lunsPerCh), p.blk, g.blksPerPl), g.nchs * g.lunsPerCh * g.blksPerPl,
             p.pg, g.PgsPerBlk());
    TtPgsProduct(g);
  }

  lemma TtPgsProduct(g: Geo)
    ensures g.TtPgs() == g.nchs * g.lunsPerCh * g.blksPerPl * g.PgsPerBlk()
    ensures g.TtPgs() == g.blksPerPl * g.PgsPerLine()
  {
    var B, T, U, C := g.PgsPerBlk(), g.blksPerPl, g.lunsPerCh, g.nchs;
    assert ((B * T) * U) * C == (C * U) * (B * T) by {
      assert ((B * T) * U) * C == (B * T) * (U * C);
    }
    assert (C * U) * (B * T) == ((C * U) * T) * B;
    assert (C * U) * (B * T) == ((C * U) * B) * T;
  }

  /** Two valid addresses with the same flat index are the same page. */
  lemma PgIdxInjective(g: Geo, p: Ppa, q: Ppa)
    requires g.ValidPpa(p) && g.ValidPpa(q)
    requires g.PgIdx(p) == g.PgIdx(q)
    ensures p == q
  {
    PgIdxHorner(g, p);
    PgIdxHorner(g, q);
    var a, a' := Mix(p.ch, p.lun, g.lunsPerCh), Mix(q.ch, q.lun, g.lunsPerCh);
    MixInjective(Mix(a, p.blk, g.blksPerPl), p.pg, Mix(a', q.blk, g.blksPerPl), q.pg, g.PgsPerBlk());
    MixInjective(a, p.blk, a', q.blk, g.blksPerPl);
    MixInjective(p.ch, p.lun, q.ch, q.lun, g.lunsPerCh);
  }

  /** Every slot of the reverse map belongs to a valid address. */
  lemma PgIdxOnto(g: Geo, i: nat) returns (p: Ppa)
    requires g.Ok() && i < g.TtPgs()
    ensures g.ValidPpa(p) && g.PgIdx(p) == i
  {
    var blocks := g.nchs * g.lunsPerCh * g.blksPerPl;
    assert i < blocks * g.PgsPerBlk() && g.PgsPerBlk() > 0 by {
      TtPgsProduct(g);
    }
    var j, pg := Split(i, blocks, g.PgsPerBlk());
    var k, blk := Split(j, g.nchs * g.lunsPerCh, g.blksPerPl);
    var ch, lun := Split(k, g.nchs, g.lunsPerCh);
    p := Ppa(ch, lun, blk, pg);
    PgIdxHorner(g, p);
  }

  lemma RankBound(g: Geo, ch: nat, lun: nat, pg: nat)
    requires g.Ok() && ch < g.nchs && lun < g.lunsPerCh && pg < g.PgsPerBlk()
    ensures g.Rank(ch, lun, pg) < g.PgsPerLine()
  {
    var O, N, U, C := g.pgsPerOneshot, g.oneshotsPerBlk, g.lunsPerCh, g.nchs;
    assert O * N == N * O;
    DigitBound(pg, N, O);
    MixBound(pg / O, N, lun, U);
    MixBound(Mix(pg / O, lun, U), N * U, ch, C);
    MixBound(Mix(Mix(pg / O, lun, U), ch, C), N * U * C, pg % O, O);
    LineProduct(g);
  }

  lemma LineProduct(g: Geo)
    ensures g.PgsPerLine() == g.oneshotsPerBlk * g.lunsPerCh * g.nchs * g.pgsPerOneshot
  {
    var O, N, U, C := g.pgsPerOneshot, g.oneshotsPerBlk, g.lunsPerCh, g.nchs;
    assert (C * U) * (O * N) == (C * U) * (N * O) == ((C * U) * N) * O;
    assert (C * U) * N == (N * U) * C;
  }

  /** A page is found again at its own rank: the visiting order repeats no page of a line. */
  lemma PageAtRank(g: Geo, p: Ppa)
    requires g.Ok() && g.ValidPpa(p)
    ensures g.PageAt(p.blk, g.Rank(p.ch, p.lun, p.pg)) == p
  {
    var O, U, C := g.pgsPerOneshot, g.lunsPerCh, g.nchs;
    var a := Mix(p.pg / O, p.lun, U);
    var b := Mix(a, p.ch, C);
    MixDigits(b, p.pg % O, O);
    MixDigits(a, p.ch, C);
    MixDigits(p.pg / O, p.lun, U);
    DigitBound(p.pg, p.pg + 1, O) by {
      MulMono(1, O, p.pg + 1);
    }
  }

  /** Every rank below the line size is some page's rank: the visiting order misses no page of a line. */
  lemma RankOfPageAt(g: Geo, blk: nat, k: nat)
    requires g.Ok() && blk < g.blksPerPl && k < g.PgsPerLine()
    ensures var p := g.PageAt(blk, k);
            g.ValidPpa(p) && p.blk == blk && g.Rank(p.ch, p.lun, p.pg) == k
  {
    var O, N, U, C := g.pgsPerOneshot, g.oneshotsPerBlk, g.lunsPerCh, g.nchs;
    LineProduct(g);
    var b, sub := Split(k, N * U * C, O);
    var a, ch := Split(b, N * U, C);
    var w, lun := Split(a, N, U);
    RankOfDigits(g, ch, lun, w, sub);
  }

  lemma RankOfDigits(g: Geo, ch: nat, lun: nat, w: nat, sub: nat)
    requires g.Ok() && w < g.oneshotsPerBlk && sub < g.pgsPerOneshot
    ensures Mix(w, sub, g.pgsPerOneshot) < g.PgsPerBlk()
    ensures g.Rank(ch, lun, Mix(w, sub, g.pgsPerOneshot))
            == Mix(Mix(Mix(w, lun, g.lunsPerCh), ch, g.nchs), sub, g.pgsPerOneshot)
  {
    MixBound(w, g.oneshotsPerBlk, sub, g.pgsPerOneshot);
    MixDigits(w, sub, g.pgsPerOneshot);
  }

  /** What one step of the nested counters does to the rank. */
  lemma RankSteps(g: Geo, ch: nat, lun: nat, pg: nat)
    requires g.Ok() && ch < g.nchs && lun < g.lunsPerCh && pg < g.PgsPerBlk()
    ensures (pg + 1) % g.pgsPerOneshot != 0 ==>
              pg + 1 < g.PgsPerBlk() && g.Rank(ch, lun, pg + 1) == g.Rank(ch, lun, pg) + 1
    ensures (pg + 1) % g.pgsPerOneshot == 0 ==>
              && pg + 1 >= g.pgsPerOneshot
              && (pg + 1 - g.pgsPerOneshot) % g.pgsPerOneshot == 0
              && g.Rank(ch + 1, lun, pg + 1 - g.pgsPerOneshot) == g.Rank(ch, lun, pg) + 1
  {
    var O, N := g.pgsPerOneshot, g.oneshotsPerBlk;
    assert O * N == N * O;
    var w, j := Split(pg, N, O);
    if j + 1 < O {
      MixDigits(w, j + 1, O);
      MixBound(w, N, j + 1, O);
    } else {
      MixCarry(w, O);
      MixDigits(w + 1, 0, O);
      WordlineDone(g, ch, lun, pg, w);
    }
  }

  lemma WordlineDone(g: Geo, ch: nat, lun: nat, pg: nat, w: nat)
    requires g.Ok() && pg + 1 == Mix(w, g.pgsPerOneshot, g.pgsPerOneshot)
    ensures pg + 1 >= g.pgsPerOneshot && (pg + 1 - g.pgsPerOneshot) % g.pgsPerOneshot == 0
    ensures g.Rank(ch + 1, lun, pg + 1 - g.pgsPerOneshot) == g.Rank(ch, lun, pg) + 1
  {
    var O := g.pgsPerOneshot;
    MixDigits(w, 0, O);
    MixDigits(w, O - 1, O);
    MixCarry(Mix(Mix(w, lun, g.lunsPerCh), ch, g.nchs), O);
  }

  /** Carrying a full channel counter into the LUN counter does not change the rank. */
  lemma RankCarryChannel(g: Geo, lun: nat, pg: nat)
    requires g.Ok()
    ensures g.Rank(g.nchs, lun, pg) == g.Rank(0, lun + 1, pg)
  {
    MixCarry(Mix(pg / g.pgsPerOneshot, lun, g.lunsPerCh), g.nchs);
  }

  /** Carrying a full LUN counter into the wordline does not change the rank; the last carry completes the line. */
  lemma RankCarryLun(g: Geo, pg: nat)
    requires g.Ok() && pg < g.PgsPerBlk() && pg % g.pgsPerOneshot == 0
    ensures pg + g.pgsPerOneshot <= g.PgsPerBlk()
    ensures g.Rank(0, g.lunsPerCh, pg) == g.Rank(0, 0, pg + g.pgsPerOneshot)
    ensures pg + g.pgsPerOneshot == g.PgsPerBlk() <==> g.Rank(0, g.lunsPerCh, pg) == g.PgsPerLine()
  {
    var O, N := g.pgsPerOneshot, g.oneshotsPerBlk;
    assert O * N == N * O;
    var w, sub := Split(pg, N, O);
    MixCarry(w, O);
    MixDigits(w + 1, 0, O);
    MixCarry(w, g.lunsPerCh);
    LineProduct(g);
    NextWordline(g, w);
  }

  lemma NextWordline(g: Geo, w: nat)
    requires g.Ok() && w < g.oneshotsPerBlk
    ensures (w + 1) * g.pgsPerOneshot <= g.PgsPerBlk()
    ensures (w + 1) * g.pgsPerOneshot == g.PgsPerBlk() <==>
            Mix(Mix(Mix(w + 1, 0, g.lunsPerCh), 0, g.nchs), 0, g.pgsPerOneshot) == g.PgsPerLine()
  {
    var O, N, U, C := g.pgsPerOneshot, g.oneshotsPerBlk, g.lunsPerCh, g.nchs;
    LineProduct(g);
    MulMono(w + 1, N, O);
    if w + 1 < N {
      MixBound(w + 1, N, 0, O);
      MixBound(w + 1, N, 0, U);
      MixBound((w + 1) * U, N * U, 0, C);
      MixBound((w + 1) * U * C, N * U * C, 0, O);
    }
  }

  lemma FirstRank(g: Geo)
    requires g.Ok()
    ensures g.Rank(0, 0, 0) == 0
  {
    assert 0 == Mix(0, 0, g.pgsPerOneshot);
    MixDigits(0, 0, g.pgsPerOneshot);
  }
}
