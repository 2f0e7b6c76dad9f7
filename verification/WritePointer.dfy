/** `struct write_pointer` and the stepping of its nested counters (advance_write_pointer, get_new_page). */
module WritePointers {
  import opened Geometry

  class WritePointer {
    var line: nat
    var ch: nat
    var lun: nat
    var pg: nat

    ghost predicate Valid(g: Geo)
      reads this
    {
      g.Ok() && line < g.blksPerPl && ch < g.nchs && lun < g.lunsPerCh && pg < g.PgsPerBlk()
    }

    /** How many pages of its line the pointer has passed. */
    ghost function Done(g: Geo): nat
      requires Valid(g)
      reads this
    {
      g.Rank(ch, lun, pg)
    }

    /** prepare_write_pointer */
    constructor (line: nat)
      ensures this.line == line && ch == 0 && lun == 0 && pg == 0
    {
      this.line := line;
      ch, lun, pg := 0, 0, 0;
    }

    /** get_new_page: the page after exactly `Done` pages of the line. */
    method NewPage(ghost g: Geo) returns (p: Ppa)
      requires Valid(g)
      ensures g.ValidPpa(p) && p == Ppa(ch, lun, line, pg) && p == g.PageAt(line, Done(g))
    {
      p := Ppa(ch, lun, line, pg);
      PageAtRank(g, p);
    }

    /**
     The counters of advance_write_pointer: one step passes exactly one page, and the line is reported full
     exactly when that was its last page.
     */
    method Step(g: Geo) returns (lineFull: bool)
      requires Valid(g)
      modifies this
      ensures Valid(g) && line == old(line)
      ensures lineFull <==> old(Done(g)) + 1 == g.PgsPerLine()
      ensures !lineFull ==> Done(g) == old(Done(g)) + 1
      ensures lineFull ==> Done(g) == 0
    {
      RankBound(g, ch, lun, pg);
      RankSteps(g, ch, lun, pg);
      FirstRank(g);
      pg := pg + 1;
      if pg % g.pgsPerOneshot != 0 {
        RankBound(g, ch, lun, pg);
        return false;
      }
      pg := pg - g.pgsPerOneshot;
      ch := ch + 1;
      if ch != g.nchs {
        RankBound(g, ch, lun, pg);
        return false;
      }
      RankCarryChannel(g, lun, pg);
      ch := 0;
      lun := lun + 1;
      if lun != g.lunsPerCh {
        RankBound(g, ch, lun, pg);
        return false;
      }
      RankCarryLun(g, pg);
      lun := 0;
      pg := pg + g.pgsPerOneshot;
      if pg != g.PgsPerBlk() {
        return false;
      }
      pg := 0;
      return true;
    }
  }
}
