/** The mapping table and the reverse map of conv_ftl.c, the latter indexed by the flat page index. */
module MapTables {
  import opened Wrappers
  import opened Geometry

  class Tables {
    const g: Geo
    const maptbl: array<Option<Ppa>>  // logical page to physical page; None is UNMAPPED_PPA
    const rmap: array<Option<nat>>    // flat page index to logical page; None is INVALID_LPN

    ghost predicate Shape() {
      maptbl.Length == g.TtPgs() && rmap.Length == g.TtPgs()
    }

    ghost function Repr(): set<object> {
      {maptbl, rmap}
    }

    ghost function RmapView(): map<Ppa, Option<nat>>
      requires Shape()
      reads rmap
    {
      map p | p in g.Pages() :: (g.PagesAreValid(p); PgIdxBound(g, p); rmap[g.PgIdx(p)])
    }

    /** init_maptbl, init_rmap */
    constructor (g: Geo)
      ensures this.g == g && Shape() && fresh(Repr())
      ensures forall l | 0 <= l < maptbl.Length :: maptbl[l] == None
      ensures RmapView().Keys == g.Pages()
    {
      this.g := g;
      maptbl := new Option<Ppa>[g.TtPgs()](_ => None);
      rmap := new Option<nat>[g.TtPgs()](_ => None);
    }

    /** get_rmap_ent */
    method GetRmap(p: Ppa) returns (l: Option<nat>)
      requires Shape() && g.ValidPpa(p)
      ensures p in RmapView() && l == RmapView()[p]
    {
      g.PagesAreValid(p);
      PgIdxBound(g, p);
      l := rmap[g.PgIdx(p)];
    }

    /** set_rmap_ent: one entry changes, because no two pages share a flat index. */
    method SetRmap(p: Ppa, l: Option<nat>)
      requires Shape() && g.ValidPpa(p)
      modifies rmap
      ensures RmapView() == old(RmapView())[p := l]
    {
      g.PagesAreValid(p);
      PgIdxBound(g, p);
      rmap[g.PgIdx(p)] := l;
      forall q | q in g.Pages() && q != p
        ensures RmapView()[q] == old(RmapView())[q]
      {
        g.PagesAreValid(q);
        PgIdxBound(g, q);
        if g.PgIdx(q) == g.PgIdx(p) {
          PgIdxInjective(g, p, q);
        }
      }
    }

    /** set_maptbl_ent */
    method SetMaptbl(l: nat, p: Option<Ppa>)
      requires l < maptbl.Length
      modifies maptbl
      ensures maptbl[..] == old(maptbl[..])[l := p]
    {
      maptbl[l] := p;
    }
  }
}
