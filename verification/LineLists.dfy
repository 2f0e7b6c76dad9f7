/** The lines of the translation layer without their pages: what page writes and passes do to counters and lists. */
module LineLists {
  import opened Wrappers
  import opened Geometry
  import opened FtlState
  import opened FtlUpdates

  datatype Lists = Lists(vpc: seq<nat>, ipc: seq<nat>, free: seq<nat>, full: seq<nat>, victims: set<nat>,
                         user: OpenLine, gc: OpenLine)
  {
    function Open(io: Io): OpenLine {
      if io == User then user else gc
    }

    function SetOpen(io: Io, o: OpenLine): Lists {
      if io == User then this.(user := o) else this.(gc := o)
    }
  }

  function ListsOf(s: Ftl): Lists {
    Lists(s.vpc, s.ipc, s.free, s.full, s.victims, s.user, s.gc)
  }

  /** A page of line `b` becomes invalid. */
  function DropPage(x: Lists, b: nat): Lists
    requires b < |x.vpc| == |x.ipc| && x.vpc[b] > 0
  {
    var y := x.(vpc := x.vpc[b := x.vpc[b] - 1], ipc := x.ipc[b := x.ipc[b] + 1]);
    if b in x.full then y.(full := Without(x.full, b), victims := x.victims + {b}) else y
  }

  /** A page is written at a write pointer; a line that has no page left is closed and the first free one opened. */
  function FillPage(perLine: nat, x: Lists, io: Io): Lists
    requires x.Open(io).line < |x.vpc| && (x.Open(io).done + 1 < perLine || x.free != [])
  {
    var o := x.Open(io);
    var y := x.(vpc := x.vpc[o.line := x.vpc[o.line] + 1]);
    if o.done + 1 < perLine then
      y.SetOpen(io, OpenLine(o.line, o.done + 1))
    else
      var z := if y.vpc[o.line] == perLine then y.(full := x.full + [o.line])
               else y.(victims := x.victims + {o.line});
      z.(free := x.free[1..]).SetOpen(io, OpenLine(x.free[0], 0))
  }

  /** `n` pages are copied; a pass that lacks a line stops. */
  function CopyPages(perLine: nat, x: Lists, n: nat): Lists {
    if n == 0 then x else
    var y := CopyPages(perLine, x, n - 1);
    if y.gc.line < |y.vpc| && (y.gc.done + 1 < perLine || y.free != []) then FillPage(perLine, y, Gc) else y
  }

  /** A pass over line `v`: it leaves the heap, its valid pages are copied, and it joins the end of the free list. */
  function CollectLists(perLine: nat, x: Lists, v: nat): Lists
    requires v < |x.vpc|
  {
    var y := CopyPages(perLine, x.(victims := x.victims - {v}), x.vpc[v]);
    if v < |y.vpc| == |y.ipc| then y.(vpc := y.vpc[v := 0], ipc := y.ipc[v := 0], free := y.free + [v]) else y
  }

  lemma UnmapLists(lay: Layout, s: Ftl, l: nat)
    requires Idle(lay, s) && l < |s.maptbl| && s.maptbl[l].Some? && CanInvalidate(s, s.maptbl[l].value)
    ensures ListsOf(Unmap(s, l)) == DropPage(ListsOf(s), s.maptbl[l].value.blk)
  {
    var b := s.maptbl[l].value.blk;
    assert s.place[b] == InFull <==> b in s.full by {
      assert LinesOk(lay, s, None, {});
    }
  }

  lemma ProgramLists(lay: Layout, s: Ftl, io: Io, l: nat, q: Ppa)
    requires CanFill(lay, s, io, l, q) && CanAdvance(lay, s, io) && s.Open(io).done < lay.perLine
    requires s.free != [] ==> s.free[0] < |s.place|
    ensures ListsOf(Program(lay, s, io, l, q)) == FillPage(lay.perLine, ListsOf(s), io)
  {
  }

  /** While the open line has room, copies only fill it. */
  lemma {:induction false} CopiesInLine(perLine: nat, x: Lists, n: nat)
    requires x.gc.line < |x.vpc| && x.gc.done + n < perLine
    ensures CopyPages(perLine, x, n)
            == x.(vpc := x.vpc[x.gc.line := x.vpc[x.gc.line] + n], gc := OpenLine(x.gc.line, x.gc.done + n))
  {
    if n > 0 {
      CopiesInLine(perLine, x, n - 1);
    } else {
      assert x.vpc[x.gc.line := x.vpc[x.gc.line]] == x.vpc;
    }
  }

  lemma CollectInLine(perLine: nat, x: Lists, v: nat)
    requires v < |x.vpc| == |x.ipc| && x.gc.line < |x.vpc| && x.gc.line != v && x.gc.done + x.vpc[v] < perLine
    ensures CollectLists(perLine, x, v)
            == x.(vpc := x.vpc[x.gc.line := x.vpc[x.gc.line] + x.vpc[v]][v := 0], ipc := x.ipc[v := 0],
                  free := x.free + [v], victims := x.victims - {v},
                  gc := OpenLine(x.gc.line, x.gc.done + x.vpc[v]))
  {
    CopiesInLine(perLine, x.(victims := x.victims - {v}), x.vpc[v]);
  }

  // ----- which line holds a logical page -----

  /** The lists, and for every mapped logical page the line it is on. */
  datatype Sketch = Sketch(at: map<nat, nat>, lists: Lists)

  ghost function At(maptbl: seq<Option<Ppa>>): map<nat, nat> {
    map l: nat | l < |maptbl| && maptbl[l].Some? :: maptbl[l].value.blk
  }

  ghost function SketchOf(s: Ftl): Sketch {
    Sketch(At(s.maptbl), ListsOf(s))
  }

  /** A page write as the lines see it. */
  predicate CanRewrite(perLine: nat, k: Sketch, l: nat) {
    && |k.lists.vpc| == |k.lists.ipc| && k.lists.user.line < |k.lists.vpc|
    && (l in k.at ==> k.at[l] < |k.lists.vpc| && k.lists.vpc[k.at[l]] > 0)
    && (k.lists.user.done + 1 < perLine || k.lists.free != [])
  }

  function Rewrite(perLine: nat, k: Sketch, l: nat): Sketch
    requires CanRewrite(perLine, k, l)
  {
    var x := if l in k.at then DropPage(k.lists, k.at[l]) else k.lists;
    Sketch(k.at[l := x.user.line], FillPage(perLine, x, User))
  }

  /** A host write does to the sketch what it does to the state. */
  lemma RewriteIsExact(lay: Layout, s: Ftl, t: Ftl, l: nat, q: Ppa)
    requires Idle(lay, s) && l < |s.maptbl|
    requires if s.maptbl[l].Some? then CanInvalidate(s, s.maptbl[l].value) && t == Unmap(s, l) else t == s
    requires CanFill(lay, t, User, l, q) && (t.free != [] ==> t.free[0] < |t.place|)
    ensures CanAdvance(lay, t, User) <==> CanRewrite(lay.perLine, SketchOf(s), l)
    ensures CanAdvance(lay, t, User) ==>
              SketchOf(Program(lay, t, User, l, q)) == Rewrite(lay.perLine, SketchOf(s), l)
  {
    hide Inv, Unmap, Program, At, FillPage, CanFill;
    OpenLineHasRoom(lay, s);
    WhereIs(s.maptbl, l);
    if s.maptbl[l].Some? {
      UnmapLists(lay, s, l);
      UnmapAt(s, l);
    }
    if CanAdvance(lay, t, User) {
      ProgramLists(lay, t, User, l, q);
      ProgramAt(lay, s, t, l, q);
    }
  }

  lemma OpenLineHasRoom(lay: Layout, s: Ftl)
    requires Idle(lay, s)
    ensures s.user.done < lay.perLine && s.gc.done < lay.perLine && |s.vpc| == |s.ipc| && s.user.line < |s.vpc|
  {
    assert LinesOk(lay, s, None, {}) && OpenOk(lay, s);
  }

  lemma WhereIs(maptbl: seq<Option<Ppa>>, l: nat)
    requires l < |maptbl|
    ensures l in At(maptbl) <==> maptbl[l].Some?
    ensures maptbl[l].Some? ==> At(maptbl)[l] == maptbl[l].value.blk
  {
  }

  lemma UnmapAt(s: Ftl, l: nat)
    requires l < |s.maptbl| && s.maptbl[l].Some? && CanInvalidate(s, s.maptbl[l].value)
    ensures Unmap(s, l).maptbl == s.maptbl[l := None] && Unmap(s, l).user == s.user && Unmap(s, l).free == s.free
    ensures s.maptbl[l].value.blk < |s.vpc| == |s.ipc| && s.vpc[s.maptbl[l].value.blk] > 0
  {
  }

  lemma ProgramAt(lay: Layout, s: Ftl, t: Ftl, l: nat, q: Ppa)
    requires l < |s.maptbl| && (t.maptbl == s.maptbl || t.maptbl == s.maptbl[l := None])
    requires CanFill(lay, t, User, l, q) && CanAdvance(lay, t, User) && (t.free != [] ==> t.free[0] < |t.place|)
    ensures At(Program(lay, t, User, l, q).maptbl) == At(s.maptbl)[l := t.user.line]
  {
  }
}
