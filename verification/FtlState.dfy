/**
 The abstract state of the page-mapped translation layer (conv_ftl.c), the updates its primitives make,
 and the invariant that ties its redundant views together.
 */
module FtlState {
  import opened Wrappers
  import opened Geometry
  import opened Sets

  /** PG_FREE, PG_VALID, PG_INVALID */
  datatype Status = Free | Valid | Invalid

  /** Where a line is.  `Collecting` is the victim of the garbage collection pass in progress. */
  datatype Place = InFree | InFull | InVictims | UserOpen | GcOpen | Collecting

  /** USER_IO, GC_IO */
  datatype Io = User | Gc

  /** A write pointer: its line and how many of that line's pages it has passed. */
  datatype OpenLine = OpenLine(line: nat, done: nat)

  /** The shape of the flash as the invariant needs it: each page's rank in the write order of its line. */
  datatype Layout = Layout(lines: nat, perLine: nat, logical: nat, rank: map<Ppa, nat>) {
    ghost predicate Ok() {
      && 0 < perLine
      && (forall p <- rank :: p.blk < lines && rank[p] < perLine)
      && (forall p, q | p in rank && q in rank && p.blk == q.blk && rank[p] == rank[q] :: p == q)
    }
  }

  datatype Ftl = Ftl(
    maptbl: seq<Option<Ppa>>, rmap: map<Ppa, Option<nat>>,
    status: map<Ppa, Status>, blkVpc: map<Blk, nat>, blkIpc: map<Blk, nat>,
    vpc: seq<nat>, ipc: seq<nat>,
    free: seq<nat>, full: seq<nat>, victims: set<nat>,
    user: OpenLine, gc: OpenLine,
    place: seq<Place>,
    host: nat, copied: nat, collections: nat, victimVpcSum: nat, discarded: nat)
  {
    function Open(io: Io): OpenLine {
      if io == User then user else gc
    }
  }

  // ----- counting pages -----

  ghost function In(status: map<Ppa, Status>, b: nat, x: Status): set<Ppa> {
    set p | p in status && p.blk == b && status[p] == x
  }

  ghost function InBlk(status: map<Ppa, Status>, k: Blk, x: Status): set<Ppa> {
    set p | p in status && BlkOf(p) == k && status[p] == x
  }

  function Sum(s: seq<nat>): nat {
    if s == [] then 0 else s[0] + Sum(s[1..])
  }

  // ----- the invariant, one view at a time -----

  /**
   maptbl and rmap are inverse on the valid pages.  `stale` holds the victim's pages that the pass in
   progress has dealt with: they may still be Valid, but no logical page points at them any more.
   */
  ghost predicate MapOk(maptbl: seq<Option<Ppa>>, rmap: map<Ppa, Option<nat>>, status: map<Ppa, Status>,
      stale: set<Ppa>) {
    && rmap.Keys == status.Keys
    && (forall p <- status | status[p] == Valid && p !in stale ::
          rmap[p].Some? && rmap[p].value < |maptbl| && maptbl[rmap[p].value] == Some(p))
    && (forall l | 0 <= l < |maptbl| && maptbl[l].Some? ::
          var p := maptbl[l].value;
          p in status && status[p] == Valid && p !in stale && rmap[p] == Some(l))
  }

  /** Every line is in exactly one place, the lists agree with `place`, and `victim` is the line being collected. */
  ghost predicate PlaceOk(lines: nat, s: Ftl, victim: Option<nat>) {
    && |s.place| == lines
    && Distinct(s.free) && Distinct(s.full)
    && (forall b <- s.free :: b < lines) && (forall b <- s.full :: b < lines) && (forall b <- s.victims :: b < lines)
    && s.user.line < lines && s.gc.line < lines
    && (victim.Some? ==> victim.value < lines)
    && (forall b | 0 <= b < lines ::
          && (b in s.free <==> s.place[b] == InFree)
          && (b in s.full <==> s.place[b] == InFull)
          && (b in s.victims <==> s.place[b] == InVictims)
          && (b == s.user.line <==> s.place[b] == UserOpen)
          && (b == s.gc.line <==> s.place[b] == GcOpen)
          && (victim == Some(b) <==> s.place[b] == Collecting))
  }

  /** How many of a line's pages have been programmed, given where the line is. */
  ghost function Level(perLine: nat, place: Place, user: OpenLine, gc: OpenLine): nat {
    match place
    case InFree => 0
    case UserOpen => user.done
    case GcOpen => gc.done
    case _ => perLine
  }

  /** Outside the victim, the pages not yet programmed are exactly the Free ones. */
  ghost predicate LevelOk(lay: Layout, s: Ftl)
    requires |s.place| == lay.lines && lay.Ok()
  {
    && s.status.Keys == lay.rank.Keys
    && s.user.done <= lay.perLine && s.gc.done <= lay.perLine
    && (forall p <- s.status | s.place[p.blk] != Collecting ::
          s.status[p] == Free <==> Level(lay.perLine, s.place[p.blk], s.user, s.gc) <= lay.rank[p])
  }

  /** vpc + ipc of a line is its number of programmed pages; ipc separates full lines from victims. */
  ghost predicate SumOk(lay: Layout, s: Ftl)
    requires |s.place| == lay.lines
  {
    && |s.vpc| == lay.lines && |s.ipc| == lay.lines
    && (forall b | 0 <= b < lay.lines ::
          && s.vpc[b] + s.ipc[b] == Level(lay.perLine, s.place[b], s.user, s.gc)
          && (s.place[b] == InFull ==> s.ipc[b] == 0)
          && (s.place[b] == InVictims || s.place[b] == Collecting ==> s.ipc[b] > 0))
  }

  /** Outside the victim, line counters count page statuses. */
  ghost predicate CountOk(s: Ftl)
    requires |s.vpc| == |s.place| && |s.ipc| == |s.place|
  {
    forall b | 0 <= b < |s.place| && s.place[b] != Collecting ::
      s.vpc[b] == |In(s.status, b, Valid)| && s.ipc[b] == |In(s.status, b, Invalid)|
  }

  /** Block counters count page statuses. */
  ghost predicate BlkOk(status: map<Ppa, Status>, blkVpc: map<Blk, nat>, blkIpc: map<Blk, nat>) {
    && blkVpc.Keys == blkIpc.Keys
    && (forall p <- status :: BlkOf(p) in blkVpc)
    && (forall k <- blkVpc :: blkVpc[k] == |InBlk(status, k, Valid)| && blkIpc[k] == |InBlk(status, k, Invalid)|)
  }

  /** The victim's valid pages that still have to be copied. */
  ghost function Pending(status: map<Ppa, Status>, victim: Option<nat>, stale: set<Ppa>): set<Ppa> {
    if victim.None? then {} else In(status, victim.value, Valid) - stale
  }

  /** Pages written by the host and by garbage collection, against pages in use and lines erased. */
  ghost predicate ConserveOk(perLine: nat, s: Ftl, victim: Option<nat>, stale: set<Ppa>) {
    && s.copied + |Pending(s.status, victim, stale)| == s.victimVpcSum
    && s.host + s.copied + (if victim.Some? then perLine else 0)
       == Sum(s.vpc) + Sum(s.ipc) + perLine * s.collections
  }

  ghost predicate TablesOk(s: Ftl, stale: set<Ppa>) {
    MapOk(s.maptbl, s.rmap, s.status, stale) && BlkOk(s.status, s.blkVpc, s.blkIpc)
  }

  ghost predicate StaleOk(status: map<Ppa, Status>, victim: Option<nat>, stale: set<Ppa>) {
    forall p <- stale :: p in status && victim == Some(p.blk)
  }

  ghost predicate LinesOk(lay: Layout, s: Ftl, victim: Option<nat>, stale: set<Ppa>) {
    && lay.Ok()
    && |s.maptbl| == lay.logical
    && PlaceOk(lay.lines, s, victim)
    && LevelOk(lay, s)
    && SumOk(lay, s)
    && CountOk(s)
    && ConserveOk(lay.perLine, s, victim, stale)
    && StaleOk(s.status, victim, stale)
  }

  /** Between page writes both write pointers stand on a page that is still to be written. */
  ghost predicate OpenOk(lay: Layout, s: Ftl) {
    s.user.done < lay.perLine && s.gc.done < lay.perLine
  }

  /** The whole invariant; `stale` are the pages of `victim` that the collection in progress has dealt with. */
  ghost predicate Inv(lay: Layout, s: Ftl, victim: Option<nat>, stale: set<Ppa>) {
    TablesOk(s, stale) && LinesOk(lay, s, victim, stale) && OpenOk(lay, s)
  }

  /** The invariant between commands: nothing is being collected. */
  ghost predicate Idle(lay: Layout, s: Ftl) {
    Inv(lay, s, None, {})
  }

  // ----- the updates -----

  function Without(s: seq<nat>, x: nat): (r: seq<nat>) {
    if s == [] then [] else if s[0] == x then s[1..] else [s[0]] + Without(s[1..], x)
  }

  /** The page and block part of mark_page_invalid. */
  function InvalidatePage(s: Ftl, p: Ppa): Ftl
    requires BlkOf(p) in s.blkVpc && BlkOf(p) in s.blkIpc && s.blkVpc[BlkOf(p)] > 0
  {
    var k := BlkOf(p);
    s.(status := s.status[p := Invalid],
       blkVpc := s.blkVpc[k := s.blkVpc[k] - 1], blkIpc := s.blkIpc[k := s.blkIpc[k] + 1])
  }

  /** The line part of mark_page_invalid: a full line becomes a victim. */
  function InvalidateLine(s: Ftl, b: nat): Ftl
    requires b < |s.vpc| && |s.ipc| == |s.vpc| == |s.place| && s.vpc[b] > 0
  {
    var t := s.(vpc := s.vpc[b := s.vpc[b] - 1], ipc := s.ipc[b := s.ipc[b] + 1]);
    if s.place[b] == InFull then
      t.(full := Without(s.full, b), victims := s.victims + {b}, place := s.place[b := InVictims])
    else
      t
  }

  /** mark_page_invalid */
  function MarkInvalid(s: Ftl, p: Ppa): Ftl
    requires BlkOf(p) in s.blkVpc && BlkOf(p) in s.blkIpc && s.blkVpc[BlkOf(p)] > 0
    requires p.blk < |s.vpc| && |s.ipc| == |s.vpc| == |s.place| && s.vpc[p.blk] > 0
  {
    InvalidateLine(InvalidatePage(s, p), p.blk)
  }

  /** mark_page_valid */
  function MarkValid(s: Ftl, p: Ppa): Ftl
    requires BlkOf(p) in s.blkVpc && p.blk < |s.vpc|
  {
    CountValid(ValidatePage(s, p), p.blk)
  }

  /** The page and block part of mark_page_valid. */
  function ValidatePage(s: Ftl, p: Ppa): Ftl
    requires BlkOf(p) in s.blkVpc
  {
    s.(status := s.status[p := Valid], blkVpc := s.blkVpc[BlkOf(p) := s.blkVpc[BlkOf(p)] + 1])
  }

  /** The line part of mark_page_valid. */
  function CountValid(s: Ftl, b: nat): Ftl
    requires b < |s.vpc|
  {
    s.(vpc := s.vpc[b := s.vpc[b] + 1])
  }

  /** A write pointer that is about to pass the last page of its line needs a line to continue on. */
  predicate CanAdvance(lay: Layout, s: Ftl, io: Io) {
    s.Open(io).done + 1 < lay.perLine || s.free != []
  }

  /** The write pointer has passed one more page. */
  function Bump(s: Ftl, io: Io): Ftl {
    SetOpen(s, io, OpenLine(s.Open(io).line, s.Open(io).done + 1))
  }

  /** The tail of advance_write_pointer: a line that has no page left is closed and a free line is opened. */
  function Close(lay: Layout, s: Ftl, io: Io): Ftl
    requires s.Open(io).done >= lay.perLine ==> s.free != [] && s.free[0] < |s.place|
    requires s.Open(io).line < |s.place| && |s.vpc| == |s.place|
  {
    var o := s.Open(io);
    if o.done < lay.perLine then
      s
    else
      var isFull := s.vpc[o.line] == lay.perLine;
      var closed := s.(
        full := if isFull then s.full + [o.line] else s.full,
        victims := if isFull then s.victims else s.victims + {o.line},
        free := s.free[1..],
        place := s.place[o.line := if isFull then InFull else InVictims]
                        [s.free[0] := if io == User then UserOpen else GcOpen]);
      SetOpen(closed, io, OpenLine(s.free[0], 0))
  }

  function SetOpen(s: Ftl, io: Io, o: OpenLine): Ftl {
    if io == User then s.(user := o) else s.(gc := o)
  }

  /** Put a used-up line on the full list or among the victims. */
  function CloseLists(perLine: nat, s: Ftl, b: nat): Ftl
    requires b < |s.vpc|
  {
    if s.vpc[b] == perLine then s.(full := s.full + [b]) else s.(victims := s.victims + {b})
  }

  /** Continue a write pointer on the first free line. */
  function Reopened(s: Ftl, io: Io): Ftl
    requires s.free != []
  {
    SetOpen(s.(free := s.free[1..]), io, OpenLine(s.free[0], 0))
  }

  function Replaced(s: Ftl, b: nat, x: Place, n: nat, io: Io): Ftl
    requires b < |s.place| && n < |s.place|
  {
    s.(place := s.place[b := x][n := if io == User then UserOpen else GcOpen])
  }

  /** The lines part of closing a line, step by step. */
  function CloseSteps(perLine: nat, s: Ftl, io: Io): Ftl
    requires s.free != [] && s.free[0] < |s.place|
    requires s.Open(io).line < |s.place| && |s.vpc| == |s.place|
  {
    var b := s.Open(io).line;
    var place := if s.vpc[b] == perLine then InFull else InVictims;
    Replaced(Reopened(CloseLists(perLine, s, b), io), b, place, s.free[0], io)
  }

  lemma CloseInSteps(lay: Layout, s: Ftl, io: Io)
    requires s.Open(io).done + 1 == lay.perLine && s.free != [] && s.free[0] < |s.place|
    requires s.Open(io).line < |s.place| && |s.vpc| == |s.place|
    ensures Close(lay, Bump(s, io), io) == CloseSteps(lay.perLine, SetOpen(s, io, OpenLine(s.Open(io).line, 0)), io)
  {
  }

  /** Enter a logical page in both maps. */
  function Link(s: Ftl, l: nat, q: Ppa): Ftl
    requires l < |s.maptbl|
  {
    s.(maptbl := s.maptbl[l := Some(q)], rmap := s.rmap[q := Some(l)])
  }

  /** The page at the write pointer. */
  ghost predicate IsNext(lay: Layout, s: Ftl, io: Io, q: Ppa) {
    q in lay.rank && q.blk == s.Open(io).line && lay.rank[q] == s.Open(io).done
  }

  /** Write logical page `l` at page `q`. */
  ghost function Written(s: Ftl, io: Io, l: nat, q: Ppa): Ftl
    requires l < |s.maptbl| && BlkOf(q) in s.blkVpc && q.blk < |s.vpc|
  {
    var t := MarkValid(Link(s, l, q), q);
    if io == User then t.(host := t.host + 1) else t.(copied := t.copied + 1)
  }

  /** Write logical page `l` at the write pointer and step it, without closing the line yet. */
  ghost function Fill(s: Ftl, io: Io, l: nat, q: Ppa): Ftl
    requires l < |s.maptbl| && BlkOf(q) in s.blkVpc && q.blk < |s.vpc|
  {
    Bump(Written(s, io, l, q), io)
  }

  /** The second half of a page write, and gc_write_page. */
  ghost function Program(lay: Layout, s: Ftl, io: Io, l: nat, q: Ppa): Ftl
    requires CanAdvance(lay, s, io) && l < |s.maptbl|
    requires BlkOf(q) in s.blkVpc && q.blk < |s.vpc|
    requires s.Open(io).line < |s.place| && |s.vpc| == |s.place|
    requires s.free != [] ==> s.free[0] < |s.place|
  {
    Close(lay, Fill(s, io, l, q), io)
  }

  /** select_victim_line, with the counters do_gc updates for the chosen line. */
  function TakeVictim(s: Ftl, v: nat): Ftl
    requires v < |s.place| && |s.vpc| == |s.place|
  {
    s.(victims := s.victims - {v}, place := s.place[v := Collecting],
       collections := s.collections + 1, victimVpcSum := s.victimVpcSum + s.vpc[v])
  }

  /** mark_block_free */
  function EraseBlock(s: Ftl, k: Blk): Ftl {
    s.(status := map p | p in s.status :: if BlkOf(p) == k then Free else s.status[p],
       blkVpc := s.blkVpc[k := 0], blkIpc := s.blkIpc[k := 0])
  }

  /** mark_line_free */
  function FreeLine(s: Ftl, v: nat): Ftl
    requires v < |s.vpc| && |s.ipc| == |s.vpc| == |s.place|
  {
    s.(vpc := s.vpc[v := 0], ipc := s.ipc[v := 0], free := s.free + [v], place := s.place[v := InFree])
  }
}
