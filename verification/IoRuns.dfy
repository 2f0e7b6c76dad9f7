/** Runs of the I/O work queue in which the dispatcher and the worker take turns in any order (io.c). */
module IoRuns {
  import opened Sets
  import opened IoQueue

  /** The two lists, the fields of the entries, the worker's latest time and the entry it stands on. */
  datatype Queue = Queue(free: seq<nat>, flight: seq<nat>, target: seq<nat>, completed: seq<bool>, copied: seq<bool>,
                         latest: nat, curr: nat)

  /** One step of the dispatcher, or the worker going on: to the head of the list, or past the entry it stands on. */
  datatype Op = Enqueue(when: nat, internal: bool) | Reclaim | GoOn(now: nat)

  ghost function View(w: Worker, curr: nat): Queue
    reads w, w.target, w.completed, w.copied
  {
    Queue(w.free, w.flight, w.target[..], w.completed[..], w.copied[..], w.latest, curr)
  }

  /** A request that finds no second free entry is dropped; any other goes behind those due no later. */
  ghost predicate Enqueued(q: Queue, when: nat, internal: bool, q': Queue) {
    if |q.free| <= 1 then q' == q else
    var e := q.free[0];
    exists p: nat ::
      && PlacedAt(q, q', e, p)
      && q' == q.(free := q.free[1..], flight := PutAt(q.flight, p, e), target := q.target[e := when],
                  completed := q.completed[e := false], copied := q.copied[e := internal])
  }

  ghost predicate PlacedAt(q: Queue, q': Queue, e: nat, p: nat) {
    && p <= |q.flight| && e !in q.flight && e < |q.target| == |q.completed| == |q.copied| == |q'.target|
    && forall i | 0 <= i < |q.flight| ::
         q.flight[i] < |q.target| && (i < p <==> Due(q'.target, q.latest, q.flight[i]) <= Due(q'.target, q.latest, e))
  }

  /** The longest finished prefix is freed. */
  ghost predicate Reclaimed(q: Queue, q': Queue) {
    exists k: nat ::
      && FinishedPrefix(q.completed, q.copied, q.target, q.latest, q.flight, k)
      && q' == q.(free := q.free + q.flight[..k], flight := q.flight[k..])
  }

  /** The worker acts on a request in flight only; from one reclaimed meanwhile it goes on along the free list. */
  ghost predicate WentOn(q: Queue, now: nat, q': Queue) {
    if q.curr == NONE then q' == q.(curr := if q.flight == [] then NONE else q.flight[0])
    else if q.curr in q.flight then
      && q.curr < |q.target| == |q.completed| == |q.copied|
      && Succeeds(q.flight, q.curr, q'.curr)
      && q' == q.(latest := now, curr := q'.curr, copied := q.copied[q.curr := true],
                  completed := q.completed[q.curr := q.completed[q.curr] || q.target[q.curr] <= now])
    else
      Succeeds(q.free, q.curr, q'.curr) && q' == q.(latest := now, curr := q'.curr)
  }

  ghost predicate Succeeds(s: seq<nat>, e: nat, after: nat) {
    exists i | 0 <= i < |s| :: s[i] == e && after == Following(s, i)
  }

  ghost predicate Next(q: Queue, op: Op, q': Queue) {
    match op
    case Enqueue(when, internal) => Enqueued(q, when, internal, q')
    case Reclaim => Reclaimed(q, q')
    case GoOn(now) => WentOn(q, now, q')
  }

  /** Where the worker may stand. */
  ghost predicate Standing(q: Queue) {
    || q.curr == NONE || q.curr in q.flight
    || (q.curr in q.free && q.curr < |q.completed| && q.completed[q.curr])
  }

  /** The dispatcher never takes the ground from under the worker. */
  lemma StandingKept(q: Queue, op: Op, q': Queue)
    requires Next(q, op, q') && Standing(q) && !op.GoOn?
    ensures Standing(q')
  {
    match op
    case Enqueue(when, internal) =>
      if |q.free| > 1 {
        var e := q.free[0];
        var p: nat :| PlacedAt(q, q', e, p) && q'.flight == PutAt(q.flight, p, e);
        StillIn(q.flight, p, e, q.curr);
        assert q.curr in q.free && q.curr != e ==> q.curr in q.free[1..];
      }
    case Reclaim =>
      var k: nat :| FinishedPrefix(q.completed, q.copied, q.target, q.latest, q.flight, k)
                    && q' == q.(free := q.free + q.flight[..k], flight := q.flight[k..]);
      assert q.curr in q.flight ==> q.curr in q.flight[..k] || q.curr in q.flight[k..];
  }

  lemma StillIn(s: seq<nat>, p: nat, e: nat, x: nat)
    requires p <= |s|
    ensures e in PutAt(s, p, e) && (x in s ==> x in PutAt(s, p, e))
  {
    assert PutAt(s, p, e)[p] == e;
    assert s == s[..p] + s[p..];
  }

  /** The times the worker reads do not go back. */
  ghost predicate TimesRise(latest: nat, ops: seq<Op>) {
    && (forall i | 0 <= i < |ops| && ops[i].GoOn? :: latest <= ops[i].now)
    && (forall i, j | 0 <= i < j < |ops| && ops[i].GoOn? && ops[j].GoOn? :: ops[i].now <= ops[j].now)
  }

  ghost predicate IsTrace(trace: seq<Queue>, ops: seq<Op>) {
    |trace| == |ops| + 1 && forall i | 0 <= i < |ops| :: Next(trace[i], ops[i], trace[i + 1])
  }

  method EnqueueStep(w: Worker, when: nat, internal: bool, ghost curr: nat)
    requires w.Valid()
    modifies w, w.next, w.prev, w.target, w.completed, w.copied
    ensures w.Valid() && w.latest == old(w.latest) && Next(old(View(w, curr)), Enqueue(when, internal), View(w, curr))
  {
    hide Linked, Sorted, Settled, Due;
    ghost var q := View(w, curr);
    ghost var e, p;
    var ok;
    ok, e, p := w.Enqueue(when, internal);
    if ok {
      assert PlacedAt(q, View(w, curr), e, p);
    }
  }

  method ReclaimStep(w: Worker, ghost curr: nat)
    requires w.Valid()
    modifies w, w.next, w.prev
    ensures w.Valid() && w.latest == old(w.latest) && Next(old(View(w, curr)), Reclaim, View(w, curr))
  {
    hide Linked, Sorted, Settled;
    ghost var k := w.Reclaim();
  }

  method GoOnStep(w: Worker, curr: nat, now: nat) returns (following: nat)
    requires w.Valid() && w.Stands(curr) && w.latest <= now
    modifies w, w.completed, w.copied
    ensures w.Valid() && w.latest <= now && w.Stands(following)
    ensures Next(old(View(w, curr)), GoOn(now), View(w, following))
  {
    hide Linked, Sorted, Settled;
    if curr == NONE {
      following := w.ioSeq;
    } else {
      following := w.Visit(curr, now);
    }
  }

  /**
   Any interleaving of requests, reclaiming and single turns of the worker: the queue stays valid, the worker
   always stands on a request in flight or on a completed one, and every step is what `Next` says.
   */
  method Interleave(w: Worker, start: nat, ops: seq<Op>) returns (curr: nat, ghost trace: seq<Queue>)
    requires w.Valid() && w.Stands(start) && TimesRise(w.latest, ops)
    modifies w, w.next, w.prev, w.target, w.completed, w.copied
    ensures w.Valid() && w.Stands(curr)
    ensures IsTrace(trace, ops) && trace[0] == old(View(w, start)) && trace[|ops|] == View(w, curr)
  {
    hide Linked, Sorted, Settled, Spent, Next, Ends;
    curr, trace := start, [View(w, start)];
    var i := 0;
    while i < |ops|
      invariant 0 <= i <= |ops| && w.Valid() && w.Stands(curr)
      invariant forall j | i <= j < |ops| && ops[j].GoOn? :: w.latest <= ops[j].now
      invariant IsTrace(trace, ops[..i]) && trace[0] == old(View(w, start)) && trace[i] == View(w, curr)
    {
      ghost var q := View(w, curr);
      match ops[i] {
        case Enqueue(when, internal) =>
          EnqueueStep(w, when, internal, curr);
          StandingKept(q, ops[i], View(w, curr));
        case Reclaim =>
          ReclaimStep(w, curr);
          StandingKept(q, ops[i], View(w, curr));
        case GoOn(now) =>
          curr := GoOnStep(w, curr, now);
      }
      trace := trace + [View(w, curr)];
      i := i + 1;
    }
    assert ops[..i] == ops;
  }

  // ----- what a run does to one request -----

  /** A step that takes a request out of the list in flight, copied, completed and due. */
  ghost predicate LeavesDone(q: Queue, op: Op, q': Queue, e: nat, when: nat) {
    && op == Reclaim && e in q.flight && e !in q'.flight && e in q'.free
    && e < |q.target| == |q.completed| == |q.copied|
    && q.copied[e] && q.completed[e] && q.target[e] == when <= q.latest
  }

  lemma ReclaimFreesDone(q: Queue, q': Queue, e: nat)
    requires Reclaimed(q, q') && e in q.flight && e !in q'.flight
    ensures e < |q.target| && LeavesDone(q, Reclaim, q', e, q.target[e])
  {
    var k: nat :| FinishedPrefix(q.completed, q.copied, q.target, q.latest, q.flight, k)
                  && q' == q.(free := q.free + q.flight[..k], flight := q.flight[k..]);
    assert q.flight == q.flight[..k] + q.flight[k..];
    var i :| 0 <= i < k && q.flight[..k][i] == e;
    assert Finished(q.completed, q.copied, q.target, q.latest, q.flight[i]);
  }

  /** A request in flight keeps its target, and stays in flight unless it leaves done. */
  lemma StaysOrLeavesDone(q: Queue, op: Op, q': Queue, e: nat)
    requires Next(q, op, q') && e in q.flight && e < |q.target|
    ensures e in q'.flight ==> |q'.target| == |q.target| && q'.target[e] == q.target[e]
    ensures e !in q'.flight ==> LeavesDone(q, op, q', e, q.target[e])
  {
    match op
    case Enqueue(when, internal) =>
      if |q.free| > 1 {
        var p: nat :| PlacedAt(q, q', q.free[0], p) && q'.flight == PutAt(q.flight, p, q.free[0]);
        StillIn(q.flight, p, q.free[0], e);
      }
    case Reclaim =>
      if e !in q'.flight {
        ReclaimFreesDone(q, q', e);
      }
    case GoOn(now) =>
  }

  /**
   However the dispatcher and the worker take turns, a request is still in flight with its target, or there is a
   step at which it was freed: copied, completed, and not before its target.
   */
  lemma {:induction false} FreedOnlyWhenDone(trace: seq<Queue>, ops: seq<Op>, e: nat)
    requires IsTrace(trace, ops) && e in trace[0].flight && e < |trace[0].target|
    ensures var last := trace[|ops|];
            || (e in last.flight && e < |last.target| && last.target[e] == trace[0].target[e])
            || exists i | 0 <= i < |ops| :: LeavesDone(trace[i], ops[i], trace[i + 1], e, trace[0].target[e])
  {
    if ops != [] {
      StaysOrLeavesDone(trace[0], ops[0], trace[1], e);
      if e in trace[1].flight {
        FreedOnlyWhenDone(trace[1..], ops[1..], e);
        if i :| 0 <= i < |ops| - 1 && LeavesDone(trace[1..][i], ops[1..][i], trace[1..][i + 1], e, trace[0].target[e]) {
          assert LeavesDone(trace[i + 1], ops[i + 1], trace[i + 2], e, trace[0].target[e]);
        }
      } else {
        assert LeavesDone(trace[0], ops[0], trace[0 + 1], e, trace[0].target[e]);
      }
    }
  }
}
