/**
 The I/O work queue of io.c: two lists, the free entries and the requests in flight, chained through the
 entries of one array.
 */
module IoQueue {
  import opened Sets

  const NR_MAX_PARALLEL_IO: nat := 16384

  /** The unsigned -1 that ends a list. */
  const NONE: nat := 0xFFFF_FFFF

  // ----- lists of entries -----

  ghost predicate InRange(s: seq<nat>, n: nat) {
    forall i | 0 <= i < |s| :: s[i] < n
  }

  /** `next` links the entries of `s` in order and ends there. */
  ghost predicate Chain(next: seq<nat>, s: seq<nat>) {
    && InRange(s, |next|)
    && (forall i | 0 <= i < |s| - 1 :: next[s[i]] == s[i + 1])
    && (s != [] ==> next[s[|s| - 1]] == NONE)
  }

  /** `prev` links the entries of `s` backwards and ends at the first. */
  ghost predicate BackChain(prev: seq<nat>, s: seq<nat>) {
    && InRange(s, |prev|)
    && (forall i | 0 < i < |s| :: prev[s[i]] == s[i - 1])
    && (s != [] ==> prev[s[0]] == NONE)
  }

  /** The two lists share no entry and together hold all of them. */
  ghost predicate Parted(n: nat, free: seq<nat>, flight: seq<nat>) {
    InRange(free + flight, n) && Distinct(free + flight) && |free| + |flight| == n
  }

  /** Every entry is on exactly one of the two lists. */
  lemma EveryEntryIsPlaced(n: nat, free: seq<nat>, flight: seq<nat>, e: nat)
    requires Parted(n, free, flight) && e < n
    ensures (e in free) != (e in flight)
  {
    var s := free + flight;
    DistinctSize(s);
    assert |Upto(n) - {e}| == n - 1;
    if e !in s {
      SubsetSize(Of(s), Upto(n) - {e});
    }
    assert forall i | 0 <= i < |free| :: free[i] == s[i];
    assert forall j | 0 <= j < |flight| :: flight[j] == s[|free| + j];
  }

  // ----- insertion into the list in flight -----

  /** `flight` with an entry put before position `p`. */
  function PutAt(flight: seq<nat>, p: nat, entry: nat): seq<nat>
    requires p <= |flight|
  {
    flight[..p] + [entry] + flight[p..]
  }

  /** The links after the entry, itself unlinked so far, has been put before position `p`. */
  function NextAfter(next: seq<nat>, flight: seq<nat>, p: nat, entry: nat): (after: seq<nat>)
    requires p <= |flight| && entry < |next| && InRange(flight, |next|)
    ensures |after| == |next|
  {
    var linked := if p < |flight| then next[entry := flight[p]] else next;
    if p > 0 then linked[flight[p - 1] := entry] else linked
  }

  function PrevAfter(prev: seq<nat>, flight: seq<nat>, p: nat, entry: nat): (before: seq<nat>)
    requires p <= |flight| && entry < |prev| && InRange(flight, |prev|)
    ensures |before| == |prev|
  {
    var linked := if p > 0 then prev[entry := flight[p - 1]] else prev;
    if p < |flight| then linked[flight[p] := entry] else linked
  }

  lemma PutLinksNext(next: seq<nat>, flight: seq<nat>, p: nat, entry: nat)
    requires p <= |flight| && entry < |next| && entry !in flight && next[entry] == NONE
    requires Chain(next, flight) && Distinct(flight)
    ensures Chain(NextAfter(next, flight, p, entry), PutAt(flight, p, entry))
  {
    var s, after := PutAt(flight, p, entry), NextAfter(next, flight, p, entry);
    forall i | 0 <= i < |s|
      ensures LinksNext(after, s, i)
    {
      if i < p - 1 {
        assert flight[i] != flight[p - 1];
      } else if i > p {
        assert s[i] == flight[i - 1];
        assert p > 0 ==> flight[p - 1] != flight[i - 1];
      }
    }
    ChainFrom(after, s);
  }

  lemma PutLinksPrev(prev: seq<nat>, flight: seq<nat>, p: nat, entry: nat)
    requires p <= |flight| && entry < |prev| && entry !in flight && prev[entry] == NONE
    requires BackChain(prev, flight) && Distinct(flight)
    ensures BackChain(PrevAfter(prev, flight, p, entry), PutAt(flight, p, entry))
  {
    var s, after := PutAt(flight, p, entry), PrevAfter(prev, flight, p, entry);
    forall i | 0 <= i < |s|
      ensures LinksPrev(after, s, i)
    {
      if i < p {
        assert p < |flight| ==> flight[i] != flight[p];
      } else if i > p + 1 {
        assert s[i] == flight[i - 1] && s[i - 1] == flight[i - 2];
        assert flight[p] != flight[i - 1];
      }
    }
    BackChainFrom(after, s);
  }

  /** Linking entries of one list leaves the links of a list that shares no entry with it. */
  lemma PutKeepsOther(next: seq<nat>, flight: seq<nat>, p: nat, entry: nat, other: seq<nat>)
    requires p <= |flight| && entry < |next| && InRange(flight, |next|)
    requires Chain(next, other) && entry !in other && forall i | 0 <= i < |flight| :: flight[i] !in other
    ensures Chain(NextAfter(next, flight, p, entry), other)
  {
    forall i | 0 <= i < |other|
      ensures NextAfter(next, flight, p, entry)[other[i]] == next[other[i]]
    {
      assert other[i] in other;
    }
  }

  lemma PutParts(n: nat, free: seq<nat>, flight: seq<nat>, p: nat, entry: nat)
    requires Parted(n, [entry] + free, flight) && p <= |flight|
    ensures Parted(n, free, PutAt(flight, p, entry))
    ensures entry < n && entry !in free && entry !in flight && Distinct(flight)
    ensures forall i | 0 <= i < |flight| :: flight[i] !in free
  {
    var s := ([entry] + free) + flight;
    assert s[0] == entry;
    assert forall i | 0 <= i < |free| :: s[i + 1] == free[i];
    assert forall i | 0 <= i < |flight| :: s[1 + |free| + i] == flight[i];
    PutMoves(free, flight, p, entry);
    MovedApart(n, s, free + PutAt(flight, p, entry), |free|, p);
  }

  lemma PutMoves(free: seq<nat>, flight: seq<nat>, p: nat, entry: nat)
    requires p <= |flight|
    ensures var s, t := ([entry] + free) + flight, free + PutAt(flight, p, entry);
            |t| == |s| && forall i | 0 <= i < |t| :: WasAt(|free|, p, i) < |s| && t[i] == s[WasAt(|free|, p, i)]
  {
  }

  /** Moving the first entry back keeps the entries apart. */
  lemma MovedApart(n: nat, s: seq<nat>, t: seq<nat>, m: nat, p: nat)
    requires InRange(s, n) && Distinct(s) && |t| == |s| && m + p < |s|
    requires forall i | 0 <= i < |t| :: WasAt(m, p, i) < |s| && t[i] == s[WasAt(m, p, i)]
    ensures InRange(t, n) && Distinct(t)
  {
    forall i, j | 0 <= i < j < |t|
      ensures t[i] != t[j]
    {
      assert WasAt(m, p, i) != WasAt(m, p, j);
    }
  }

  /** Where an entry of the parted lists stood before the first entry was moved behind the first `m` + `p`. */
  function WasAt(m: nat, p: nat, i: nat): nat {
    if i < m + p then i + 1 else if i == m + p then 0 else i
  }

  // ----- order -----

  /** When a request counts as due, seen from the worker's latest time. */
  function Due(target: seq<nat>, latest: nat, e: nat): nat
    requires e < |target|
  {
    if target[e] <= latest then latest else target[e]
  }

  /** The list in flight is sorted by due time. */
  ghost predicate Sorted(target: seq<nat>, latest: nat, s: seq<nat>) {
    InRange(s, |target|) && forall i, j | 0 <= i < j < |s| :: Due(target, latest, s[i]) <= Due(target, latest, s[j])
  }

  /** As the worker's time passes the list stays sorted. */
  lemma SortedLater(target: seq<nat>, latest: nat, s: seq<nat>, later: nat)
    requires Sorted(target, latest, s) && latest <= later
    ensures Sorted(target, later, s)
  {
    forall i, j | 0 <= i < j < |s|
      ensures Due(target, later, s[i]) <= Due(target, later, s[j])
    {
      assert Due(target, latest, s[i]) <= Due(target, latest, s[j]);
    }
  }

  /** The scan from the tail passes a request that is not yet due and has a later target. */
  predicate Passes(target: seq<nat>, latest: nat, e: nat, when: nat)
    requires e < |target|
  {
    target[e] > latest && target[e] > when
  }

  /** Where the scan stops: everything behind has been passed. */
  ghost predicate Stops(target: seq<nat>, latest: nat, s: seq<nat>, when: nat, p: nat) {
    && InRange(s, |target|) && p <= |s|
    && (forall i | p <= i < |s| :: Passes(target, latest, s[i], when))
    && (p > 0 ==> !Passes(target, latest, s[p - 1], when))
  }

  /** Inserting where the scan stops keeps the list sorted by due time. */
  lemma InsertKeepsSorted(target: seq<nat>, latest: nat, s: seq<nat>, when: nat, p: nat, entry: nat)
    requires Sorted(target, latest, s) && Stops(target, latest, s, when, p)
    requires entry < |target| && target[entry] == when
    ensures Sorted(target, latest, PutAt(s, p, entry))
    ensures forall i | 0 <= i < |s| :: i < p <==> Due(target, latest, s[i]) <= Due(target, latest, entry)
  {
    forall i | 0 <= i < |s|
      ensures i < p <==> Due(target, latest, s[i]) <= Due(target, latest, entry)
    {
      if i < p {
        assert i < p - 1 ==> Due(target, latest, s[i]) <= Due(target, latest, s[p - 1]);
      } else {
        assert Passes(target, latest, s[i], when);
      }
    }
  }

  ghost predicate SortedByTarget(target: seq<nat>, s: seq<nat>) {
    InRange(s, |target|) && forall i, j | 0 <= i < j < |s| :: target[s[i]] <= target[s[j]]
  }

  /** Insertion keeps the order of targets exactly when the new target is no earlier than any that is already due. */
  lemma TargetOrderExactly(target: seq<nat>, latest: nat, s: seq<nat>, when: nat, p: nat, entry: nat)
    requires SortedByTarget(target, s) && Stops(target, latest, s, when, p)
    requires entry < |target| && target[entry] == when
    ensures SortedByTarget(target, PutAt(s, p, entry)) <==> forall i | 0 <= i < |s|
          && target[s[i]] <= latest :: target[s[i]] <= when
  {
    if forall i | 0 <= i < |s| && target[s[i]] <= latest :: target[s[i]] <= when {
      TargetOrderKept(target, latest, s, when, p, entry);
    }
    if SortedByTarget(target, PutAt(s, p, entry)) {
      forall i | 0 <= i < |s| && target[s[i]] <= latest
        ensures target[s[i]] <= when
      {
        BeforeEntry(target, latest, s, when, p, entry, i);
      }
    }
  }

  lemma BeforeEntry(target: seq<nat>, latest: nat, s: seq<nat>, when: nat, p: nat, entry: nat, i: nat)
    requires Stops(target, latest, s, when, p) && entry < |target| && target[entry] == when
    requires SortedByTarget(target, PutAt(s, p, entry)) && i < |s| && target[s[i]] <= latest
    ensures target[s[i]] <= when
  {
    var t := PutAt(s, p, entry);
    assert i < p;
    assert t[i] == s[i] && t[p] == entry;
    assert target[t[i]] <= target[t[p]];
  }

  lemma TargetOrderKept(target: seq<nat>, latest: nat, s: seq<nat>, when: nat, p: nat, entry: nat)
    requires SortedByTarget(target, s) && Stops(target, latest, s, when, p) && entry < |target| && target[entry] == when
    requires forall i | 0 <= i < |s| && target[s[i]] <= latest :: target[s[i]] <= when
    ensures SortedByTarget(target, PutAt(s, p, entry))
  {
    forall i | 0 <= i < p
      ensures target[s[i]] <= when
    {
      assert i < p - 1 ==> target[s[i]] <= target[s[p - 1]];
    }
  }

  /** A late request goes behind one that is already due, although its target is earlier. */
  lemma NotSortedByTarget()
    ensures exists target: seq<nat>, latest: nat, s: seq<nat>, when: nat, p: nat, entry: nat ::
              SortedByTarget(target, s) && Stops(target, latest, s, when, p) && entry < |target|
                  && target[entry] == when
              && !SortedByTarget(target, PutAt(s, p, entry))
  {
    var target, s := [10, 5], [0];
    assert Stops(target, 20, s, 5, 1);
    var t := PutAt(s, 1, 1);
    assert t == [0, 1];
    assert target[t[0]] > target[t[1]];
    assert !SortedByTarget(target, t);
  }

  // ----- the two lists together -----

  /** The links of the array represent both lists; `pending` entries are off the lists for the moment. */
  ghost predicate Linked(next: seq<nat>, prev: seq<nat>, pending: seq<nat>, free: seq<nat>, flight: seq<nat>) {
    && |next| == |prev| == NR_MAX_PARALLEL_IO
    && Parted(NR_MAX_PARALLEL_IO, pending + free, flight)
    && Chain(next, free) && Chain(next, flight) && BackChain(prev, flight)
  }

  /** The head and tail fields of a list. */
  ghost predicate Ends(s: seq<nat>, first: nat, last: nat) {
    first == (if s == [] then NONE else s[0]) && (s != [] ==> last == s[|s| - 1])
  }

  /** Taking the first free entry leaves it pending. */
  lemma TakeFirst(next: seq<nat>, prev: seq<nat>, free: seq<nat>, flight: seq<nat>)
    requires Linked(next, prev, [], free, flight) && free != []
    ensures free[0] < NR_MAX_PARALLEL_IO && next[free[0]] == if |free| > 1 then free[1] else NONE
    ensures |free| > 1 ==> free[1] < NR_MAX_PARALLEL_IO
    ensures Linked(next, prev, [free[0]], free[1..], flight)
  {
    hide BackChain;
    assert [] + free == free && [free[0]] + free[1..] == free;
    FirstOfFree(next, free);
    assert ([free[0]] + free[1..]) + flight == ([] + free) + flight;
  }

  lemma FirstOfFree(next: seq<nat>, free: seq<nat>)
    requires |next| == NR_MAX_PARALLEL_IO && Chain(next, free) && free != []
    ensures free[0] < NR_MAX_PARALLEL_IO && next[free[0]] == (if |free| > 1 then free[1] else NONE)
    ensures (|free| > 1 ==> free[1] < NR_MAX_PARALLEL_IO) && Chain(next, free[1..])
  {
    var t := free[1..];
    forall i | 0 <= i < |t|
      ensures LinksNext(next, t, i)
    {
      assert t[i] == free[i + 1];
    }
    ChainFrom(next, t);
  }

  lemma PendingIsOff(next: seq<nat>, prev: seq<nat>, free: seq<nat>, flight: seq<nat>, entry: nat)
    requires Linked(next, prev, [entry], free, flight)
    ensures entry < NR_MAX_PARALLEL_IO && entry !in free && entry !in flight
    ensures Distinct(flight) && InRange(flight, NR_MAX_PARALLEL_IO)
    ensures forall i | 0 <= i < |flight| :: flight[i] !in free
  {
    PutParts(NR_MAX_PARALLEL_IO, free, flight, 0, entry);
  }

  /** Clearing the links of a pending entry disturbs neither list. */
  lemma ClearPending(next: seq<nat>, prev: seq<nat>, free: seq<nat>, flight: seq<nat>, entry: nat)
    requires Linked(next, prev, [entry], free, flight)
    ensures entry < |next| && entry < |prev|
    ensures Linked(next[entry := NONE], prev[entry := NONE], [entry], free, flight)
  {
    PendingIsOff(next, prev, free, flight, entry);
  }

  /** Putting the pending entry into the list in flight. */
  lemma PutLinked(next: seq<nat>, prev: seq<nat>, free: seq<nat>, flight: seq<nat>, p: nat, entry: nat)
    requires Linked(next, prev, [entry], free, flight) && p <= |flight|
    requires entry < |next| == |prev| && next[entry] == NONE && prev[entry] == NONE
    ensures InRange(flight, |next|)
    ensures Linked(NextAfter(next, flight, p, entry), PrevAfter(prev, flight, p, entry),
                   [], free, PutAt(flight, p, entry))
  {
    hide Chain, BackChain, NextAfter, PrevAfter;
    PendingIsOff(next, prev, free, flight, entry);
    PutParts(NR_MAX_PARALLEL_IO, free, flight, p, entry);
    assert [] + free == free;
    PutLinksNext(next, flight, p, entry);
    PutLinksPrev(prev, flight, p, entry);
    PutKeepsOther(next, flight, p, entry, free);
  }

  // ----- reclaiming -----

  /** The first `k` entries of the list, moved to the end of the free list. */
  function NextReclaimed(next: seq<nat>, free: seq<nat>, flight: seq<nat>, k: nat): (after: seq<nat>)
    requires 0 < k <= |flight| && free != [] && InRange(free + flight, |next|)
    ensures |after| == |next|
  {
    assert (free + flight)[|free| - 1] == free[|free| - 1];
    assert (free + flight)[|free| + k - 1] == flight[k - 1];
    next[flight[k - 1] := NONE][free[|free| - 1] := flight[0]]
  }

  function PrevReclaimed(prev: seq<nat>, free: seq<nat>, flight: seq<nat>, k: nat): (before: seq<nat>)
    requires 0 < k <= |flight| && free != [] && InRange(free + flight, |prev|)
    ensures |before| == |prev|
  {
    assert (free + flight)[|free|] == flight[0];
    assert k < |flight| ==> (free + flight)[|free| + k] == flight[k];
    var cut := if k < |flight| then prev[flight[k] := NONE] else prev;
    cut[flight[0] := free[|free| - 1]]
  }

  lemma ReclaimLinks(next: seq<nat>, prev: seq<nat>, free: seq<nat>, flight: seq<nat>, k: nat)
    requires Linked(next, prev, [], free, flight) && free != [] && 0 < k <= |flight|
    ensures InRange(free + flight, |next|)
    ensures Linked(NextReclaimed(next, free, flight, k), PrevReclaimed(prev, free, flight, k),
                   [], free + flight[..k], flight[k..])
  {
    hide Chain, BackChain, NextReclaimed, PrevReclaimed, Distinct;
    assert [] + free == free;
    assert [] + (free + flight[..k]) + flight[k..] == free + flight;
    ReclaimChains(next, free, flight, k);
    ReclaimBack(prev, free, flight, k);
  }

  lemma ReclaimChains(next: seq<nat>, free: seq<nat>, flight: seq<nat>, k: nat)
    requires free != [] && 0 < k <= |flight| && InRange(free + flight, |next|) && Distinct(free + flight)
    requires Chain(next, free) && Chain(next, flight)
    ensures var after := NextReclaimed(next, free, flight, k);
            Chain(after, free + flight[..k]) && Chain(after, flight[k..])
  {
    var s, after := free + flight, NextReclaimed(next, free, flight, k);
    var f, t := free + flight[..k], flight[k..];
    forall i | 0 <= i < |f|
      ensures LinksNext(after, f, i)
    {
      assert f[i] == s[i] && (i + 1 < |f| ==> f[i + 1] == s[i + 1]);
      assert s[|free| - 1] == free[|free| - 1] && s[|free| + k - 1] == flight[k - 1] && s[|free|] == flight[0];
      if i < |free| - 1 {
        assert s[i] == free[i] && s[i + 1] == free[i + 1];
        assert s[i] != s[|free| - 1] && s[i] != s[|free| + k - 1];
      } else if i >= |free| && i < |f| - 1 {
        assert s[i] == flight[i - |free|] && s[i + 1] == flight[i - |free| + 1];
        assert s[i] != s[|free| - 1] && s[i] != s[|free| + k - 1];
      } else {
        assert s[|free| - 1] != s[|free| + k - 1];
      }
    }
    forall i | 0 <= i < |t|
      ensures LinksNext(after, t, i)
    {
      assert t[i] == flight[k + i] && s[|free| + k + i] == flight[k + i];
      assert s[|free| - 1] == free[|free| - 1] && s[|free| + k - 1] == flight[k - 1];
      assert s[|free| + k + i] != s[|free| - 1] && s[|free| + k + i] != s[|free| + k - 1];
    }
    ChainFrom(after, f);
    ChainFrom(after, t);
  }

  /** Entry `i` of the list links to the next one. */
  ghost predicate LinksNext(next: seq<nat>, s: seq<nat>, i: nat)
    requires i < |s|
  {
    s[i] < |next| && next[s[i]] == if i + 1 < |s| then s[i + 1] else NONE
  }

  ghost predicate LinksPrev(prev: seq<nat>, s: seq<nat>, i: nat)
    requires i < |s|
  {
    s[i] < |prev| && prev[s[i]] == if i == 0 then NONE else s[i - 1]
  }

  lemma ChainFrom(next: seq<nat>, s: seq<nat>)
    requires forall i | 0 <= i < |s| :: LinksNext(next, s, i)
    ensures Chain(next, s)
  {
    forall i | 0 <= i < |s|
      ensures s[i] < |next| && (i < |s| - 1 ==> next[s[i]] == s[i + 1]) && (i == |s| - 1 ==> next[s[i]] == NONE)
    {
      assert LinksNext(next, s, i);
    }
  }

  lemma BackChainFrom(prev: seq<nat>, s: seq<nat>)
    requires forall i | 0 <= i < |s| :: LinksPrev(prev, s, i)
    ensures BackChain(prev, s)
  {
    forall i | 0 <= i < |s|
      ensures s[i] < |prev| && (i > 0 ==> prev[s[i]] == s[i - 1]) && (i == 0 ==> prev[s[i]] == NONE)
    {
      assert LinksPrev(prev, s, i);
    }
  }

  lemma ReclaimBack(prev: seq<nat>, free: seq<nat>, flight: seq<nat>, k: nat)
    requires free != [] && 0 < k <= |flight| && InRange(free + flight, |prev|) && Distinct(free + flight)
    requires BackChain(prev, flight)
    ensures BackChain(PrevReclaimed(prev, free, flight, k), flight[k..])
  {
    var s, before, t := free + flight, PrevReclaimed(prev, free, flight, k), flight[k..];
    forall i | 0 <= i < |t|
      ensures LinksPrev(before, t, i)
    {
      assert t[i] == flight[k + i] && s[|free| + k + i] == flight[k + i];
      assert s[|free|] == flight[0] && s[|free| + k] == flight[k];
      assert s[|free| + k + i] != s[|free|];
      assert i > 0 ==> s[|free| + k + i] != s[|free| + k];
    }
    BackChainFrom(before, t);
  }

  /** A request the worker has copied and completed, and whose time the worker has seen. */
  predicate Finished(completed: seq<bool>, copied: seq<bool>, target: seq<nat>, latest: nat, e: nat)
    requires e < |completed| == |copied| == |target|
  {
    completed[e] && copied[e] && target[e] <= latest
  }

  /** Completed requests have been copied and are due, so for them the reclaimer's further checks never fail. */
  ghost predicate Settled(completed: seq<bool>, copied: seq<bool>, target: seq<nat>, latest: nat, s: seq<nat>) {
    && |completed| == |copied| == |target| && InRange(s, |target|)
    && forall i | 0 <= i < |s| && completed[s[i]] :: copied[s[i]] && target[s[i]] <= latest
  }

  /** What comes after entry `i` of a list. */
  function Following(s: seq<nat>, i: nat): nat
    requires i < |s|
  {
    if i + 1 < |s| then s[i + 1] else NONE
  }

  /** Along the free list, everything behind an entry that was in use has been in use and is completed. */
  ghost predicate Spent(completed: seq<bool>, free: seq<nat>) {
    && InRange(free, |completed|)
    && forall i, j | 0 <= i < j < |free| && completed[free[i]] :: completed[free[j]]
  }

  lemma SpentRest(completed: seq<bool>, free: seq<nat>)
    requires Spent(completed, free) && free != []
    ensures Spent(completed, free[1..])
  {
  }

  lemma SpentElsewhere(completed: seq<bool>, free: seq<nat>, e: nat, x: bool)
    requires Spent(completed, free) && e < |completed| && e !in free
    ensures Spent(completed[e := x], free)
  {
  }

  lemma SpentMore(completed: seq<bool>, free: seq<nat>, s: seq<nat>)
    requires Spent(completed, free) && InRange(s, |completed|) && forall i | 0 <= i < |s| :: completed[s[i]]
    ensures Spent(completed, free + s)
  {
  }

  // ----- the worker -----

  class Worker {
    const next: array<nat>
    const prev: array<nat>
    const target: array<nat>
    const completed: array<bool>
    const copied: array<bool>
    var freeSeq: nat
    var freeSeqEnd: nat
    var ioSeq: nat
    var ioSeqEnd: nat
    var latest: nat
    ghost var free: seq<nat>
    ghost var flight: seq<nat>

    ghost predicate Arrays() {
      && next.Length == prev.Length == target.Length == completed.Length == copied.Length == NR_MAX_PARALLEL_IO
      && next != prev && next != target && prev != target && completed != copied
    }

    /** Both lists are well linked, and the list in flight is sorted by due time. */
    ghost predicate ValidBut(pending: seq<nat>)
      reads this, next, prev, target, completed, copied
    {
      && Arrays() && LinksOk(pending)
      && Sorted(target[..], latest, flight)
      && Settled(completed[..], copied[..], target[..], latest, flight)
      && Spent(completed[..], free)
    }

    ghost predicate LinksOk(pending: seq<nat>)
      reads this, next, prev
    {
      && Linked(next[..], prev[..], pending, free, flight)
      && free != [] && Ends(free, freeSeq, freeSeqEnd) && Ends(flight, ioSeq, ioSeqEnd)
    }

    ghost predicate Valid()
      reads this, next, prev, target, completed, copied
    {
      ValidBut([])
    }

    /** __allocate_work_queue_entry: refuses exactly when a single free entry remains. */
    method Allocate() returns (ok: bool, entry: nat)
      requires Valid()
      modifies this`freeSeq, this`free
      ensures ok <==> |old(free)| > 1
      ensures ok ==> entry == old(free)[0] && free == old(free)[1..] && ValidBut([entry])
      ensures !ok ==> free == old(free) && Valid()
    {
      hide Linked, Sorted, Settled;
      TakeFirst(next[..], prev[..], free, flight);
      entry := freeSeq;
      if next[entry] >= NR_MAX_PARALLEL_IO {
        return false, entry;
      }
      freeSeq := next[entry];
      assert freeSeq < NR_MAX_PARALLEL_IO;  // the source stops here otherwise
      free := free[1..];
      return true, entry;
    }

    /** The scan of __insert_req_sorted, from the tail towards the head. */
    method FindPlace(when: nat, ghost entry: nat) returns (curr: nat, ghost p: nat)
      requires ValidBut([entry]) && ioSeq != NONE
      ensures Stops(target[..], latest, flight, when, p)
      ensures curr == if p == 0 then NONE else flight[p - 1]
      ensures curr == NONE <==> forall i | 0 <= i < |flight| :: Passes(target[..], latest, flight[i], when)
    {
      curr, p := ioSeqEnd, |flight|;
      while curr != NONE
        invariant p <= |flight| && curr == if p == 0 then NONE else flight[p - 1]
        invariant forall i | p <= i < |flight| :: Passes(target[..], latest, flight[i], when)
        decreases p
      {
        if target[curr] <= latest {
          break;
        }
        if target[curr] <= when {
          break;
        }
        curr := prev[curr];
        p := p - 1;
      }
    }

    /** The three cases of linking an entry behind `curr`. */
    method Link(curr: nat, ghost p: nat, entry: nat)
      requires ValidBut([entry]) && flight != [] && p <= |flight| && curr == (if p == 0 then NONE else flight[p - 1])
      requires entry < NR_MAX_PARALLEL_IO && next[entry] == NONE && prev[entry] == NONE
      requires InRange(flight, NR_MAX_PARALLEL_IO)
      modifies this`ioSeq, this`ioSeqEnd, this`flight, next, prev
      ensures flight == PutAt(old(flight), p, entry) && LinksOk([])
    {
      hide Linked, Sorted, Settled;
      ghost var wasNext, wasPrev := next[..], prev[..];
      PutLinked(wasNext, wasPrev, free, flight, p, entry);
      NeighboursOf(wasNext, wasPrev, free, flight, p, entry);
      if curr == NONE {
        prev[ioSeq] := entry;
        next[entry] := ioSeq;
        ioSeq := entry;
      } else if next[curr] == NONE {
        prev[entry] := curr;
        ioSeqEnd := entry;
        next[curr] := entry;
      } else {
        prev[entry] := curr;
        next[entry] := next[curr];
        prev[next[entry]] := entry;
        next[curr] := entry;
      }
      assert next[..] == NextAfter(wasNext, flight, p, entry);
      assert prev[..] == PrevAfter(wasPrev, flight, p, entry);
      flight := PutAt(flight, p, entry);
    }

    /** __insert_req_sorted: behind every request that is due no later, before every other. */
    method InsertSorted(entry: nat, when: nat) returns (ghost p: nat)
      requires ValidBut([entry]) && entry < NR_MAX_PARALLEL_IO && next[entry] == NONE && prev[entry] == NONE
      requires target[entry] == when && !completed[entry]
      modifies this`ioSeq, this`ioSeqEnd, this`flight, next, prev
      ensures Valid() && p <= |old(flight)| && flight == PutAt(old(flight), p, entry)
      ensures forall i | 0 <= i < |old(flight)| ::
                old(flight)[i] < NR_MAX_PARALLEL_IO
                && (i < p <==> Due(target[..], latest, old(flight)[i]) <= Due(target[..], latest, entry))
    {
      hide Linked, Sorted, Settled, Stops, Due;
      NeighboursOf(next[..], prev[..], free, flight, 0, entry);
      if ioSeq == NONE {
        p := 0;
        PutLinked(next[..], prev[..], free, flight, p, entry);
        InsertIntoEmpty(target[..], completed[..], copied[..], latest, entry);
        ioSeq := entry;
        ioSeqEnd := entry;
        flight := PutAt(flight, p, entry);
      } else {
        var curr;
        curr, p := FindPlace(when, entry);
        StopsInside(target[..], latest, flight, when, p);
        InsertKeepsSorted(target[..], latest, flight, when, p, entry);
        InsertKeepsSettled(completed[..], copied[..], target[..], latest, flight, p, entry);
        Link(curr, p, entry);
      }
    }

    /** __enqueue_io_req and schedule_internal_operation: a request that finds no free entry is dropped. */
    method Enqueue(when: nat, internal: bool) returns (ok: bool, ghost entry: nat, ghost p: nat)
      requires Valid()
      modifies this`freeSeq, this`free, this`ioSeq, this`ioSeqEnd, this`flight, next, prev, target, completed, copied
      ensures Valid() && (ok <==> |old(free)| > 1)
      ensures !ok ==> free == old(free) && flight == old(flight) && target[..] == old(target[..])
                      && completed[..] == old(completed[..]) && copied[..] == old(copied[..])
      ensures ok ==> free == old(free)[1..] && entry == old(free)[0]
      ensures ok ==> p <= |old(flight)| && flight == PutAt(old(flight), p, entry)
      ensures ok ==> entry < NR_MAX_PARALLEL_IO && target[..] == old(target[..])[entry := when]
      ensures ok ==> completed[..] == old(completed[..])[entry := false]
      ensures ok ==> copied[..] == old(copied[..])[entry := internal]
      ensures ok ==> entry !in old(flight)
      ensures ok ==> forall i | 0 <= i < |old(flight)| ::
                old(flight)[i] < NR_MAX_PARALLEL_IO
                && (i < p <==> Due(target[..], latest, old(flight)[i]) <= Due(target[..], latest, entry))
    {
      hide Linked, Sorted, Settled, Due;
      p := 0;
      var e;
      ok, e := Allocate();
      entry := e;
      if !ok {
        return;
      }
      PendingIsOff(next[..], prev[..], free, flight, e);
      ClearPending(next[..], prev[..], free, flight, e);
      FillEntry(target[..], completed[..], copied[..], latest, flight, e, when, internal);
      target[e] := when;
      completed[e] := false;
      copied[e] := internal;
      prev[e] := NONE;
      next[e] := NONE;
      assert target[..] == old(target[..])[e := when];
      assert completed[..] == old(completed[..])[e := false] && copied[..] == old(copied[..])[e := internal];
      p := InsertSorted(e, when);
    }

    /** __reclaim_completed_reqs: the longest finished prefix moves to the end of the free list. */
    method Reclaim() returns (ghost k: nat)
      requires Valid()
      modifies this`free, this`freeSeqEnd, this`ioSeq, this`flight, next, prev
      ensures Valid() && FinishedPrefix(completed[..], copied[..], target[..], latest, old(flight), k)
      ensures free == old(free) + old(flight)[..k] && flight == old(flight)[k..]
    {
      hide Linked, Sorted, Settled;
      FreeInRange(next[..], prev[..], free, flight);
      var first, last;
      first, last, k := FindFinished();
      DropKeeps(completed[..], copied[..], target[..], latest, flight, k);
      if last != NONE {
        MoveToFree(first, last, k);
      } else {
        assert flight[..0] == [] && flight[0..] == flight && free + [] == free;
      }
    }

    /** The scan of the reclaimer. */
    method FindFinished() returns (first: nat, last: nat, ghost k: nat)
      requires Valid()
      ensures FinishedPrefix(completed[..], copied[..], target[..], latest, flight, k)
      ensures first == ioSeq && last == if k == 0 then NONE else flight[k - 1]
    {
      hide Sorted, Settled;
      first, last, k := ioSeq, NONE, 0;
      var curr := first;
      while curr != NONE
        invariant k <= |flight| && curr == (if k < |flight| then flight[k] else NONE)
        invariant last == if k == 0 then NONE else flight[k - 1]
        invariant forall i | 0 <= i < k :: Finished(completed[..], copied[..], target[..], latest, flight[i])
        decreases |flight| - k
      {
        if completed[curr] && copied[curr] && target[curr] <= latest {
          last := curr;
          curr := next[curr];
          k := k + 1;
        } else {
          break;
        }
      }
    }

    method MoveToFree(first: nat, last: nat, ghost k: nat)
      requires Valid() && 0 < k <= |flight| && first == flight[0] && last == flight[k - 1]
      modifies this`free, this`freeSeqEnd, this`ioSeq, this`flight, next, prev
      ensures Arrays() && LinksOk([]) && free == old(free) + old(flight)[..k] && flight == old(flight)[k..]
    {
      hide Linked, Sorted, Settled;
      FreeInRange(next[..], prev[..], free, flight);
      FlightLinks(next[..], prev[..], free, flight, k - 1);
      ReclaimLinks(next[..], prev[..], free, flight, k);
      ghost var wasNext, wasPrev := next[..], prev[..];
      ioSeq := next[last];
      if next[last] != NONE {
        prev[next[last]] := NONE;
      }
      next[last] := NONE;
      prev[first] := freeSeqEnd;
      next[freeSeqEnd] := first;
      freeSeqEnd := last;
      assert next[..] == NextReclaimed(wasNext, free, flight, k);
      assert prev[..] == PrevReclaimed(wasPrev, free, flight, k);
      free, flight := free + flight[..k], flight[k..];
    }

    /** Where the worker may stand: nowhere, on a request in flight, or on one reclaimed meanwhile. */
    ghost predicate Stands(curr: nat)
      requires Arrays()
      reads this, completed
    {
      || curr == NONE || curr in flight
      || (curr in free && curr < NR_MAX_PARALLEL_IO && completed[curr])
    }

    /**
     The worker's visit to one entry at time `now`: copy if not yet copied, complete if due.  An entry reclaimed
     since the last visit is left alone, and the worker goes on along the free list.
     */
    method Visit(curr: nat, now: nat) returns (following: nat)
      requires Valid() && curr != NONE && Stands(curr) && latest <= now
      modifies this`latest, completed, copied
      ensures Valid() && latest == now && curr < NR_MAX_PARALLEL_IO && Stands(following)
      ensures forall i | 0 <= i < |flight| && flight[i] == curr :: following == Following(flight, i)
      ensures forall i | 0 <= i < |free| && free[i] == curr :: following == Following(free, i)
      ensures curr in free ==> copied[..] == old(copied[..]) && completed[..] == old(completed[..])
      ensures curr in flight ==> copied[..] == old(copied[..])[curr := true]
      ensures curr in flight ==>
                completed[..] == old(completed[..])[curr := old(completed[..])[curr] || target[curr] <= now]
    {
      hide Linked, Sorted, Settled, Spent;
      SortedLater(target[..], latest, flight, now);
      VisitLinks(curr);
      latest := now;
      following := next[curr];
      if completed[curr] {
        SettledLater(completed[..], copied[..], target[..], old(latest), flight, now);
        return;
      }
      ghost var i :| 0 <= i < |flight| && flight[i] == curr;
      ghost var wasCompleted, wasCopied := completed[..], copied[..];
      SpentElsewhere(completed[..], free, curr, target[curr] <= now);
      VisitSettles(completed[..], copied[..], target[..], old(latest), flight, i, now);
      if !copied[curr] {
        copied[curr] := true;
      }
      if target[curr] <= now {
        completed[curr] := true;
      }
      assert completed[..] == wasCompleted[curr := target[curr] <= now];
      assert copied[..] == wasCopied[curr := true];
    }

    lemma VisitLinks(curr: nat)
      requires Valid() && curr != NONE && Stands(curr)
      ensures curr < NR_MAX_PARALLEL_IO && Stands(next[curr]) && (curr in flight) != (curr in free)
      ensures forall i | 0 <= i < |flight| && flight[i] == curr :: next[curr] == Following(flight, i)
      ensures forall i | 0 <= i < |free| && free[i] == curr :: next[curr] == Following(free, i)
      ensures completed[curr] && curr in flight ==>
                copied[..] == copied[..][curr := true] && completed[..] == completed[..][curr := true]
    {
      hide Linked, Sorted, Spent;
      FreeInRange(next[..], prev[..], free, flight);
      if curr in flight {
        var i :| 0 <= i < |flight| && flight[i] == curr;
        FlightLinks(next[..], prev[..], free, flight, i);
      } else {
        var i :| 0 <= i < |free| && free[i] == curr;
        FreeLinks(next[..], prev[..], free, flight, completed[..], i);
      }
    }

    /** One pass of the worker over the list in flight; `now[i]` is the time it reads at the `i`-th entry. */
    method WorkerPass(now: seq<nat>)
      requires Valid() && |now| >= |flight| && (now != [] ==> latest <= now[0])
      requires forall i, j | 0 <= i < j < |now| :: now[i] <= now[j]
      modifies this`latest, completed, copied
      ensures Valid() && Visited(old(completed[..]), completed[..], copied[..], target[..], flight, now, |flight|)
    {
      hide Linked, Sorted, Settled, Visited;
      FreeInRange(next[..], prev[..], free, flight);
      VisitedStart(completed[..], copied[..], target[..], flight, now);
      var curr, i := ioSeq, 0;
      while curr != NONE
        invariant i <= |flight| && curr == (if i < |flight| then flight[i] else NONE)
        invariant Valid() && latest == if i == 0 then old(latest) else now[i - 1]
        invariant Visited(old(completed[..]), completed[..], copied[..], target[..], flight, now, i)
        decreases |flight| - i
      {
        VisitedStep(old(completed[..]), completed[..], copied[..], target[..], flight, now, i);
        assert flight[i] == curr;
        curr := Visit(curr, now[i]);
        i := i + 1;
      }
    }

    /** NVMEV_IO_WORKER_INIT: every entry is free. */
    constructor ()
      ensures Valid() && flight == [] && |free| == NR_MAX_PARALLEL_IO && free[0] == 0 && latest == 0
      ensures fresh(next) && fresh(prev) && fresh(target) && fresh(completed) && fresh(copied)
    {
      next := new nat[NR_MAX_PARALLEL_IO];
      prev := new nat[NR_MAX_PARALLEL_IO];
      target := new nat[NR_MAX_PARALLEL_IO];
      completed := new bool[NR_MAX_PARALLEL_IO];
      copied := new bool[NR_MAX_PARALLEL_IO];
      freeSeq, freeSeqEnd, ioSeq, ioSeqEnd, latest := 0, NR_MAX_PARALLEL_IO - 1, NONE, NONE, 0;
      free, flight := seq(NR_MAX_PARALLEL_IO, i => i), [];
      new;
      LinkAll();
      AllFree(next[..], prev[..], free);
    }

    method LinkAll()
      requires Arrays()
      modifies next, prev, completed, copied
      ensures forall i | 0 <= i < NR_MAX_PARALLEL_IO :: next[i] == if i + 1 < NR_MAX_PARALLEL_IO then i + 1 else NONE
      ensures forall i | 0 <= i < NR_MAX_PARALLEL_IO :: !completed[i]
    {
      for i := 0 to NR_MAX_PARALLEL_IO
        invariant forall j | 0 <= j < i :: next[j] == j + 1 && !completed[j]
      {
        next[i] := i + 1;
        prev[i] := if i == 0 then NONE else i - 1;
        completed[i] := false;
        copied[i] := false;
      }
      next[NR_MAX_PARALLEL_IO - 1] := NONE;
    }
  }

  /**
   The first `n` requests have been visited at their times: copied, and completed if due; the others are as
   before.
   */
  ghost predicate Visited(was: seq<bool>, completed: seq<bool>, copied: seq<bool>, target: seq<nat>, s: seq<nat>,
      now: seq<nat>, n: nat) {
    && |was| == |completed| == |copied| == |target| && InRange(s, |target|) && n <= |s| <= |now|
    && (forall i | 0 <= i < n :: copied[s[i]] && completed[s[i]] == (was[s[i]] || target[s[i]] <= now[i]))
    && (forall i | n <= i < |s| :: completed[s[i]] == was[s[i]])
  }

  lemma VisitedStart(completed: seq<bool>, copied: seq<bool>, target: seq<nat>, s: seq<nat>, now: seq<nat>)
    requires |completed| == |copied| == |target| && InRange(s, |target|) && |s| <= |now|
    ensures Visited(completed, completed, copied, target, s, now, 0)
  {
  }

  lemma VisitedStep(was: seq<bool>, completed: seq<bool>, copied: seq<bool>, target: seq<nat>, s: seq<nat>,
      now: seq<nat>, n: nat)
    requires Visited(was, completed, copied, target, s, now, n) && n < |s|
    requires forall i, j | 0 <= i < j < |s| :: s[i] != s[j]
    ensures var e := s[n];
            e < |completed| == |copied|
            && Visited(was, completed[e := completed[e] || target[e] <= now[n]], copied[e := true],
                       target, s, now, n + 1)
  {
  }

  /** Once a pass has seen every request due, the reclaimer frees them all. */
  lemma PassThenReclaimEmpties(was: seq<bool>, completed: seq<bool>, copied: seq<bool>, target: seq<nat>, latest: nat,
                               s: seq<nat>, now: seq<nat>, k: nat)
    requires Visited(was, completed, copied, target, s, now, |s|) && Settled(completed, copied, target, latest, s)
    requires forall i | 0 <= i < |s| :: target[s[i]] <= now[i]
    requires FinishedPrefix(completed, copied, target, latest, s, k)
    ensures k == |s|
  {
    PrefixIsCompleted(completed, copied, target, latest, s, k);
    assert forall i | 0 <= i < |s| :: completed[s[i]];
  }

  lemma AllFree(next: seq<nat>, prev: seq<nat>, free: seq<nat>)
    requires |next| == |prev| == |free| == NR_MAX_PARALLEL_IO
    requires forall i | 0 <= i < NR_MAX_PARALLEL_IO ::
               free[i] == i && next[i] == if i + 1 < NR_MAX_PARALLEL_IO then i + 1 else NONE
    ensures Linked(next, prev, [], free, [])
  {
    InOrder(next, free);
    InOrderParted(free);
    assert [] + free == free;
  }

  lemma InOrderParted(free: seq<nat>)
    requires forall i | 0 <= i < |free| :: free[i] == i
    ensures Parted(|free|, free, [])
  {
    assert free + [] == free;
  }

  lemma InOrder(next: seq<nat>, free: seq<nat>)
    requires 0 < |next| == |free|
    requires forall i | 0 <= i < |free| :: free[i] == i && next[i] == if i + 1 < |free| then i + 1 else NONE
    ensures Chain(next, free)
  {
    forall i | 0 <= i < |free|
      ensures LinksNext(next, free, i)
    {
    }
    ChainFrom(next, free);
  }

  lemma VisitSettles(completed: seq<bool>, copied: seq<bool>, target: seq<nat>, latest: nat, s: seq<nat>, i: nat,
      now: nat)
    requires Settled(completed, copied, target, latest, s) && i < |s| && latest <= now
    ensures var e := s[i];
            e < |target| && Settled(completed[e := completed[e] || target[e] <= now], copied[e := true], target, now, s)
            && (completed[e] ==> copied[e])
  {
  }

  /** Setting the fields of an entry that is not in flight. */
  lemma FillEntry(target: seq<nat>, completed: seq<bool>, copied: seq<bool>, latest: nat, s: seq<nat>,
                  entry: nat, when: nat, internal: bool)
    requires Sorted(target, latest, s) && Settled(completed, copied, target, latest, s) && entry < |target|
          && entry !in s
    ensures Sorted(target[entry := when], latest, s)
    ensures Settled(completed[entry := false], copied[entry := internal], target[entry := when], latest, s)
  {
    assert forall i | 0 <= i < |s| :: s[i] != entry;
  }

  /** The first `k` entries are finished and the next one is not. */
  ghost predicate FinishedPrefix(completed: seq<bool>, copied: seq<bool>, target: seq<nat>, latest: nat,
      s: seq<nat>, k: nat) {
    && k <= |s| && InRange(s, |target|) && |completed| == |copied| == |target|
    && (forall i | 0 <= i < k :: Finished(completed, copied, target, latest, s[i]))
    && (k < |s| ==> !Finished(completed, copied, target, latest, s[k]))
  }

  /** The reclaimer stops exactly at the first request that is not completed. */
  lemma PrefixIsCompleted(completed: seq<bool>, copied: seq<bool>, target: seq<nat>, latest: nat, s: seq<nat>, k: nat)
    requires Settled(completed, copied, target, latest, s) && k <= |s|
    ensures FinishedPrefix(completed, copied, target, latest, s, k)
            <==> (forall i | 0 <= i < k :: completed[s[i]]) && (k < |s| ==> !completed[s[k]])
  {
    assert forall i | 0 <= i < |s| :: Finished(completed, copied, target, latest, s[i]) <==> completed[s[i]];
  }

  lemma DropKeeps(completed: seq<bool>, copied: seq<bool>, target: seq<nat>, latest: nat, s: seq<nat>, k: nat)
    requires Sorted(target, latest, s) && Settled(completed, copied, target, latest, s) && k <= |s|
    ensures Sorted(target, latest, s[k..]) && Settled(completed, copied, target, latest, s[k..])
  {
  }

  lemma FlightLinks(next: seq<nat>, prev: seq<nat>, free: seq<nat>, flight: seq<nat>, i: nat)
    requires Linked(next, prev, [], free, flight) && i < |flight|
    ensures flight[i] < NR_MAX_PARALLEL_IO == |next|
    ensures next[flight[i]] == if i + 1 < |flight| then flight[i + 1] else NONE
  {
  }

  /** The free list links a reclaimed entry to another one, or ends. */
  lemma FreeLinks(next: seq<nat>, prev: seq<nat>, free: seq<nat>, flight: seq<nat>, completed: seq<bool>, i: nat)
    requires Linked(next, prev, [], free, flight) && Spent(completed, free) && i < |free|
    requires free[i] < |completed| && completed[free[i]]
    ensures free[i] < NR_MAX_PARALLEL_IO == |next| && next[free[i]] == Following(free, i)
    ensures i + 1 < |free| ==> free[i + 1] < |completed| && completed[free[i + 1]]
  {
  }

  lemma SettledLater(completed: seq<bool>, copied: seq<bool>, target: seq<nat>, latest: nat, s: seq<nat>, later: nat)
    requires Settled(completed, copied, target, latest, s) && latest <= later
    ensures Settled(completed, copied, target, later, s)
  {
  }

  lemma FreeInRange(next: seq<nat>, prev: seq<nat>, free: seq<nat>, flight: seq<nat>)
    requires Linked(next, prev, [], free, flight)
    ensures InRange(free, NR_MAX_PARALLEL_IO) && InRange(flight, NR_MAX_PARALLEL_IO)
          && InRange(free + flight, NR_MAX_PARALLEL_IO)
    ensures |next| == |prev| == NR_MAX_PARALLEL_IO
    ensures forall i, j | 0 <= i < |free| && 0 <= j < |flight| :: free[i] != flight[j]
    ensures forall i, j | 0 <= i < j < |flight| :: flight[i] != flight[j]
    ensures forall i, j | 0 <= i < j < |free| :: free[i] != free[j]
  {
    hide Chain, BackChain;
    assert [] + free == free;
    PartedApart(NR_MAX_PARALLEL_IO, free, flight);
  }

  lemma PartedApart(n: nat, free: seq<nat>, flight: seq<nat>)
    requires Parted(n, free, flight)
    ensures InRange(free, n) && InRange(flight, n)
    ensures forall i, j | 0 <= i < |free| && 0 <= j < |flight| :: free[i] != flight[j]
    ensures forall i, j | 0 <= i < j < |flight| :: flight[i] != flight[j]
    ensures forall i, j | 0 <= i < j < |free| :: free[i] != free[j]
  {
    var s := free + flight;
    assert forall i | 0 <= i < |free| :: s[i] == free[i];
    assert forall i | 0 <= i < |flight| :: s[|free| + i] == flight[i];
  }

  lemma StopsInside(target: seq<nat>, latest: nat, s: seq<nat>, when: nat, p: nat)
    requires Stops(target, latest, s, when, p)
    ensures p <= |s| && InRange(s, |target|)
  {
  }

  lemma InsertIntoEmpty(target: seq<nat>, completed: seq<bool>, copied: seq<bool>, latest: nat, entry: nat)
    requires entry < |target| == |completed| == |copied| && !completed[entry]
    ensures PutAt([], 0, entry) == [entry]
    ensures Sorted(target, latest, [entry]) && Settled(completed, copied, target, latest, [entry])
  {
  }

  lemma InsertKeepsSettled(completed: seq<bool>, copied: seq<bool>, target: seq<nat>, latest: nat, s: seq<nat>,
      p: nat, entry: nat)
    requires Settled(completed, copied, target, latest, s) && p <= |s| && entry < |target| && !completed[entry]
    ensures Settled(completed, copied, target, latest, PutAt(s, p, entry))
  {
  }

  /** What the links of a list say around a position. */
  lemma NeighboursOf(next: seq<nat>, prev: seq<nat>, free: seq<nat>, flight: seq<nat>, p: nat, entry: nat)
    requires Linked(next, prev, [entry], free, flight) && p <= |flight|
    ensures InRange(flight, NR_MAX_PARALLEL_IO) && |next| == |prev| == NR_MAX_PARALLEL_IO
    ensures p > 0 ==> next[flight[p - 1]] == if p < |flight| then flight[p] else NONE
    ensures entry !in flight
  {
    PendingIsOff(next, prev, free, flight, entry);
  }

  /** A queue in flight that is not in target order: a late request goes behind one that is already due. */
  method LateRequestGoesBehind() returns (w: Worker)
    ensures w.Valid() && InRange(w.flight, NR_MAX_PARALLEL_IO) && !SortedByTarget(w.target[..], w.flight)
  {
    hide Linked, Sorted, Settled;
    w := new Worker();
    var ok;
    ghost var first, second, p;
    ok, first, p := w.Enqueue(10, false);
    assert w.flight == [first];
    assert w.flight[0] == first;
    var _ := w.Visit(w.ioSeq, 20);
    ok, second, p := w.Enqueue(5, false);
    assert w.flight == [first, second];
    assert w.target[..][w.flight[0]] == 10 && w.target[..][w.flight[1]] == 5;
  }
}
