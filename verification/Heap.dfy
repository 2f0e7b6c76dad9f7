/**
 The order of a binary min-heap kept in slots 1..n-1 of a sequence, and what sifting an element does to it
 (pqueue.c).
 */
module Heap {
  import opened Sets

  /** Slots in use hold elements that have a priority. */
  ghost predicate Ranked(d: seq<nat>, pri: seq<nat>, n: nat) {
    n <= |d| && forall j | 1 <= j < n :: d[j] < |pri|
  }

  /** No element outranks its parent. */
  ghost predicate Ordered(d: seq<nat>, pri: seq<nat>, n: nat)
    requires Ranked(d, pri, n)
  {
    forall j | 2 <= j < n :: pri[d[j / 2]] <= pri[d[j]]
  }

  /** Ordered, except that the element in slot `i` may outrank its parent. */
  ghost predicate OrderedButUp(d: seq<nat>, pri: seq<nat>, n: nat, i: nat)
    requires Ranked(d, pri, n)
  {
    && (forall j | 2 <= j < n && j != i :: pri[d[j / 2]] <= pri[d[j]])
    && (forall j | 2 <= j < n && j / 2 == i && i >= 2 :: pri[d[i / 2]] <= pri[d[j]])
  }

  /** Ordered, except that the element in slot `i` may be outranked by its children. */
  ghost predicate OrderedButDown(d: seq<nat>, pri: seq<nat>, n: nat, i: nat)
    requires Ranked(d, pri, n)
  {
    && (forall j | 2 <= j < n && j / 2 != i :: pri[d[j / 2]] <= pri[d[j]])
    && (forall j | 2 <= j < n && j / 2 == i && i >= 2 :: pri[d[i / 2]] <= pri[d[j]])
  }

  /** The elements in use, with their multiplicity. */
  ghost function Live(d: seq<nat>, n: nat): multiset<nat>
    requires 1 <= n <= |d|
  {
    multiset(d[1..n])
  }

  function Swap(d: seq<nat>, i: nat, j: nat): seq<nat>
    requires i < |d| && j < |d|
  {
    d[i := d[j]][j := d[i]]
  }

  lemma SwapLive(d: seq<nat>, n: nat, i: nat, j: nat)
    requires 1 <= i < n <= |d| && 1 <= j < n
    ensures Live(Swap(d, i, j), n) == Live(d, n)
  {
    var s := d[1..n];
    assert Swap(d, i, j)[1..n] == s[i - 1 := s[j - 1]][j - 1 := s[i - 1]];
  }

  /** Sift the element in slot `i` towards the root while it outranks its parent. */
  ghost function Up(d: seq<nat>, pri: seq<nat>, n: nat, i: nat): seq<nat>
    requires Ranked(d, pri, n) && 1 <= i < n
    decreases i
  {
    if i > 1 && pri[d[i / 2]] > pri[d[i]] then Up(Swap(d, i, i / 2), pri, n, i / 2) else d
  }

  /** The child to compare with; 0 when there is none.  Of two children the right one wins only if it is smaller. */
  function MaxChild(d: seq<nat>, pri: seq<nat>, n: nat, i: nat): nat
    requires Ranked(d, pri, n)
    requires 1 <= i
  {
    if 2 * i >= n then 0
    else if 2 * i + 1 < n && pri[d[2 * i]] > pri[d[2 * i + 1]] then 2 * i + 1
    else 2 * i
  }

  /** Sift the element in slot `i` towards the leaves while a child outranks it. */
  ghost function Down(d: seq<nat>, pri: seq<nat>, n: nat, i: nat): seq<nat>
    requires Ranked(d, pri, n) && 1 <= i
    decreases n - i
  {
    var c := MaxChild(d, pri, n, i);
    if c != 0 && pri[d[i]] > pri[d[c]] then Down(Swap(d, i, c), pri, n, c) else d
  }

  /** Sifting up repairs the order, keeps the elements, and touches only slots in use. */
  lemma {:induction false} UpRepairs(d: seq<nat>, pri: seq<nat>, n: nat, i: nat)
    requires Ranked(d, pri, n) && 1 <= i < n && OrderedButUp(d, pri, n, i)
    ensures var r := Up(d, pri, n, i);
            |r| == |d| && Ranked(r, pri, n) && Ordered(r, pri, n) && Live(r, n) == Live(d, n)
    decreases i
  {
    if i > 1 && pri[d[i / 2]] > pri[d[i]] {
      var p := i / 2;
      var e := Swap(d, i, p);
      SwapLive(d, n, i, p);
      assert OrderedButUp(e, pri, n, p) by {
        SwapUp(d, pri, n, i);
      }
      UpRepairs(e, pri, n, p);
    }
  }

  lemma SwapUp(d: seq<nat>, pri: seq<nat>, n: nat, i: nat)
    requires Ranked(d, pri, n) && 2 <= i < n && OrderedButUp(d, pri, n, i) && pri[d[i / 2]] > pri[d[i]]
    ensures var e := Swap(d, i, i / 2); Ranked(e, pri, n) && OrderedButUp(e, pri, n, i / 2)
  {
    var p := i / 2;
    var e := Swap(d, i, p);
    forall j | 2 <= j < n && j != p
      ensures pri[e[j / 2]] <= pri[e[j]]
    {
      assert j != i ==> pri[d[j / 2]] <= pri[d[j]];
      assert j / 2 == p ==> j == i || pri[d[p]] <= pri[d[j]];
      assert j / 2 == i ==> pri[d[p]] <= pri[d[j]];
    }
    forall j | 2 <= j < n && j / 2 == p && p >= 2
      ensures pri[e[p / 2]] <= pri[e[j]]
    {
      assert pri[d[p / 2]] <= pri[d[p]];
      assert j != i ==> pri[d[p]] <= pri[d[j]];
    }
  }

  /** Sifting down repairs the order, keeps the elements, and touches only slots in use. */
  lemma {:induction false} DownRepairs(d: seq<nat>, pri: seq<nat>, n: nat, i: nat)
    requires Ranked(d, pri, n) && 1 <= i && 1 <= n && OrderedButDown(d, pri, n, i)
    ensures var r := Down(d, pri, n, i);
            |r| == |d| && Ranked(r, pri, n) && Ordered(r, pri, n) && Live(r, n) == Live(d, n)
    decreases n - i
  {
    var c := MaxChild(d, pri, n, i);
    if c != 0 && pri[d[i]] > pri[d[c]] {
      var e := Swap(d, i, c);
      SwapLive(d, n, i, c);
      assert OrderedButDown(e, pri, n, c) by {
        SwapDown(d, pri, n, i);
      }
      DownRepairs(e, pri, n, c);
    } else {
      forall j | 2 <= j < n
        ensures pri[d[j / 2]] <= pri[d[j]]
      {
        if j / 2 == i {
          assert j == 2 * i || j == 2 * i + 1;
        }
      }
    }
  }

  lemma SwapDown(d: seq<nat>, pri: seq<nat>, n: nat, i: nat)
    requires Ranked(d, pri, n) && 1 <= i && OrderedButDown(d, pri, n, i)
    requires var c := MaxChild(d, pri, n, i); c != 0 && pri[d[i]] > pri[d[c]]
    ensures var c := MaxChild(d, pri, n, i);
            var e := Swap(d, i, c); Ranked(e, pri, n) && OrderedButDown(e, pri, n, c)
  {
    var c := MaxChild(d, pri, n, i);
    var e := Swap(d, i, c);
    forall j | 2 <= j < n && j / 2 != c
      ensures pri[e[j / 2]] <= pri[e[j]]
    {
      if j / 2 == i {
        assert j == 2 * i || j == 2 * i + 1;
      } else {
        assert pri[d[j / 2]] <= pri[d[j]];
        if j == i {
          assert c / 2 == i;
          assert pri[d[i / 2]] <= pri[d[c]];
        }
      }
    }
    forall j | 2 <= j < n && j / 2 == c && c >= 2
      ensures pri[e[c / 2]] <= pri[e[j]]
    {
      assert pri[d[c]] <= pri[d[j]];
    }
  }

  /** Sifting up touches no slot beyond those in use. */
  lemma {:induction false} UpKeepsRest(d: seq<nat>, pri: seq<nat>, n: nat, i: nat)
    requires Ranked(d, pri, n) && 1 <= i < n
    ensures var r := Up(d, pri, n, i); |r| == |d| && forall j | n <= j < |d| :: r[j] == d[j]
    decreases i
  {
    if i > 1 && pri[d[i / 2]] > pri[d[i]] {
      UpKeepsRest(Swap(d, i, i / 2), pri, n, i / 2);
    }
  }

  /** Sifting down touches no slot beyond those in use. */
  lemma {:induction false} DownKeepsRest(d: seq<nat>, pri: seq<nat>, n: nat, i: nat)
    requires Ranked(d, pri, n) && 1 <= i < n
    ensures var r := Down(d, pri, n, i); |r| == |d| && forall j | n <= j < |d| :: r[j] == d[j]
    decreases n - i
  {
    var c := MaxChild(d, pri, n, i);
    if c != 0 && pri[d[i]] > pri[d[c]] {
      DownKeepsRest(Swap(d, i, c), pri, n, c);
    }
  }

  /** The root of an ordered heap has the least priority. */
  lemma {:induction false} RootIsLeast(d: seq<nat>, pri: seq<nat>, n: nat, j: nat)
    requires Ranked(d, pri, n) && Ordered(d, pri, n) && 1 <= j < n
    ensures pri[d[1]] <= pri[d[j]]
    decreases j
  {
    if j > 1 {
      RootIsLeast(d, pri, n, j / 2);
      assert pri[d[j / 2]] <= pri[d[j]];
    }
  }

  // ----- the debugging check -----

  /** subtree_is_valid */
  predicate SubtreeIsValid(d: seq<nat>, pri: seq<nat>, n: nat, i: nat)
    requires Ranked(d, pri, n) && 1 <= i
    decreases n - i
  {
    && (2 * i < n ==> !(pri[d[i]] > pri[d[2 * i]]) && SubtreeIsValid(d, pri, n, 2 * i))
    && (2 * i + 1 < n ==> !(pri[d[i]] > pri[d[2 * i + 1]]) && SubtreeIsValid(d, pri, n, 2 * i + 1))
  }

  /** Slot `j` lies in the subtree rooted at slot `i`. */
  ghost predicate Below(i: nat, j: nat) {
    j == i || (j > i && Below(i, j / 2))
  }

  lemma {:induction false} EverySlotBelowRoot(j: nat)
    requires j >= 1
    ensures Below(1, j)
  {
    if j > 1 {
      EverySlotBelowRoot(j / 2);
    }
  }

  lemma {:induction false} ChildOnTheWay(i: nat, j: nat) returns (c: nat)
    requires Below(i, j) && j > i >= 1
    ensures c / 2 == i && (c == 2 * i || c == 2 * i + 1) && c <= j && Below(c, j)
    decreases j
  {
    if j / 2 == i {
      c := j;
    } else {
      c := ChildOnTheWay(i, j / 2);
    }
  }

  lemma {:induction false} ChildIsBelow(i: nat, c: nat, j: nat)
    requires Below(c, j) && c / 2 == i && c > i
    ensures Below(i, j)
    decreases j
  {
    if j != c {
      ChildIsBelow(i, c, j / 2);
    }
  }

  /** The recursive check accepts a subtree exactly when every edge inside it is in order. */
  lemma {:induction false} SubtreeCheck(d: seq<nat>, pri: seq<nat>, n: nat, i: nat)
    requires Ranked(d, pri, n) && 1 <= i
    ensures SubtreeIsValid(d, pri, n, i) <==>
            forall j | i < j < n && Below(i, j) :: pri[d[j / 2]] <= pri[d[j]]
    decreases n - i
  {
    if 2 * i < n { SubtreeCheck(d, pri, n, 2 * i); }
    if 2 * i + 1 < n { SubtreeCheck(d, pri, n, 2 * i + 1); }
    if SubtreeIsValid(d, pri, n, i) {
      forall j | i < j < n && Below(i, j)
        ensures pri[d[j / 2]] <= pri[d[j]]
      {
        var c := ChildOnTheWay(i, j);
        if j == c {
        } else {
          assert SubtreeIsValid(d, pri, n, c);
        }
      }
    } else {
      var c :| (c == 2 * i || c == 2 * i + 1) && c < n && (pri[d[i]] > pri[d[c]] || !SubtreeIsValid(d, pri, n, c));
      if pri[d[i]] > pri[d[c]] {
        assert Below(i, c / 2) && Below(i, c);
        assert i < c < n && Below(i, c) && pri[d[c / 2]] > pri[d[c]];
      } else {
        var j :| c < j < n && Below(c, j) && pri[d[j / 2]] > pri[d[j]];
        ChildIsBelow(i, c, j);
        assert i < j < n && Below(i, j) && pri[d[j / 2]] > pri[d[j]];
      }
    }
  }

  /** pqueue_is_valid returns 1 exactly when heap order holds everywhere. */
  lemma IsValidExactlyWhenOrdered(d: seq<nat>, pri: seq<nat>, n: nat)
    requires Ranked(d, pri, n)
    ensures SubtreeIsValid(d, pri, n, 1) <==> Ordered(d, pri, n)
  {
    SubtreeCheck(d, pri, n, 1);
    forall j | 2 <= j < n
      ensures Below(1, j)
    {
      EverySlotBelowRoot(j);
    }
  }

  // ----- elements as a set -----

  lemma {:induction false} DistinctCount(s: seq<nat>, x: nat)
    requires Distinct(s)
    ensures multiset(s)[x] <= 1
  {
    if s != [] {
      var t := s[1..];
      assert s == [s[0]] + t;
      DistinctCount(t, x);
      if x == s[0] {
        assert x !in t;
      }
    }
  }

  ghost function Elems(d: seq<nat>, n: nat): set<nat>
    requires 1 <= n <= |d|
  {
    Of(d[1..n])
  }

  lemma ElemsOfLive(d: seq<nat>, n: nat)
    requires 1 <= n <= |d|
    ensures forall x: nat :: x in Elems(d, n) <==> x in Live(d, n)
    ensures forall x: nat :: x in Elems(d, n) <==> exists i :: 1 <= i < n && d[i] == x
  {
    forall x: nat
      ensures x in Elems(d, n) <==> exists i :: 1 <= i < n && d[i] == x
    {
      if x in d[1..n] {
        var k :| 0 <= k < n - 1 && d[1..n][k] == x;
        assert d[k + 1] == x;
      }
      if i :| 1 <= i < n && d[i] == x {
        assert d[1..n][i - 1] == x;
      }
    }
  }

  // ----- positions -----

  /** Every element in use knows its slot, except possibly the one being moved, which is in slot `i`. */
  ghost predicate Held(d: seq<nat>, pos: seq<nat>, n: nat, i: nat) {
    && 1 <= i < n <= |d|
    && (forall j | 1 <= j < n :: d[j] < |pos| && (j != i ==> pos[d[j]] == j && d[j] != d[i]))
  }

  ghost predicate SameOutside(before: seq<nat>, after: seq<nat>, elems: set<nat>) {
    |after| == |before| && forall x: nat | x < |before| && x !in elems :: after[x] == before[x]
  }

  lemma HeldMoves(d: seq<nat>, pos: seq<nat>, n: nat, i: nat, j: nat)
    requires Held(d, pos, n, i) && 1 <= j < n && j != i
    ensures d[j] < |pos| && Held(Swap(d, i, j), pos[d[j] := i], n, j)
    ensures d[j] in Elems(d, n) && Elems(Swap(d, i, j), n) == Elems(d, n)
  {
    SwapLive(d, n, i, j);
    ElemsOfLive(d, n);
    ElemsOfLive(Swap(d, i, j), n);
  }

  lemma HeldLands(d: seq<nat>, pos: seq<nat>, n: nat, i: nat)
    requires Held(d, pos, n, i)
    ensures forall j | 1 <= j < n :: d[j] < |pos| && pos[d[i] := i][d[j]] == j
    ensures d[i] in Elems(d, n)
  {
    ElemsOfLive(d, n);
  }

  /**
   The state of a sift: `full` is the slots with the moving element in the hole at slot `i`, `start` the
   positions before.
   */
  ghost predicate Sifting(full: seq<nat>, pri: seq<nat>, start: seq<nat>, pos: seq<nat>, n: nat, i: nat,
      elems: set<nat>) {
    Ranked(full, pri, n) && Held(full, pos, n, i) && Elems(full, n) == elems && SameOutside(start, pos, elems)
  }

  lemma SiftStarts(full: seq<nat>, pri: seq<nat>, pos: seq<nat>, n: nat, i: nat)
    requires Ranked(full, pri, n) && Held(full, pos, n, i)
    ensures Sifting(full, pri, pos, pos, n, i, Elems(full, n))
  {
  }

  lemma UpEnds(d: seq<nat>, pri: seq<nat>, n: nat, i: nat)
    requires Ranked(d, pri, n) && 1 <= i < n && (i > 1 ==> pri[d[i / 2]] <= pri[d[i]])
    ensures Up(d, pri, n, i) == d
  {
  }

  lemma DownEnds(d: seq<nat>, pri: seq<nat>, n: nat, i: nat)
    requires Ranked(d, pri, n) && 1 <= i < n
    requires var c := MaxChild(d, pri, n, i); c != 0 ==> pri[d[i]] <= pri[d[c]]
    ensures Down(d, pri, n, i) == d
  {
  }

  lemma SiftMoves(full: seq<nat>, pri: seq<nat>, start: seq<nat>, pos: seq<nat>, n: nat, i: nat, elems: set<nat>,
      j: nat)
    requires Sifting(full, pri, start, pos, n, i, elems) && 1 <= j < n && j != i
    ensures full[j] < |pos| && Sifting(Swap(full, i, j), pri, start, pos[full[j] := i], n, j, elems)
  {
    HeldMoves(full, pos, n, i, j);
  }

  lemma SiftLands(full: seq<nat>, pri: seq<nat>, start: seq<nat>, pos: seq<nat>, n: nat, i: nat, elems: set<nat>)
    requires Sifting(full, pri, start, pos, n, i, elems)
    ensures forall j | 1 <= j < n :: full[j] < |pos| && pos[full[i] := i][full[j]] == j
    ensures SameOutside(start, pos[full[i] := i], elems)
  {
    HeldLands(full, pos, n, i);
  }

  /** One round of bubble_up. */
  lemma UpRound(full: seq<nat>, pri: seq<nat>, start: seq<nat>, pos: seq<nat>, n: nat, i: nat, elems: set<nat>)
    requires Sifting(full, pri, start, pos, n, i, elems) && i > 1 && pri[full[i / 2]] > pri[full[i]]
    ensures var c := i / 2;
            var e, h := Swap(full, i, c), full[i := full[c]];
            && 1 <= c < i && full[c] < |pos| && e == h[c := full[i]]
            && Sifting(e, pri, start, pos[full[c] := i], n, c, elems)
            && Up(e, pri, n, c) == Up(full, pri, n, i)
  {
    SiftMoves(full, pri, start, pos, n, i, elems, i / 2);
  }

  /** One round of percolate_down. */
  lemma DownRound(full: seq<nat>, pri: seq<nat>, start: seq<nat>, pos: seq<nat>, n: nat, i: nat, elems: set<nat>)
    requires Sifting(full, pri, start, pos, n, i, elems)
    requires var c := MaxChild(full, pri, n, i); c != 0 && pri[full[i]] > pri[full[c]]
    ensures var c := MaxChild(full, pri, n, i);
            var e, h := Swap(full, i, c), full[i := full[c]];
            && i < c < n && full[c] < |pos| && e == h[c := full[i]]
            && Sifting(e, pri, start, pos[full[c] := i], n, c, elems)
            && Down(e, pri, n, c) == Down(full, pri, n, i)
            && Ranked(h, pri, n) && MaxChild(h, pri, n, c) == MaxChild(e, pri, n, c)
  {
    SiftMoves(full, pri, start, pos, n, i, elems, MaxChild(full, pri, n, i));
  }

  // ----- changing a priority, adding and removing an element -----

  /** Every element in use knows its slot. */
  ghost predicate Positioned(d: seq<nat>, pos: seq<nat>, n: nat) {
    1 <= n <= |d| && forall i | 1 <= i < n :: d[i] < |pos| && pos[d[i]] == i
  }

  lemma PositionedDistinct(d: seq<nat>, pos: seq<nat>, n: nat)
    requires Positioned(d, pos, n)
    ensures Distinct(d[1..n])
    ensures forall i, j | 1 <= i < n && 1 <= j < n && d[i] == d[j] :: i == j
    ensures forall x: nat :: x in Elems(d, n) <==> x < |pos| && 1 <= pos[x] < n && d[pos[x]] == x
  {
    ElemsOfLive(d, n);
    forall i, j | 0 <= i < j < n - 1
      ensures d[1..n][i] != d[1..n][j]
    {
      assert d[1..n][i] == d[i + 1] && d[1..n][j] == d[j + 1];
    }
  }

  /** A queue of distinct elements below `|pos|` that lacks one of them has a slot to spare. */
  lemma RoomForOneMore(d: seq<nat>, pos: seq<nat>, n: nat, x: nat)
    requires Positioned(d, pos, n) && x < |pos| && x !in Elems(d, n)
    ensures n <= |pos|
  {
    PositionedDistinct(d, pos, n);
    DistinctSize(d[1..n]);
    assert |d[1..n]| == n - 1;
    SubsetSize(Elems(d, n) + {x}, Upto(|pos|));
    assert |Elems(d, n) + {x}| == |Elems(d, n)| + 1;
  }

  lemma NewPriority(d: seq<nat>, pri: seq<nat>, pos: seq<nat>, n: nat, i: nat, v: nat)
    requires Ranked(d, pri, n) && Ordered(d, pri, n) && Positioned(d, pos, n) && 1 <= i < n
    ensures var pri' := pri[d[i] := v];
            && Ranked(d, pri', n)
            && (v < pri[d[i]] ==> OrderedButUp(d, pri', n, i))
            && (v >= pri[d[i]] ==> OrderedButDown(d, pri', n, i))
  {
    PositionedDistinct(d, pos, n);
    var pri' := pri[d[i] := v];
    forall j | 2 <= j < n
      ensures pri[d[j / 2]] <= pri[d[j]]
      ensures j / 2 >= 2 ==> pri[d[j / 2 / 2]] <= pri[d[j]]
    {
      if j / 2 >= 2 {
        assert pri[d[j / 2 / 2]] <= pri[d[j / 2]];
      }
    }
    assert forall j | 1 <= j < n && j != i :: pri'[d[j]] == pri[d[j]];
  }

  lemma Inserted(d: seq<nat>, pri: seq<nat>, pos: seq<nat>, n: nat, x: nat)
    requires Ranked(d, pri, n) && Ordered(d, pri, n) && Positioned(d, pos, n)
    requires n < |d| && |pos| == |pri| && x < |pri| && x !in Elems(d, n)
    ensures var d' := d[n := x];
            && Ranked(d', pri, n + 1) && Held(d', pos, n + 1, n) && OrderedButUp(d', pri, n + 1, n)
            && Live(d', n + 1) == Live(d, n) + multiset{x} && Elems(d', n + 1) == Elems(d, n) + {x}
  {
    var d' := d[n := x];
    assert d'[1..n + 1] == d[1..n] + [x];
    ElemsOfLive(d, n);
    ElemsOfLive(d', n + 1);
  }

  /** The last element fills the slot of the removed one. */
  lemma Removed(d: seq<nat>, pri: seq<nat>, pos: seq<nat>, n: nat, i: nat)
    requires Ranked(d, pri, n) && Ordered(d, pri, n) && Positioned(d, pos, n) && 1 <= i < n
    ensures var d' := d[i := d[n - 1]];
            && Ranked(d', pri, n - 1)
            && Live(d', n - 1) == Live(d, n) - multiset{d[i]} && Elems(d', n - 1) == Elems(d, n) - {d[i]}
            && (i < n - 1 ==> Held(d', pos, n - 1, i))
            && (i < n - 1 && pri[d[n - 1]] < pri[d[i]] ==> OrderedButUp(d', pri, n - 1, i))
            && (i < n - 1 && pri[d[n - 1]] >= pri[d[i]] ==> OrderedButDown(d', pri, n - 1, i))
            && (i == n - 1 ==> d' == d && Ordered(d', pri, n - 1) && Positioned(d', pos, n - 1))
  {
    hide Live, Elems, Positioned, OrderedButUp, OrderedButDown, Held;
    RemovedLive(d, pos, n, i);
    RemovedHeld(d, pos, n, i);
    RemovedOrder(d, pri, n, i);
  }

  lemma RemovedHeld(d: seq<nat>, pos: seq<nat>, n: nat, i: nat)
    requires Positioned(d, pos, n) && 1 <= i < n
    ensures i < n - 1 ==> Held(d[i := d[n - 1]], pos, n - 1, i)
    ensures i == n - 1 ==> d[i := d[n - 1]] == d && Positioned(d, pos, n - 1)
  {
    PositionedDistinct(d, pos, n);
  }

  lemma RemovedOrder(d: seq<nat>, pri: seq<nat>, n: nat, i: nat)
    requires Ranked(d, pri, n) && Ordered(d, pri, n) && 1 <= i < n
    ensures var d' := d[i := d[n - 1]];
            && Ranked(d', pri, n - 1)
            && (i < n - 1 && pri[d[n - 1]] < pri[d[i]] ==> OrderedButUp(d', pri, n - 1, i))
            && (i < n - 1 && pri[d[n - 1]] >= pri[d[i]] ==> OrderedButDown(d', pri, n - 1, i))
            && (i == n - 1 ==> Ordered(d', pri, n - 1))
  {
    forall j | 2 <= j < n
      ensures pri[d[j / 2]] <= pri[d[j]]
      ensures j / 2 >= 2 ==> pri[d[j / 2 / 2]] <= pri[d[j]]
    {
      if j / 2 >= 2 {
        assert pri[d[j / 2 / 2]] <= pri[d[j / 2]];
      }
    }
  }

  lemma RemovedLive(d: seq<nat>, pos: seq<nat>, n: nat, i: nat)
    requires Positioned(d, pos, n) && 1 <= i < n
    ensures var d' := d[i := d[n - 1]];
            Live(d', n - 1) == Live(d, n) - multiset{d[i]} && Elems(d', n - 1) == Elems(d, n) - {d[i]}
  {
    hide Dropped, Of, Distinct;
    RemovedSlice(d, n, i);
    PositionedDistinct(d, pos, n);
    DropLive(d[1..n], i - 1);
    ElemsMinus(d[1..n], Dropped(d[1..n], i - 1), d[i]);
  }

  /** `s` with its last element moved over element `k`. */
  ghost function Dropped(s: seq<nat>, k: nat): seq<nat>
    requires k < |s|
  {
    if k == |s| - 1 then s[..k] else s[..|s| - 1][k := s[|s| - 1]]
  }

  lemma RemovedSlice(d: seq<nat>, n: nat, i: nat)
    requires 1 <= i < n <= |d|
    ensures d[i := d[n - 1]][1..n - 1] == Dropped(d[1..n], i - 1) && d[1..n][i - 1] == d[i]
  {
  }

  lemma ElemsMinus(s: seq<nat>, t: seq<nat>, x: nat)
    requires Distinct(s) && multiset(t) == multiset(s) - multiset{x}
    ensures Of(t) == Of(s) - {x}
  {
    DistinctCount(s, x);
    forall y: nat
      ensures y in t <==> y in s && y != x
    {
      assert y in t <==> y in multiset(t);
    }
  }

  /** Overwriting an element with the last one, and dropping the last, removes that element once. */
  lemma DropLive(s: seq<nat>, k: nat)
    requires k < |s|
    ensures multiset(Dropped(s, k)) == multiset(s) - multiset{s[k]}
  {
    var m := |s| - 1;
    assert s == s[..m] + [s[m]];
  }
}
