/**
 The indexed priority queue of pqueue.c, as the translation layer instantiates it: elements are line
 numbers, an element's priority is that line's valid page count and its position is stored in the line.
 */
module PriorityQueue {
  import opened Heap
  import opened Wrappers

  class PQueue {
    const d: array<nat>    // slots: a line number, NullSlot() for a null pointer, more for memory never written
    const pri: array<nat>  // priority of each element
    const pos: array<nat>  // slot of each element in the queue
    var size: nat          // number of elements plus one

    /** A null pointer; slot 0 and the slots from `size` on may hold anything. */
    function NullSlot(): nat {
      pri.Length
    }

    ghost predicate Shape()
      reads this
    {
      && d != pri && d != pos && pri != pos
      && pri.Length == pos.Length && d.Length == pri.Length + 1
      && 1 <= size <= d.Length
    }

    /** Every element knows its slot; so no element is there twice. */
    ghost predicate Indexed()
      reads this, d, pos
    {
      Shape() && Positioned(d[..], pos[..], size)
    }

    ghost predicate Valid()
      reads this, d, pri, pos
    {
      Indexed() && Ordered(d[..], pri[..], size)
    }

    /** From slot `size` on, the slots are as they were in `before`. */
    ghost predicate RestKept(before: seq<nat>)
      requires Shape()
      reads this, d
    {
      |before| == d.Length && forall j | size <= j < |before| :: d[j] == before[j]
    }

    ghost function Contents(): set<nat>
      requires Shape()
      reads this, d
    {
      Elems(d[..], size)
    }

    /** pqueue_init */
    constructor (n: nat)
      ensures Valid() && size == 1 && pri.Length == n
      ensures fresh(d) && fresh(pri) && fresh(pos)
      ensures Contents() == {}
      ensures forall x | 0 <= x < n :: pri[x] == 0 && pos[x] == 0
    {
      d := new nat[n + 1];  // kmalloc: the slots are not cleared
      pri := new nat[n](_ => 0);
      pos := new nat[n](_ => 0);
      size := 1;
    }

    /** Copy the element of slot `j` into the hole at slot `i`. */
    method MoveInto(i: nat, j: nat)
      requires Shape() && i < d.Length && j < d.Length && d[j] < pos.Length
      modifies d, pos
      ensures d[..] == old(d[..])[i := old(d[j])]
      ensures pos[..] == old(pos[..])[old(d[j]) := i]
    {
      d[i] := d[j];
      pos[d[i]] := i;
    }

    /** Put the moving element into the hole at slot `i`. */
    method Land(i: nat, x: nat)
      requires Shape() && i < d.Length && x < pos.Length
      modifies d, pos
      ensures d[..] == old(d[..])[i := x]
      ensures pos[..] == old(pos[..])[x := i]
    {
      d[i] := x;
      pos[x] := i;
    }

    /** bubble_up: the element of slot `i0` moves towards the root through a hole. */
    method BubbleUp(i0: nat)
      requires Shape() && Ranked(d[..], pri[..], size) && Held(d[..], pos[..], size, i0)
      requires OrderedButUp(d[..], pri[..], size, i0)
      modifies d, pos
      ensures Valid()
      ensures RestKept(old(d[..]))
      ensures Live(d[..], size) == old(Live(d[..], size)) && Contents() == old(Contents())
      ensures SameOutside(old(pos[..]), pos[..], Contents())
    {
      hide Up, Live, Elems, OrderedButUp, SameOutside, Ordered;
      ghost var before, full, start, pr := d[..], d[..], pos[..], pri[..];
      ghost var elems := Elems(full, size);
      SiftStarts(full, pr, start, size, i0);
      var i := i0;
      var moving := d[i];
      var movingPri := pri[moving];
      var parent := i / 2;
      while i > 1 && pri[d[parent]] > movingPri
        invariant 1 <= i < size && parent == i / 2 && pri[..] == pr
        invariant |full| == d.Length && full[i] == moving && full == d[..][i := moving]
        invariant Sifting(full, pr, start, pos[..], size, i, elems)
        invariant i > 1 ==> d[parent] < pri.Length
        invariant Up(full, pr, size, i) == Up(before, pr, size, i0)
        decreases i
      {
        UpRound(full, pr, start, pos[..], size, i, elems);
        assert d[parent] == full[parent] && d[..][i := d[parent]] == full[i := full[parent]];
        MoveInto(i, parent);
        full := Swap(full, i, parent);
        i := parent;
        parent := i / 2;
      }
      SiftLands(full, pr, start, pos[..], size, i, elems);
      UpEnds(full, pr, size, i);
      Land(i, moving);
      assert d[..] == full;
      UpRepairs(before, pr, size, i0);
      UpKeepsRest(before, pr, size, i0);
      SameElems(before, full, size);
    }

    /** percolate_down: the element of slot `i0` moves towards the leaves through a hole. */
    method PercolateDown(i0: nat)
      requires Shape() && Ranked(d[..], pri[..], size) && Held(d[..], pos[..], size, i0)
      requires OrderedButDown(d[..], pri[..], size, i0)
      modifies d, pos
      ensures Valid()
      ensures RestKept(old(d[..]))
      ensures Live(d[..], size) == old(Live(d[..], size)) && Contents() == old(Contents())
      ensures SameOutside(old(pos[..]), pos[..], Contents())
    {
      hide Down, Live, Elems, OrderedButDown, SameOutside, Ordered;
      ghost var before, full, start, pr := d[..], d[..], pos[..], pri[..];
      ghost var elems := Elems(full, size);
      SiftStarts(full, pr, start, size, i0);
      var i := i0;
      var moving := d[i];
      var movingPri := pri[moving];
      var child := MaxChild(d[..], pri[..], size, i);
      while child != 0 && movingPri > pri[d[child]]
        invariant 1 <= i < size && pri[..] == pr
        invariant |full| == d.Length && full[i] == moving && full == d[..][i := moving]
        invariant Sifting(full, pr, start, pos[..], size, i, elems)
        invariant child == MaxChild(full, pr, size, i)
        invariant Down(full, pr, size, i) == Down(before, pr, size, i0)
        decreases size - i
      {
        DownRound(full, pr, start, pos[..], size, i, elems);
        assert d[child] == full[child] && d[..][i := d[child]] == full[i := full[child]];
        MoveInto(i, child);
        full := Swap(full, i, child);
        i := child;
        child := MaxChild(d[..], pri[..], size, i);
      }
      SiftLands(full, pr, start, pos[..], size, i, elems);
      DownEnds(full, pr, size, i);
      Land(i, moving);
      assert d[..] == full;
      DownRepairs(before, pr, size, i0);
      DownKeepsRest(before, pr, size, i0);
      SameElems(before, full, size);
    }

    /** pqueue_insert; the queue always has a slot for an element it does not hold. */
    method Insert(x: nat)
      requires Valid() && x < pri.Length && x !in Contents()
      modifies this, d, pos
      ensures Valid() && size == old(size) + 1
      ensures RestKept(old(d[..]))
      ensures Live(d[..], size) == old(Live(d[..], size)) + multiset{x}
      ensures Contents() == old(Contents()) + {x}
      ensures SameOutside(old(pos[..]), pos[..], Contents())
    {
      hide Live, Elems, OrderedButUp, OrderedButDown, Ordered, Held;
      RoomForOneMore(d[..], pos[..], size, x);
      assert size < d.Length;
      Inserted(d[..], pri[..], pos[..], size, x);
      ghost var full := d[..][size := x];
      var i := size;
      size := size + 1;
      d[i] := x;
      assert d[..] == full;
      BubbleUp(i);
    }

    /** pqueue_change_priority */
    method ChangePriority(newPri: nat, x: nat)
      requires Valid() && x in Contents()
      modifies d, pri, pos
      ensures Valid()
      ensures RestKept(old(d[..]))
      ensures pri[..] == old(pri[..])[x := newPri]
      ensures Live(d[..], size) == old(Live(d[..], size)) && Contents() == old(Contents())
      ensures SameOutside(old(pos[..]), pos[..], Contents())
    {
      PositionedDistinct(d[..], pos[..], size);
      ghost var full := d[..];
      var oldPri := pri[x];
      NewPriority(d[..], pri[..], pos[..], size, pos[x], newPri);
      pri[x] := newPri;
      var posn := pos[x];
      if oldPri > newPri {
        BubbleUp(posn);
      } else {
        PercolateDown(posn);
      }
    }

    /** pqueue_remove */
    method Remove(x: nat)
      requires Valid() && x in Contents()
      modifies this, d, pos
      ensures Valid() && size == old(size) - 1
      ensures RestKept(old(d[..]))
      ensures Live(d[..], size) == old(Live(d[..], size)) - multiset{x}
      ensures Contents() == old(Contents()) - {x}
      ensures SameOutside(old(pos[..]), pos[..], old(Contents()))
    {
      hide Live, Elems, OrderedButUp, OrderedButDown, Ordered;
      PositionedDistinct(d[..], pos[..], size);
      var posn := pos[x];
      Removed(d[..], pri[..], pos[..], size, posn);
      ghost var full := d[..][posn := d[size - 1]];
      size := size - 1;
      d[posn] := d[size];
      assert d[..] == full;
      if posn == size {
        // The removed element was the last: the source sifts its vacated slot, which has no children.
      } else if pri[x] > pri[d[posn]] {
        BubbleUp(posn);
      } else {
        PercolateDown(posn);
      }
    }

    /** pqueue_pop */
    method Pop() returns (head: Option<nat>)
      requires Valid()
      modifies this, d, pos
      ensures Valid()
      ensures RestKept(old(d[..]))
      ensures head == None <==> old(size) == 1
      ensures head == None ==> size == 1 && d[..] == old(d[..]) && pos[..] == old(pos[..])
      ensures head.Some? ==> old(size) > 1 && head.value == old(d[1]) && size == old(size) - 1
      ensures head.Some? ==> Live(d[..], size) == old(Live(d[..], size)) - multiset{head.value}
      ensures head.Some? ==> Contents() == old(Contents()) - {head.value}
      ensures SameOutside(old(pos[..]), pos[..], old(Contents()))
    {
      hide Live, Elems, OrderedButUp, OrderedButDown, Ordered, Held;
      if size == 1 {
        return None;
      }
      PositionedDistinct(d[..], pos[..], size);
      head := Some(d[1]);
      Removed(d[..], pri[..], pos[..], size, 1);
      ghost var full := d[..][1 := d[size - 1]];
      RootIsLeast(d[..], pri[..], size, size - 1);
      size := size - 1;
      d[1] := d[size];
      assert d[..] == full;
      if size > 1 {
        PercolateDown(1);
      }
    }

    /** pqueue_peek: an element of least priority. */
    method Peek() returns (head: Option<nat>)
      requires Valid()
      ensures head == None <==> Contents() == {}
      ensures head.Some? ==> size > 1 && head.value == d[1] && head.value in Contents() && head.value < pri.Length
      ensures head.Some? ==> forall x <- Contents() :: x < pri.Length && pri[head.value] <= pri[x]
    {
      ElemsOfLive(d[..], size);
      if size == 1 {
        return None;
      }
      forall j | 1 <= j < size
        ensures pri[d[1]] <= pri[d[j]]
      {
        RootIsLeast(d[..], pri[..], size, j);
      }
      assert d[..][1] in Contents();
      return Some(d[1]);
    }

    /** pqueue_is_valid */
    method IsValid() returns (ok: bool)
      requires Indexed()
      ensures ok <==> Ordered(d[..], pri[..], size)
    {
      IsValidExactlyWhenOrdered(d[..], pri[..], size);
      ok := SubtreeIsValid(d[..], pri[..], size, 1);
    }

    lemma SameElems(before: seq<nat>, after: seq<nat>, n: nat)
      requires 1 <= n <= |before| && n <= |after| && Live(after, n) == Live(before, n)
      ensures Elems(after, n) == Elems(before, n)
    {
      ElemsOfLive(before, n);
      ElemsOfLive(after, n);
    }
  }
}
