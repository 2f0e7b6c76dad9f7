/**
 The channel bandwidth model of channel_model.c: a ring of credit slots that stands for an unbounded timeline
 of transfer intervals.
 */
module ChannelModel {
  import opened MixedRadix

  const ENTRIES: nat := 1024 * 2048
  const INTERVAL: nat := 4000
  const XFER_SIZE: nat := 128

  /** Truncation to a 32-bit field. */
  function W32(x: nat): nat {
    x % 0x1_0000_0000
  }

  // ----- the timeline -----

  /** Credits booked in an absolute interval. */
  function At(booked: map<nat, nat>, a: nat): nat {
    if a in booked then booked[a] else 0
  }

  ghost predicate Within(booked: map<nat, nat>, max: nat) {
    forall a: nat :: At(booked, a) <= max
  }

  datatype Booking = Booking(line: map<nat, nat>, left: nat, last: nat)

  function Min(a: nat, b: nat): nat {
    if a < b then a else b
  }

  /** Credits one interval gives to a request. */
  function Take(booked: map<nat, nat>, max: nat, a: nat, units: nat): (take: nat)
    requires At(booked, a) <= max
    ensures take <= units && take <= max - At(booked, a)
  {
    Min(units, max - At(booked, a))
  }

  function TakeFrom(booked: map<nat, nat>, a: nat, take: nat): (line: map<nat, nat>)
    ensures At(line, a) == At(booked, a) + take
    ensures forall x: nat | x != a :: At(line, x) == At(booked, x)
  {
    booked[a := At(booked, a) + take]
  }

  /** Book `units` from interval `a` on, never reaching interval `end`. */
  ghost function Book(booked: map<nat, nat>, max: nat, a: nat, end: nat, units: nat): (b: Booking)
    requires Within(booked, max) && a < end
    ensures a <= b.last < end
    decreases end - a
  {
    var take := Take(booked, max, a, units);
    var line := TakeFrom(booked, a, take);
    if units == take || a + 1 == end then Booking(line, units - take, a) else Book(line, max, a + 1, end, units - take)
  }

  lemma BookStep(booked: map<nat, nat>, max: nat, a: nat, end: nat, units: nat)
    requires Within(booked, max) && a < end
    ensures At(booked, a) <= max && Within(TakeFrom(booked, a, Take(booked, max, a, units)), max)
    ensures var take := Take(booked, max, a, units);
            var line := TakeFrom(booked, a, take);
            Book(booked, max, a, end, units)
            == if units == take || a + 1 == end then Booking(line, units - take, a)
               else Book(line, max, a + 1, end, units - take)
  {
  }

  /** Credits still free in the intervals from `a` up to but not including `b`. */
  ghost function Free(booked: map<nat, nat>, max: nat, a: nat, b: nat): int
    decreases b - a
  {
    if a >= b then 0 else max - At(booked, a) + Free(booked, max, a + 1, b)
  }

  lemma {:induction false} FreeSame(m: map<nat, nat>, n: map<nat, nat>, max: nat, a: nat, b: nat)
    requires forall x: nat | a <= x < b :: At(m, x) == At(n, x)
    ensures Free(m, max, a, b) == Free(n, max, a, b)
    decreases b - a
  {
    if a < b {
      FreeSame(m, n, max, a + 1, b);
    }
  }

  /** Booking touches only the intervals it reports, fills all but the last of them, and respects the bound. */
  lemma {:induction false} BookFills(booked: map<nat, nat>, max: nat, a: nat, end: nat, units: nat)
    requires Within(booked, max) && a < end
    ensures var b := Book(booked, max, a, end, units); a <= b.last < end && Within(b.line, max)
    ensures var b := Book(booked, max, a, end, units); forall x: nat | x < a
          || b.last < x :: At(b.line, x) == At(booked, x)
    ensures var b := Book(booked, max, a, end, units); forall x: nat | a <= x < b.last :: At(b.line, x) == max
    ensures var b := Book(booked, max, a, end, units); At(b.line, b.last) >= At(booked, b.last) && (b.left > 0 ==>
            At(b.line, b.last) == max)
    decreases end - a
  {
    hide At;
    var take := Take(booked, max, a, units);
    var line := TakeFrom(booked, a, take);
    if units != take && a + 1 != end {
      BookFills(line, max, a + 1, end, units - take);
    }
  }

  /** What is booked is what was asked for, less what is left over. */
  lemma {:induction false} BookConserves(booked: map<nat, nat>, max: nat, a: nat, end: nat, units: nat)
    requires Within(booked, max) && a < end
    ensures var b := Book(booked, max, a, end, units);
            Free(b.line, max, a, end) == Free(booked, max, a, end) - (units - b.left) && b.left <= units
    decreases end - a
  {
    hide At;
    var take := Take(booked, max, a, units);
    var line := TakeFrom(booked, a, take);
    var b := Book(booked, max, a, end, units);
    FreeSame(line, booked, max, a + 1, end);
    if units != take && a + 1 != end {
      BookConserves(line, max, a + 1, end, units - take);
      BookFills(line, max, a + 1, end, units - take);
      assert At(b.line, a) == At(line, a);
    }
  }

  /** Units are left over exactly when the free credits do not suffice. */
  lemma {:induction false} BookLeaves(booked: map<nat, nat>, max: nat, a: nat, end: nat, units: nat)
    requires Within(booked, max) && a < end
    ensures var free := Free(booked, max, a, end);
            Book(booked, max, a, end, units).left == if units <= free then 0 else units - free
    decreases end - a
  {
    hide At;
    var take := Take(booked, max, a, units);
    var line := TakeFrom(booked, a, take);
    FreeSame(line, booked, max, a + 1, end);
    FreeIsPositive(booked, max, a + 1, end);
    if units != take && a + 1 != end {
      BookLeaves(line, max, a + 1, end, units - take);
    }
  }

  lemma {:induction false} FreeIsPositive(booked: map<nat, nat>, max: nat, a: nat, b: nat)
    requires Within(booked, max)
    ensures Free(booked, max, a, b) >= 0
    decreases b - a
  {
    if a < b {
      FreeIsPositive(booked, max, a + 1, b);
    }
  }

  /** First fit: the booking ends in the first interval by which enough credits are free, or in the last interval. */
  lemma {:induction false} BookIsFirstFit(booked: map<nat, nat>, max: nat, a: nat, end: nat, units: nat)
    requires Within(booked, max) && a < end
    ensures var last := Book(booked, max, a, end, units).last;
            a <= last < end && (last > a ==> Free(booked, max, a, last) < units)
            && (last + 1 < end ==> units <= Free(booked, max, a, last + 1))
    decreases end - a
  {
    hide At;
    var take := Take(booked, max, a, units);
    var line := TakeFrom(booked, a, take);
    if units != take && a + 1 != end {
      BookIsFirstFit(line, max, a + 1, end, units - take);
      var last := Book(line, max, a + 1, end, units - take).last;
      FreeSame(line, booked, max, a + 1, last);
      FreeSame(line, booked, max, a + 1, last + 1);
    }
  }

  // ----- delay on an idle channel -----

  /** Nothing is booked from interval `a` on. */
  ghost predicate IdleFrom(booked: map<nat, nat>, a: nat) {
    forall x: nat | x >= a :: At(booked, x) == 0
  }

  /** Nothing is booked from `a` up to but not including `b`. */
  ghost predicate IdleBetween(booked: map<nat, nat>, a: nat, b: nat) {
    forall x: nat | a <= x < b :: At(booked, x) == 0
  }

  lemma {:induction false} IdleFree(booked: map<nat, nat>, max: nat, a: nat, b: nat)
    requires IdleBetween(booked, a, b) && a <= b
    ensures Free(booked, max, a, b) == (b - a) * max
    decreases b - a
  {
    if a < b {
      IdleFree(booked, max, a + 1, b);
      assert (b - a) * max == (b - a - 1) * max + max;
    }
  }

  lemma QuotientAtLeast(k: nat, max: nat, units: nat)
    requires max > 0 && k * max <= units
    ensures k <= units / max
  {
    var q := units / max;
    assert units < (q + 1) * max;
    FactorBelow(k, q + 1, max);
  }

  lemma FactorBelow(k: nat, m: nat, max: nat)
    requires k * max < m * max
    ensures k < m
  {
    if k >= m {
      MulMono(m, k, max);
    }
  }

  /** Extra intervals beyond the units' own transfer time. */
  function Excess(slots: nat, usual: nat): nat {
    if slots > usual then slots - usual else 0
  }

  /** On an idle channel no interval is added, even when the credits divide the request. */
  lemma IdleHasNoExcess(booked: map<nat, nat>, max: nat, a: nat, end: nat, units: nat)
    requires Within(booked, max) && max > 0 && a < end && IdleBetween(booked, a, end)
    ensures a <= Book(booked, max, a, end, units).last
    ensures Excess(Book(booked, max, a, end, units).last - a, units / max) == 0
  {
    BookIsFirstFit(booked, max, a, end, units);
    var last := Book(booked, max, a, end, units).last;
    if last > a {
      IdleFree(booked, max, a, last);
      QuotientAtLeast(last - a, max, units);
    }
  }

  // ----- the ring -----

  /** The array position of the `i`-th interval after the current one. */
  function Slot(head: nat, i: nat): (p: nat)
    requires head < ENTRIES && i <= ENTRIES
    ensures p < ENTRIES
  {
    if head + i < ENTRIES then head + i else head + i - ENTRIES
  }

  /** Every slot of the ring holds what the timeline leaves free in its interval. */
  ghost predicate Agrees(avail: seq<nat>, head: nat, max: nat, base: nat, booked: map<nat, nat>)
    requires |avail| == ENTRIES && head < ENTRIES
  {
    forall i | 0 <= i < ENTRIES :: avail[Slot(head, i)] + At(booked, base + i) == max
  }

  /** Slots outside the valid window are full. */
  ghost predicate FullBeyond(avail: seq<nat>, head: nat, max: nat, validLen: nat)
    requires |avail| == ENTRIES && head < ENTRIES
  {
    forall i | validLen <= i < ENTRIES :: avail[Slot(head, i)] == max
  }

  /** `after` is `avail` with the first `n` slots from the head refilled. */
  ghost predicate Refilled(avail: seq<nat>, after: seq<nat>, head: nat, max: nat, n: nat)
    requires |avail| == |after| == ENTRIES && head < ENTRIES
  {
    && (forall i | 0 <= i < ENTRIES && i < n :: after[Slot(head, i)] == max)
    && (forall i | n <= i < ENTRIES :: after[Slot(head, i)] == avail[Slot(head, i)])
  }

  /** Slots passed when the clock moves by `d` intervals: the 32-bit difference, at most the valid window. */
  function Passed(d: nat, validLen: nat): nat {
    Min(W32(d), validLen)
  }

  lemma SlotShift(head: nat, n: nat, i: nat)
    requires head < ENTRIES && n <= ENTRIES && i < ENTRIES
    ensures Slot(Slot(head, n), i) == if n + i < ENTRIES then Slot(head, n + i) else Slot(head, n + i - ENTRIES)
  {
  }

  /** What the ring holds after the clock moved: the rest of the window, then full slots. */
  lemma MovedSlots(avail: seq<nat>, after: seq<nat>, head: nat, max: nat, validLen: nat, n: nat)
    requires |avail| == |after| == ENTRIES && head < ENTRIES && n <= validLen <= ENTRIES
    requires FullBeyond(avail, head, max, validLen) && Refilled(avail, after, head, max, n)
    ensures FullBeyond(after, Slot(head, n), max, validLen - n)
    ensures forall i | 0 <= i < validLen - n :: after[Slot(Slot(head, n), i)] == avail[Slot(head, n + i)]
  {
    forall i | 0 <= i < ENTRIES
      ensures i >= validLen - n ==> after[Slot(Slot(head, n), i)] == max
      ensures i < validLen - n ==> after[Slot(Slot(head, n), i)] == avail[Slot(head, n + i)]
    {
      SlotShift(head, n, i);
    }
  }

  /**
   When the clock moves by `d` intervals the ring keeps agreeing with the timeline exactly when the 32-bit
   difference is exact or leaves behind no booking that has passed.
   */
  lemma ClockMoves(avail: seq<nat>, after: seq<nat>, head: nat, max: nat, validLen: nat, base: nat, booked: map<nat,
      nat>, d: nat)
    requires |avail| == |after| == ENTRIES && head < ENTRIES && validLen <= ENTRIES
    requires Agrees(avail, head, max, base, booked) && FullBeyond(avail, head, max, validLen)
    requires IdleFrom(booked, base + validLen) && Refilled(avail, after, head, max, Passed(d, validLen))
    ensures Agrees(after, Slot(head, Passed(d, validLen)), max, base + d, booked)
          <==> ClockOk(booked, base, validLen, d)
  {
    hide Slot, At;
    var n := Passed(d, validLen);
    MovedSlots(avail, after, head, max, validLen, n);
    forall i | 0 <= i < ENTRIES
      ensures after[Slot(Slot(head, n), i)] == if i < validLen - n then max - At(booked, base + n + i) else max
    {
      if i < validLen - n {
        assert avail[Slot(head, n + i)] + At(booked, base + (n + i)) == max;
      }
    }
    MovedAgree(after, Slot(head, n), max, validLen, base, booked, d);
  }

  lemma MovedAgree(after: seq<nat>, head: nat, max: nat, validLen: nat, base: nat, booked: map<nat, nat>, d: nat)
    requires |after| == ENTRIES && head < ENTRIES && validLen <= ENTRIES && IdleFrom(booked, base + validLen)
    requires var n := Passed(d, validLen); forall i | 0 <= i < ENTRIES ::
               after[Slot(head, i)] == if i < validLen - n then max - At(booked, base + n + i) else max
    ensures Agrees(after, head, max, base + d, booked) <==> ClockOk(booked, base, validLen, d)
  {
    hide Slot, At;
    var n := Passed(d, validLen);
    if d >= 0x1_0000_0000 && Agrees(after, head, max, base + d, booked) {
      forall x: nat | base + W32(d) <= x < base + validLen
        ensures At(booked, x) == 0
      {
        var i := x - base - n;
        assert after[Slot(head, i)] + At(booked, base + d + i) == max;
        assert base + n + i == x;
      }
    }
    if ClockOk(booked, base, validLen, d) {
      forall i | 0 <= i < ENTRIES
        ensures after[Slot(head, i)] + At(booked, base + d + i) == max
      {
      }
    }
  }

  ghost predicate ClockOk(booked: map<nat, nat>, base: nat, validLen: nat, d: nat) {
    d < 0x1_0000_0000 || forall x: nat | base + W32(d) <= x < base + validLen :: At(booked, x) == 0
  }

  /** The ring represents the timeline, and nothing is booked outside its first `window` slots. */
  ghost predicate Ring(avail: seq<nat>, head: nat, max: nat, base: nat, booked: map<nat, nat>, window: nat) {
    && |avail| == ENTRIES && head < ENTRIES
    && Agrees(avail, head, max, base, booked) && FullBeyond(avail, head, max, window)
    && IdleFrom(booked, base + window) && Within(booked, max)
  }

  function Max(a: nat, b: nat): nat {
    if a < b then b else a
  }

  lemma RingWithin(avail: seq<nat>, head: nat, max: nat, base: nat, booked: map<nat, nat>, window: nat)
    requires Ring(avail, head, max, base, booked, window)
    ensures Within(booked, max)
  {
  }

  lemma RingWindow(avail: seq<nat>, head: nat, max: nat, base: nat, booked: map<nat, nat>, window: nat, larger: nat)
    requires Ring(avail, head, max, base, booked, window) && window <= larger
    ensures Ring(avail, head, max, base, booked, larger)
  {
  }

  /** Consuming from one slot books its interval and may extend the window. */
  lemma RingStep(avail: seq<nat>, head: nat, max: nat, base: nat, booked: map<nat, nat>, window: nat, i: nat,
      units: nat, larger: nat)
    requires Ring(avail, head, max, base, booked, window) && i < ENTRIES && window <= larger && i < larger
    ensures var p := Slot(head, i); var take := Min(units, avail[p]);
            At(booked, base + i) <= max && take == Take(booked, max, base + i, units)
            && Ring(avail[p := avail[p] - take], head, max, base, TakeFrom(booked, base + i, take), larger)
  {
    hide At, Slot;
    var p := Slot(head, i);
    var take := Min(units, avail[p]);
    AgreesStep(avail, head, max, base, booked, i, take);
    forall j | larger <= j < ENTRIES
      ensures avail[p := avail[p] - take][Slot(head, j)] == max
    {
      SlotInjective(head, i, j);
    }
  }

  function Wrap(x: nat): nat {
    x % ENTRIES
  }

  /** How many slots the window needs to reach a position. */
  function WindowTo(head: nat, pos: nat): nat
    requires head < ENTRIES
  {
    if pos >= head then pos - head + 1 else ENTRIES - (head - pos - 1)
  }

  lemma SlotIsModulo(head: nat, i: nat)
    requires head < ENTRIES && i <= ENTRIES
    ensures Wrap(head + i) == Slot(head, i)
  {
  }

  /** The next position is the head exactly after the last slot. */
  lemma NextSlot(head: nat, i: nat)
    requires head < ENTRIES && i < ENTRIES
    ensures var p := Slot(head, i);
            Wrap(p + 1) == Slot(head, i + 1) && (Wrap(p + 1) == head <==> i + 1 == ENTRIES)
                && WindowTo(head, p) == i + 1
  {
  }

  lemma SlotInjective(head: nat, i: nat, j: nat)
    requires head < ENTRIES && i < ENTRIES && j < ENTRIES && i != j
    ensures Slot(head, i) != Slot(head, j)
  {
  }

  /** Moving the clock. */
  lemma RingMoves(avail: seq<nat>, after: seq<nat>, head: nat, max: nat, validLen: nat, base: nat, booked: map<nat,
      nat>, d: nat)
    requires |after| == ENTRIES && validLen <= ENTRIES && Ring(avail, head, max, base, booked, validLen)
    requires Refilled(avail, after, head, max, Passed(d, validLen)) && ClockOk(booked, base, validLen, d)
    ensures var n := Passed(d, validLen); Ring(after, Slot(head, n), max, base + d, booked, validLen - n)
  {
    hide Agrees, FullBeyond, Refilled, ClockOk, At;
    var n := Passed(d, validLen);
    ClockMoves(avail, after, head, max, validLen, base, booked, d);
    MovedSlots(avail, after, head, max, validLen, n);
    IdleLater(booked, base + validLen, base + d + (validLen - n));
  }

  /** One slot gives up the credits its interval gives to a request. */
  lemma AgreesStep(avail: seq<nat>, head: nat, max: nat, base: nat, booked: map<nat, nat>, i: nat, take: nat)
    requires |avail| == ENTRIES && head < ENTRIES && i < ENTRIES && Agrees(avail, head, max, base, booked)
    requires take <= avail[Slot(head, i)]
    ensures avail[Slot(head, i)] == max - At(booked, base + i)
    ensures var p := Slot(head, i);
            Agrees(avail[p := avail[p] - take], head, max, base, TakeFrom(booked, base + i, take))
  {
    hide At;
  }

  lemma IdleLater(booked: map<nat, nat>, a: nat, b: nat)
    requires IdleFrom(booked, a) && a <= b
    ensures IdleFrom(booked, b)
  {
  }

  // ----- the channel -----

  const MB: nat := 0x10_0000
  const NS_PER_SEC: nat := 1_000_000_000

  /** Credits of one interval at a bandwidth in MB/s. */
  function MaxCredits(bandwidth: nat): nat {
    bandwidth * MB * INTERVAL / NS_PER_SEC / XFER_SIZE
  }

  /** An interval's credits are the whole transfer units that the bandwidth moves in it. */
  lemma CreditsExactly(bandwidth: nat)
    ensures var m := MaxCredits(bandwidth);
            m * XFER_SIZE * NS_PER_SEC <= bandwidth * MB * INTERVAL < (m + 1) * XFER_SIZE * NS_PER_SEC
  {
    var x, m := bandwidth * MB * INTERVAL, MaxCredits(bandwidth);
    QuotientIs(x / NS_PER_SEC, XFER_SIZE, m);
    QuotientIs(x, NS_PER_SEC, m * XFER_SIZE);
    QuotientIs(x, NS_PER_SEC, (m + 1) * XFER_SIZE);
  }

  /** A unit's latency is the whole nanoseconds the bandwidth takes for it, and fits its 32-bit field. */
  lemma LatencyExactly(bandwidth: nat)
    requires MaxCredits(bandwidth) >= 1
    ensures bandwidth > 0
    ensures var q := XFER_SIZE * NS_PER_SEC / (bandwidth * MB);
            q * (bandwidth * MB) <= XFER_SIZE * NS_PER_SEC < (q + 1) * (bandwidth * MB) && W32(q) == q
  {
    CreditsExactly(bandwidth);
    var q := XFER_SIZE * NS_PER_SEC / (bandwidth * MB);
    QuotientIs(XFER_SIZE * NS_PER_SEC, bandwidth * MB, q);
    MulMono(MB, bandwidth * MB, q);
  }

  function UnitsOf(length: nat): nat {
    W32((length + XFER_SIZE - 1) / XFER_SIZE)
  }

  /** The interval, counted from the current one, in which a request asks to start. */
  function Offset(clock: nat, requestTime: nat): nat
    requires clock <= requestTime
  {
    W32(requestTime / INTERVAL - clock / INTERVAL)
  }

  /** Request times the channel answers with no transfer latency: in the past, or beyond the ring. */
  predicate OutOfReach(clock: nat, requestTime: nat) {
    requestTime < clock || Offset(clock, requestTime) >= ENTRIES
  }

  /** What a request books, the current interval being `clock / INTERVAL`. */
  ghost function BookingOf(booked: map<nat, nat>, max: nat, clock: nat, requestTime: nat, length: nat): Booking
    requires Within(booked, max) && !OutOfReach(clock, requestTime)
  {
    var base := clock / INTERVAL;
    Book(booked, max, base + Offset(clock, requestTime), base + ENTRIES, UnitsOf(length))
  }

  /** When the transfer ends: the units' own time plus the intervals lost to other transfers. */
  ghost function FinishOf(booked: map<nat, nat>, max: nat, xferLat: nat, clock: nat, requestTime: nat, length: nat): int
    requires Within(booked, max) && max > 0 && !OutOfReach(clock, requestTime)
  {
    var first := clock / INTERVAL + Offset(clock, requestTime);
    var last := BookingOf(booked, max, clock, requestTime, length).last;
    requestTime + W32(xferLat * UnitsOf(length)) + Excess(last - first, UnitsOf(length) / max) * INTERVAL
  }

  // ----- answers on a busy channel -----

  /** `units` transfer units hold `length` bytes, and no fewer do. */
  ghost predicate HeldBy(length: nat, units: nat) {
    units < 0x1_0000_0000 && length <= units * XFER_SIZE && (units > 0 ==> (units - 1) * XFER_SIZE < length)
  }

  /**
   Interval `last` is the first by which enough credits are free from `first` on, or the last one before `end` if
   none is.
   */
  ghost predicate EndsAt(booked: map<nat, nat>, max: nat, first: nat, end: nat, units: nat, last: nat) {
    && first <= last < end
    && (last > first ==> Free(booked, max, first, last) < units)
    && (last + 1 < end ==> units <= Free(booked, max, first, last + 1))
  }

  lemma {:induction false} FreeGrows(booked: map<nat, nat>, max: nat, a: nat, b: nat, c: nat)
    requires Within(booked, max) && a <= b <= c
    ensures Free(booked, max, a, b) <= Free(booked, max, a, c)
    decreases b - a
  {
    if a < b {
      FreeGrows(booked, max, a + 1, b, c);
    } else {
      FreeIsPositive(booked, max, a, c);
    }
  }

  lemma EndIsUnique(booked: map<nat, nat>, max: nat, first: nat, end: nat, units: nat, a: nat, b: nat)
    requires Within(booked, max)
    requires EndsAt(booked, max, first, end, units, a) && EndsAt(booked, max, first, end, units, b)
    ensures a == b
  {
    if a < b {
      FreeGrows(booked, max, first, a + 1, b);
    } else if b < a {
      FreeGrows(booked, max, first, b + 1, a);
    }
  }

  lemma UnitsHold(length: nat, units: nat)
    requires HeldBy(length, units)
    ensures units == UnitsOf(length)
  {
    QuotientIs(length + XFER_SIZE - 1, XFER_SIZE, units);
  }

  /** Below 2^32 units every length has them. */
  lemma UnitsExist(length: nat)
    requires length <= 0xFFFF_FFFF * XFER_SIZE
    ensures HeldBy(length, UnitsOf(length))
  {
    var units := (length + XFER_SIZE - 1) / XFER_SIZE;
    QuotientIs(length + XFER_SIZE - 1, XFER_SIZE, units);
    QuotientIs(length + XFER_SIZE - 1, XFER_SIZE, 0x1_0000_0000);
  }

  /** Within the ring the 32-bit offset is exact; from there to 2^32 intervals it is out of reach. */
  lemma OffsetIsExact(clock: nat, requestTime: nat)
    requires clock <= requestTime && requestTime / INTERVAL < clock / INTERVAL + 0x1_0000_0000
    ensures clock / INTERVAL <= requestTime / INTERVAL
    ensures clock / INTERVAL + Offset(clock, requestTime) == requestTime / INTERVAL
    ensures OutOfReach(clock, requestTime) <==> clock / INTERVAL + ENTRIES <= requestTime / INTERVAL
  {
    QuotientIs(requestTime, INTERVAL, clock / INTERVAL);
  }

  /**
   What a request is answered, in terms of the free credits alone: its own time, and one interval for each that the
   credits from the requested interval on are late against an empty channel.
   */
  ghost predicate AnsweredFrom(booked: map<nat, nat>, max: nat, xferLat: nat, t: Transfer, finish: int)
    requires max > 0
  {
    var first, end := t.requestTime / INTERVAL, t.clock / INTERVAL + ENTRIES;
    && (t.requestTime < t.clock ==> finish == t.requestTime)
    && (t.clock <= t.requestTime && end <= first < t.clock / INTERVAL + 0x1_0000_0000 ==> finish == t.requestTime)
    && (t.clock <= t.requestTime && first < end ==>
          forall units: nat, last: nat | HeldBy(t.length, units) && EndsAt(booked, max, first, end, units, last) ::
            finish == t.requestTime + (xferLat * units) % 0x1_0000_0000
                      + if last - first > units / max then (last - first - units / max) * INTERVAL else 0)
  }

  /** What a request books, in terms of the free credits alone. */
  ghost predicate BookedFrom(booked: map<nat, nat>, max: nat, t: Transfer, after: map<nat, nat>) {
    var first, end := t.requestTime / INTERVAL, t.clock / INTERVAL + ENTRIES;
    && (t.requestTime < t.clock ==> after == booked)
    && (t.clock <= t.requestTime && end <= first < t.clock / INTERVAL + 0x1_0000_0000 ==> after == booked)
    && (t.clock <= t.requestTime && first < end ==>
          forall units: nat, last: nat | HeldBy(t.length, units) && EndsAt(booked, max, first, end, units, last) ::
            && (forall x: nat | x < first || last < x :: At(after, x) == At(booked, x))
            && (forall x: nat | first <= x < last :: At(after, x) == max)
            && (if units <= Free(booked, max, first, end)
                then Free(after, max, first, end) == Free(booked, max, first, end) - units
                else Free(after, max, first, end) == 0))
  }

  /** There is always such an interval. */
  lemma EndExists(booked: map<nat, nat>, max: nat, first: nat, end: nat, units: nat) returns (last: nat)
    requires Within(booked, max) && first < end
    ensures EndsAt(booked, max, first, end, units, last) && last == Book(booked, max, first, end, units).last
  {
    BookIsFirstFit(booked, max, first, end, units);
    last := Book(booked, max, first, end, units).last;
  }

  lemma EndOfBooking(booked: map<nat, nat>, max: nat, first: nat, end: nat, length: nat)
    requires Within(booked, max) && first < end
    ensures forall units: nat, last: nat | HeldBy(length, units) && EndsAt(booked, max, first, end, units, last) ::
              units == UnitsOf(length) && last == Book(booked, max, first, end, UnitsOf(length)).last
  {
    hide Book, At, HeldBy, EndsAt;
    forall units: nat, last: nat | HeldBy(length, units) && EndsAt(booked, max, first, end, units, last)
      ensures units == UnitsOf(length) && last == Book(booked, max, first, end, UnitsOf(length)).last
    {
      UnitsHold(length, units);
      var end0 := EndExists(booked, max, first, end, units);
      EndIsUnique(booked, max, first, end, units, last, end0);
    }
  }

  /** The answers are those the free credits demand. */
  lemma AnswersExactly(booked: map<nat, nat>, max: nat, xferLat: nat, t: Transfer)
    requires Within(booked, max) && max > 0
    ensures AnsweredFrom(booked, max, xferLat, t, AnswerOf(booked, max, xferLat, t))
  {
    hide Book, At;
    var first, end := t.requestTime / INTERVAL, t.clock / INTERVAL + ENTRIES;
    if t.clock <= t.requestTime && first < t.clock / INTERVAL + 0x1_0000_0000 {
      OffsetIsExact(t.clock, t.requestTime);
      if first < end {
        EndOfBooking(booked, max, first, end, t.length);
      }
    }
  }

  /** The bookings are those the free credits demand. */
  lemma BooksExactly(booked: map<nat, nat>, max: nat, t: Transfer)
    requires Within(booked, max)
    ensures BookedFrom(booked, max, t, Booked(booked, max, t))
  {
    hide Book, At, Free;
    var first, end := t.requestTime / INTERVAL, t.clock / INTERVAL + ENTRIES;
    if t.clock <= t.requestTime && first < t.clock / INTERVAL + 0x1_0000_0000 {
      OffsetIsExact(t.clock, t.requestTime);
      if first < end {
        EndOfBooking(booked, max, first, end, t.length);
        BookFills(booked, max, first, end, UnitsOf(t.length));
        BookConserves(booked, max, first, end, UnitsOf(t.length));
        BookLeaves(booked, max, first, end, UnitsOf(t.length));
        FreeIsPositive(booked, max, first, end);
      }
    }
  }

  /**
   On a channel that is idle from the requested interval to the end of the ring, a request takes its own time
   only.
   */
  lemma IdleFinish(booked: map<nat, nat>, max: nat, xferLat: nat, clock: nat, requestTime: nat, length: nat)
    requires Within(booked, max) && max > 0 && !OutOfReach(clock, requestTime)
    requires IdleBetween(booked, clock / INTERVAL + Offset(clock, requestTime), clock / INTERVAL + ENTRIES)
    ensures FinishOf(booked, max, xferLat, clock, requestTime, length) == requestTime + W32(xferLat * UnitsOf(length))
  {
    hide Book, At, IdleBetween;
    var base := clock / INTERVAL;
    IdleHasNoExcess(booked, max, base + Offset(clock, requestTime), base + ENTRIES, UnitsOf(length));
  }

  // ----- whole runs -----

  datatype Transfer = Transfer(clock: nat, requestTime: nat, length: nat)

  ghost function Timeline(booked: map<nat, nat>, max: nat, run: seq<Transfer>): (after: map<nat, nat>)
    requires Within(booked, max)
    ensures Within(after, max)
  {
    if run == [] then booked else
    var n := |run| - 1;
    Booked(Timeline(booked, max, run[..n]), max, run[n])
  }

  /** The timeline after one transfer. */
  ghost function Booked(booked: map<nat, nat>, max: nat, t: Transfer): (after: map<nat, nat>)
    requires Within(booked, max)
    ensures Within(after, max)
  {
    if OutOfReach(t.clock, t.requestTime) then booked else
    var base := t.clock / INTERVAL;
    BookFills(booked, max, base + Offset(t.clock, t.requestTime), base + ENTRIES, UnitsOf(t.length));
    BookingOf(booked, max, t.clock, t.requestTime, t.length).line
  }

  /** What a transfer is answered, with the timeline booked so far. */
  ghost function AnswerOf(booked: map<nat, nat>, max: nat, xferLat: nat, t: Transfer): int
    requires Within(booked, max) && max > 0
  {
    if OutOfReach(t.clock, t.requestTime) then t.requestTime
    else FinishOf(booked, max, xferLat, t.clock, t.requestTime, t.length)
  }

  function ClockBefore(start: nat, run: seq<Transfer>, i: nat): nat
    requires i <= |run|
  {
    if i == 0 then start else run[i - 1].clock
  }

  /** The clock never goes back, and 32 bits hold the intervals between consecutive requests. */
  ghost predicate ClocksOk(start: nat, run: seq<Transfer>) {
    forall i | 0 <= i < |run| ::
      ClockBefore(start, run, i) <= run[i].clock
      && run[i].clock / INTERVAL - ClockBefore(start, run, i) / INTERVAL < 0x1_0000_0000
  }

  class Channel {
    const availCredits: array<nat>
    var curTime: nat
    var head: nat
    var validLen: nat
    var maxCredits: nat
    var commandCredits: nat
    var xferLat: nat
    ghost var booked: map<nat, nat>  // every credit ever booked, by absolute interval

    ghost predicate Valid()
      reads this, availCredits
    {
      && availCredits.Length == ENTRIES && head < ENTRIES && validLen <= ENTRIES
      && 1 <= maxCredits <= 255 && commandCredits == 0
      && Ring(availCredits[..], head, maxCredits, curTime / INTERVAL, booked, validLen)
    }

    /** chmodel_init. A slot is one byte wide, so the credits of an interval must fit in it. */
    constructor (bandwidth: nat)
      requires 1 <= MaxCredits(bandwidth) <= 255
      ensures Valid() && fresh(availCredits) && booked == map[] && maxCredits == MaxCredits(bandwidth) && curTime == 0
      ensures maxCredits * XFER_SIZE * NS_PER_SEC <= bandwidth * MB * INTERVAL
              < (maxCredits + 1) * XFER_SIZE * NS_PER_SEC
      ensures xferLat * (bandwidth * MB) <= XFER_SIZE * NS_PER_SEC < (xferLat + 1) * (bandwidth * MB)
    {
      CreditsExactly(bandwidth);
      LatencyExactly(bandwidth);
      availCredits := new nat[ENTRIES];
      head, validLen, curTime, commandCredits := 0, 0, 0, 0;
      maxCredits := MaxCredits(bandwidth);
      xferLat := W32(XFER_SIZE * NS_PER_SEC / (bandwidth * MB));
      booked := map[];
      new;
      Memset(0, ENTRIES);
    }

    /** memset over part of the array. */
    method Memset(from: nat, n: nat)
      requires availCredits.Length == ENTRIES && from + n <= ENTRIES
      modifies availCredits
      ensures forall p | 0 <= p < ENTRIES ::
                availCredits[p] == if from <= p < from + n then maxCredits else old(availCredits[p])
    {
      for k := 0 to n
        invariant forall p | 0 <= p < ENTRIES ::
                    availCredits[p] == if from <= p < from + k then maxCredits else old(availCredits[p])
      {
        availCredits[from + k] := maxCredits;
      }
    }

    method RefillFromHead(offset: nat)
      requires availCredits.Length == ENTRIES && head < ENTRIES && offset <= ENTRIES
      modifies availCredits
      ensures Refilled(old(availCredits[..]), availCredits[..], head, maxCredits, offset)
    {
      if head + offset >= ENTRIES {
        Memset(head, ENTRIES - head);
        Memset(0, offset - (ENTRIES - head));
      } else {
        Memset(head, offset);
      }
    }

    /** The first step of chmodel_request: the head follows the clock and the slots it passes are refilled. */
    method MoveClock(clock: nat)
      requires Valid() && curTime <= clock
      requires ClockOk(booked, curTime / INTERVAL, validLen, clock / INTERVAL - curTime / INTERVAL)
      modifies this, availCredits
      ensures Valid() && curTime == clock
      ensures booked == old(booked) && maxCredits == old(maxCredits) && xferLat == old(xferLat)
    {
      hide Ring, ClockOk, Refilled, Slot;
      ghost var before, base, d := availCredits[..], curTime / INTERVAL, clock / INTERVAL - curTime / INTERVAL;
      var offset := W32(clock / INTERVAL - curTime / INTERVAL);
      offset := if offset < validLen then offset else validLen;
      RefillFromHead(offset);
      RingMoves(before, availCredits[..], head, maxCredits, validLen, base, booked, d);
      SlotIsModulo(head, offset);
      head := Wrap(head + offset);
      curTime := clock;
      validLen := validLen - offset;
      assert validLen <= ENTRIES;  // the source asserts this
    }

    /** chmodel_request */
    method Request(clock: nat, requestTime: nat, length: nat) returns (finish: nat)
      requires Valid() && curTime <= clock
      requires ClockOk(booked, curTime / INTERVAL, validLen, clock / INTERVAL - curTime / INTERVAL)
      modifies this, availCredits
      ensures Valid() && curTime == clock && maxCredits == old(maxCredits) && xferLat == old(xferLat)
      ensures OutOfReach(clock, requestTime) ==> finish == requestTime && booked == old(booked)
      ensures !OutOfReach(clock, requestTime) ==>
                booked == BookingOf(old(booked), maxCredits, clock, requestTime, length).line
                && finish == FinishOf(old(booked), maxCredits, xferLat, clock, requestTime, length)
      ensures AnsweredFrom(old(booked), maxCredits, xferLat, Transfer(clock, requestTime, length), finish)
      ensures BookedFrom(old(booked), maxCredits, Transfer(clock, requestTime, length), booked)
    {
      hide Ring, ClockOk, Book, AnsweredFrom, BookedFrom;
      MoveClock(clock);
      RingWithin(availCredits[..], head, maxCredits, curTime / INTERVAL, booked, validLen);
      AnswersExactly(booked, maxCredits, xferLat, Transfer(clock, requestTime, length));
      BooksExactly(booked, maxCredits, Transfer(clock, requestTime, length));
      if requestTime < clock {
        return requestTime;
      }
      var offset := W32(requestTime / INTERVAL - clock / INTERVAL);
      if offset >= ENTRIES {
        return requestTime;
      }
      var units := W32((length + XFER_SIZE - 1) / XFER_SIZE);
      var delay := Consume(offset, units + commandCredits);
      var usual := (units + commandCredits) / maxCredits;
      delay := if delay > usual then delay - usual else 0;
      var totalLatency := W32(xferLat * units) + delay * INTERVAL;
      return requestTime + totalLatency;
    }

    /** One turn of the consuming loop: the slot gives what it can. */
    method ConsumeSlot(pos: nat, remaining: nat, ghost i: nat, ghost window: nat,
        ghost larger: nat) returns (consumed: nat)
      requires availCredits.Length == ENTRIES && head < ENTRIES && i < ENTRIES && pos == Slot(head, i)
      requires Ring(availCredits[..], head, maxCredits, curTime / INTERVAL, booked, window) && window <= larger
            && i < larger
      modifies this`booked, availCredits
      ensures At(old(booked), curTime / INTERVAL + i) <= maxCredits
      ensures consumed == Take(old(booked), maxCredits, curTime / INTERVAL + i, remaining)
      ensures booked == TakeFrom(old(booked), curTime / INTERVAL + i, consumed)
      ensures Ring(availCredits[..], head, maxCredits, curTime / INTERVAL, booked, larger) && Within(booked, maxCredits)
    {
      hide Ring, Slot, At;
      consumed := if remaining <= availCredits[pos] then remaining else availCredits[pos];
      RingStep(availCredits[..], head, maxCredits, curTime / INTERVAL, booked, window, i, remaining, larger);
      booked := TakeFrom(booked, curTime / INTERVAL + i, consumed);
      ghost var was := availCredits[..];
      availCredits[pos] := availCredits[pos] - consumed;
      assert availCredits[..] == was[pos := was[pos] - consumed];
      RingWithin(availCredits[..], head, maxCredits, curTime / INTERVAL, booked, larger);
    }

    /** The consuming loop of chmodel_request, from the slot `offset` after the head; returns the slots it moved on. */
    method Consume(offset: nat, units: nat) returns (delay: nat)
      requires Valid() && offset < ENTRIES
      modifies this`validLen, this`booked, availCredits
      ensures Valid()
      ensures var base := curTime / INTERVAL;
              var b := Book(old(booked), maxCredits, base + offset, base + ENTRIES, units);
              booked == b.line && delay == b.last - (base + offset)
    {
      hide Ring, Slot, At, Book, Take, TakeFrom, Within, Wrap, WindowTo;
      var remaining, pos := units, Wrap(head + offset);
      delay := 0;
      ghost var base := curTime / INTERVAL;
      RingWithin(availCredits[..], head, maxCredits, base, booked, validLen);
      RingWindow(availCredits[..], head, maxCredits, base, booked, validLen, Max(validLen, offset));
      SlotIsModulo(head, offset);
      while true
        invariant validLen == old(validLen) && offset + delay < ENTRIES && pos == Slot(head, offset + delay)
        invariant Ring(availCredits[..], head, maxCredits, base, booked, Max(validLen, offset + delay))
        invariant Within(booked, maxCredits)
        invariant Book(booked, maxCredits, base + offset + delay, base + ENTRIES, remaining)
                  == Book(old(booked), maxCredits, base + offset, base + ENTRIES, units)
        decreases ENTRIES - delay
      {
        BookStep(booked, maxCredits, base + offset + delay, base + ENTRIES, remaining);
        var consumed := ConsumeSlot(pos, remaining, offset + delay,
                                    Max(validLen, offset + delay), Max(validLen, offset + delay + 1));
        remaining := remaining - consumed;
        NextSlot(head, offset + delay);
        if remaining != 0 {
          var next := Wrap(pos + 1);
          if next != head {
            delay := delay + 1;
            pos := next;
          } else {
            break;
          }
        } else {
          break;
        }
      }
      var length := WindowTo(head, pos);
      validLen := if length > validLen then length else validLen;
    }

    /** One transfer of a run. */
    method Answer(t: Transfer) returns (finish: nat)
      requires Valid() && Within(booked, maxCredits) && curTime <= t.clock
      requires t.clock / INTERVAL - curTime / INTERVAL < 0x1_0000_0000
      modifies this, availCredits
      ensures Valid() && curTime == t.clock && maxCredits == old(maxCredits) && xferLat == old(xferLat)
      ensures booked == Booked(old(booked), maxCredits, t)
      ensures finish == AnswerOf(old(booked), maxCredits, xferLat, t)
    {
      hide Ring, BookingOf, FinishOf;
      finish := Request(t.clock, t.requestTime, t.length);
    }

    /**
     Any run of requests books exactly what the unbounded timeline books, never more than the credits of an
     interval, and every answer is the one that timeline gives.
     */
    method Serve(run: seq<Transfer>) returns (finish: seq<nat>)
      requires Valid() && Within(booked, maxCredits) && ClocksOk(curTime, run)
      modifies this, availCredits
      ensures Valid() && maxCredits == old(maxCredits)
      ensures booked == Timeline(old(booked), maxCredits, run) && Within(booked, maxCredits)
      ensures |finish| == |run| && xferLat == old(xferLat)
      ensures forall i | 0 <= i < |run| ::
                finish[i] == AnswerOf(Timeline(old(booked), maxCredits, run[..i]), maxCredits, xferLat, run[i])
      ensures forall i | 0 <= i < |run| ::
                && AnsweredFrom(Timeline(old(booked), maxCredits, run[..i]), maxCredits, xferLat, run[i], finish[i])
                && BookedFrom(Timeline(old(booked), maxCredits, run[..i]), maxCredits, run[i],
                              Timeline(old(booked), maxCredits, run[..i + 1]))
    {
      hide Ring, ClocksOk, ClockOk, Booked, AnswerOf, Timeline, AnsweredFrom, BookedFrom;
      finish := [];
      TimelineStarts(booked, maxCredits);
      var i := 0;
      while i < |run|
        invariant 0 <= i <= |run| && Valid() && maxCredits == old(maxCredits)
        invariant curTime == ClockBefore(old(curTime), run, i)
        invariant booked == Timeline(old(booked), maxCredits, run[..i]) && |finish| == i && xferLat == old(xferLat)
        invariant forall j | 0 <= j < i ::
                    finish[j] == AnswerOf(Timeline(old(booked), maxCredits, run[..j]), maxCredits, xferLat, run[j])
      {
        var t := run[i];
        ClockStep(old(curTime), run, i);
        TimelineStep(old(booked), maxCredits, run, i);
        var answer := Answer(t);
        finish := finish + [answer];
        i := i + 1;
      }
      assert run[..i] == run;
      forall j | 0 <= j < |run|
        ensures && AnsweredFrom(Timeline(old(booked), maxCredits, run[..j]), maxCredits, xferLat, run[j], finish[j])
                && BookedFrom(Timeline(old(booked), maxCredits, run[..j]), maxCredits, run[j],
                              Timeline(old(booked), maxCredits, run[..j + 1]))
      {
        AnswersExactly(Timeline(old(booked), maxCredits, run[..j]), maxCredits, xferLat, run[j]);
        BooksExactly(Timeline(old(booked), maxCredits, run[..j]), maxCredits, run[j]);
        TimelineStep(old(booked), maxCredits, run, j);
      }
    }
  }

  lemma TimelineStarts(booked: map<nat, nat>, max: nat)
    requires Within(booked, max)
    ensures Timeline(booked, max, []) == booked
  {
  }

  lemma TimelineStep(booked: map<nat, nat>, max: nat, run: seq<Transfer>, i: nat)
    requires Within(booked, max) && i < |run|
    ensures Timeline(booked, max, run[..i + 1]) == Booked(Timeline(booked, max, run[..i]), max, run[i])
  {
    assert run[..i + 1][..i] == run[..i];
  }

  lemma ClockStep(start: nat, run: seq<Transfer>, i: nat)
    requires ClocksOk(start, run) && i < |run|
    ensures ClockBefore(start, run, i) <= run[i].clock
    ensures run[i].clock / INTERVAL - ClockBefore(start, run, i) / INTERVAL < 0x1_0000_0000
  {
  }

  /**
   A clock jump that the ring does not survive: with one transfer booked in the first interval, 2^32 intervals
   later the truncated difference is zero and the passed booking is still in the window.
   */
  method ClockJumpFails(bandwidth: nat) returns (ch: Channel)
    requires 1 <= MaxCredits(bandwidth) <= 255
    ensures ch.Valid() && ch.curTime == 0 && At(ch.booked, 0) == 1
    ensures !ClockOk(ch.booked, 0, ch.validLen, 0x1_0000_0000)
  {
    hide Ring;
    ch := new Channel(bandwidth);
    FirstBooking(ch.maxCredits);
    var _ := ch.Request(0, 0, 1);
    WindowHolds(ch.availCredits[..], ch.head, ch.maxCredits, 0, ch.booked, ch.validLen, 0);
  }

  lemma FirstBooking(max: nat)
    requires max >= 1
    ensures Within(map[], max) && At(Book(map[], max, 0, ENTRIES, 1).line, 0) == 1
    ensures !OutOfReach(0, 0) && Offset(0, 0) == 0 && UnitsOf(1) == 1
  {
  }

  /** A booked interval lies inside the window. */
  lemma WindowHolds(avail: seq<nat>, head: nat, max: nat, base: nat, booked: map<nat, nat>, window: nat, a: nat)
    requires Ring(avail, head, max, base, booked, window) && a >= base && At(booked, a) > 0
    ensures a < base + window
  {
  }
}
