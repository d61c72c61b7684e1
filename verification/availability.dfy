/**
  The machine detail report: for each of eight consecutive days, the slots
  booked inside the machine's working window (clipped to it) and the free
  gaps between them, found by a left-to-right cursor sweep.

  Intervals are read as half-open `[lo, hi)` sets of timestamps when stating
  coverage; a free gap `(cursor, s)` ends where the next busy interval starts.
 */
module Availability {
  import opened Sorting
  import opened Schedule

  /** Working window the detail report assumes when none is configured: 08:00-17:00. */
  const DefaultDayStart: TimeOfDay := 8 * Hour
  const DefaultDayEnd: TimeOfDay := 17 * Hour

  /** The report covers today and the seven following days. */
  const ReportDays: nat := 8

  /** Whether the machine has both working-day bounds set. */
  predicate Configured(m: Machine) {
    m.workdayStart.Some? && m.workdayEnd.Some?
  }

  /** The machine's working window on calendar day `day`. */
  function WorkingWindow(m: Machine, day: int): (r: Interval)
    ensures Configured(m) ==> r.lo == At(day, m.workdayStart.value) && r.hi == At(day, m.workdayEnd.value)
    ensures !Configured(m) ==> r.lo == day * Day + 8 * Hour && r.hi - r.lo == 9 * Hour
    ensures DateOf(r.lo) == day && DateOf(r.hi) == day
  {
    if Configured(m) then Interval(At(day, m.workdayStart.value), At(day, m.workdayEnd.value))
    else Interval(At(day, DefaultDayStart), At(day, DefaultDayEnd))
  }

  /** A busy interval inside the window, with the slot it comes from. */
  datatype Booking = Booking(span: Interval, slot: Slot)

  /** The start of the clipped interval, the key the busy list is sorted by. */
  function BookingStart(b: Booking): int {
    b.span.lo
  }

  /** The slot has both endpoints and a non-empty part inside `w`. */
  predicate HitsWindow(x: Slot, w: Interval) {
    x.start.Some? && x.end.Some? && Clip(x, w).lo < Clip(x, w).hi
  }

  /** The slots of a list of bookings, in order. */
  function Slots(r: seq<Booking>): (s: seq<Slot>)
    ensures |s| == |r|
    ensures forall k :: 0 <= k < |r| ==> s[k] == r[k].slot
  {
    if |r| == 0 then [] else [r[0].slot] + Slots(r[1..])
  }

  /** Clips every slot of `q` to `w` and keeps the non-empty results, in order. */
  function ClipAll(q: seq<Slot>, w: Interval): (r: seq<Booking>)
    requires forall x :: x in q ==> x.start.Some? && x.end.Some?
    ensures forall k :: 0 <= k < |r| ==> r[k].slot in q && HitsWindow(r[k].slot, w) && r[k].span == Clip(r[k].slot, w)
  {
    if |q| == 0 then []
    else
      var rest := ClipAll(q[1..], w);
      assert q == [q[0]] + q[1..];
      if HitsWindow(q[0], w) then [Booking(Clip(q[0], w), q[0])] + rest else rest
  }

  /** Each slot of `q` with a non-empty clip gives as many intervals as it occurs in `q`; other slots give none. */
  lemma {:induction false} ClipAllCount(q: seq<Slot>, w: Interval, x: Slot)
    requires forall y :: y in q ==> y.start.Some? && y.end.Some?
    ensures multiset(Slots(ClipAll(q, w)))[x] == if HitsWindow(x, w) then multiset(q)[x] else 0
  {
    if |q| > 0 {
      assert q == [q[0]] + q[1..];
      ClipAllCount(q[1..], w, x);
      var rest := ClipAll(q[1..], w);
      if HitsWindow(q[0], w) {
        var r := [Booking(Clip(q[0], w), q[0])] + rest;
        assert r[1..] == rest;
        assert Slots(r) == [q[0]] + Slots(rest);
      }
    }
  }

  /** Every slot of `q` whose clip to `w` is non-empty gives a busy interval. */
  lemma {:induction false} ClipAllComplete(q: seq<Slot>, w: Interval, x: Slot)
    requires forall y :: y in q ==> y.start.Some? && y.end.Some?
    requires x in q && HitsWindow(x, w)
    ensures exists k :: 0 <= k < |ClipAll(q, w)| && ClipAll(q, w)[k].slot == x
  {
    var r := ClipAll(q, w);
    if x == q[0] {
      assert r[0].slot == x;
    } else {
      assert q == [q[0]] + q[1..];
      ClipAllComplete(q[1..], w, x);
      var rest := ClipAll(q[1..], w);
      var k :| 0 <= k < |rest| && rest[k].slot == x;
      if HitsWindow(q[0], w) {
        assert r[k + 1].slot == x;
      } else {
        assert r[k].slot == x;
      }
    }
  }

  /** The busy intervals keep the query order `start_datetime, id` of their slots. */
  predicate InQueryOrder(r: seq<Booking>) {
    forall i, j :: 0 <= i < j < |r| ==> LexLe(r[i].slot, r[j].slot, StartKey, IdKey)
  }

  lemma {:induction false} ClipAllOrdered(q: seq<Slot>, w: Interval)
    requires forall x :: x in q ==> x.start.Some? && x.end.Some?
    requires LexSorted(q, StartKey, IdKey)
    ensures InQueryOrder(ClipAll(q, w))
    ensures SortedBy(ClipAll(q, w), BookingStart)
  {
    if |q| > 0 {
      var tail := q[1..];
      assert LexSorted(tail, StartKey, IdKey) by {
        forall i, j | 0 <= i < j < |tail|
          ensures LexLe(tail[i], tail[j], StartKey, IdKey)
        {
          assert tail[i] == q[i + 1] && tail[j] == q[j + 1];
        }
      }
      ClipAllOrdered(tail, w);
      var rest := ClipAll(tail, w);
      if HitsWindow(q[0], w) {
        var r := [Booking(Clip(q[0], w), q[0])] + rest;
        forall i, j | 0 <= i < j < |r|
          ensures LexLe(r[i].slot, r[j].slot, StartKey, IdKey) && BookingStart(r[i]) <= BookingStart(r[j])
        {
          if i == 0 {
            var y := rest[j - 1].slot;
            assert y in tail;
            var k :| 0 <= k < |tail| && tail[k] == y;
            assert q[k + 1] == y;
            assert LexLe(q[0], q[k + 1], StartKey, IdKey);
          } else {
            assert r[i] == rest[i - 1] && r[j] == rest[j - 1];
          }
        }
      }
    }
  }

  /**
    Busy intervals of machine `m` in window `w`: the slots the query returns,
    clipped to the window, empty results dropped, sorted by start.
   */
  function BusyIntervals(m: Machine, table: seq<Slot>, w: Interval): (r: seq<Booking>)
    ensures forall k :: 0 <= k < |r| ==> w.lo <= r[k].span.lo < r[k].span.hi <= w.hi
    ensures forall k :: 0 <= k < |r| ==>
      r[k].slot in table && r[k].slot.machine == Some(m.id) && HitsWindow(r[k].slot, w) && r[k].span == Clip(r[k].slot, w)
    ensures SortedBy(r, BookingStart)
    ensures InQueryOrder(r)
  {
    var q := Query(table, m.id, w.lo, w.hi);
    var clipped := ClipAll(q, w);
    ClipAllOrdered(q, w);
    SortByIdentity(clipped, BookingStart);
    SortBy(clipped, BookingStart)
  }

  /**
    Each slot of the table booked on `m` whose clip to `w` is non-empty gives
    as many busy intervals as it occurs in the table; every other slot gives none.
   */
  lemma BusyIntervalsCount(m: Machine, table: seq<Slot>, w: Interval, x: Slot)
    ensures multiset(Slots(BusyIntervals(m, table, w)))[x] ==
      if x.machine == Some(m.id) && HitsWindow(x, w) then multiset(table)[x] else 0
  {
    var q := Query(table, m.id, w.lo, w.hi);
    ClipAllOrdered(q, w);
    SortByIdentity(ClipAll(q, w), BookingStart);
    assert BusyIntervals(m, table, w) == ClipAll(q, w);
    ClipAllCount(q, w, x);
    SelectCount(table, m.id, w.lo, w.hi, x);
    assert multiset(q)[x] == multiset(Select(table, m.id, w.lo, w.hi))[x];
  }

  /**
    A slot of the table yields a busy interval of machine `m` in `w` exactly
    when it is booked on `m` and its clip to `w` is non-empty; slots that only
    touch the window, or lack an endpoint, yield none.
   */
  lemma BusyIntervalsExactly(m: Machine, table: seq<Slot>, w: Interval, x: Slot)
    ensures (exists k :: 0 <= k < |BusyIntervals(m, table, w)| && BusyIntervals(m, table, w)[k].slot == x) <==>
      x in table && x.machine == Some(m.id) && HitsWindow(x, w)
  {
    if x in table && x.machine == Some(m.id) && HitsWindow(x, w) {
      var q := Query(table, m.id, w.lo, w.hi);
      assert x in q by {
        assert Overlaps(x, m.id, w.lo, w.hi);
      }
      ClipAllComplete(q, w, x);
      ClipAllOrdered(q, w);
      SortByIdentity(ClipAll(q, w), BookingStart);
      assert BusyIntervals(m, table, w) == ClipAll(q, w);
    }
  }

  /** Some busy interval among the first `n` covers instant `t`. */
  predicate CoveredBefore(busy: seq<Booking>, n: int, t: int) {
    exists k :: 0 <= k < n && k < |busy| && busy[k].span.lo <= t < busy[k].span.hi
  }

  /** Some busy interval covers instant `t`. */
  predicate Busy(busy: seq<Booking>, t: int) {
    CoveredBefore(busy, |busy|, t)
  }

  /** Some free interval covers instant `t`. */
  predicate Free(free: seq<Interval>, t: int) {
    exists j :: 0 <= j < |free| && free[j].lo <= t < free[j].hi
  }

  /**
    `free` is the free time of window `w` around `busy`: non-empty gaps
    inside the window, strictly ascending with busy time between consecutive
    gaps, covering exactly the instants of the window no busy interval covers.
   */
  predicate IsFreeList(free: seq<Interval>, busy: seq<Booking>, w: Interval) {
    && (forall j :: 0 <= j < |free| ==> w.lo <= free[j].lo < free[j].hi <= w.hi)
    && (forall i, j :: 0 <= i < j < |free| ==> free[i].hi < free[j].lo)
    && (forall t :: w.lo <= t < w.hi ==> (Free(free, t) <==> !Busy(busy, t)))
  }

  /** The busy intervals lie in `w`, non-empty, sorted by start. */
  predicate WellFormedBusy(busy: seq<Booking>, w: Interval) {
    && SortedBy(busy, BookingStart)
    && (forall k :: 0 <= k < |busy| ==> w.lo <= busy[k].span.lo < busy[k].span.hi <= w.hi)
  }

  /**
    State of the sweep after the first `n` busy intervals: the cursor has
    passed all of them, the gaps emitted so far are ascending and lie before
    the cursor, and they are exactly the uncovered instants before it.
   */
  predicate Swept(busy: seq<Booking>, w: Interval, n: int, free: seq<Interval>, cursor: int) {
    && 0 <= n <= |busy|
    && w.lo <= cursor
    && (n == 0 ==> cursor == w.lo)
    && (n > 0 ==> cursor <= w.hi)
    && (forall k :: 0 <= k < n ==> busy[k].span.hi <= cursor)
    && (forall j :: 0 <= j < |free| ==> w.lo <= free[j].lo < free[j].hi < cursor && free[j].hi <= w.hi)
    && (forall a, b :: 0 <= a < b < |free| ==> free[a].hi < free[b].lo)
    && (forall t :: n > 0 && busy[n - 1].span.lo <= t < cursor ==> CoveredBefore(busy, n, t))
    && (forall t :: w.lo <= t < cursor ==> (Free(free, t) <==> !CoveredBefore(busy, n, t)))
  }

  /** Appending a gap that starts at or after `t` does not change whether `t` is free. */
  lemma FreeAppend(free: seq<Interval>, gap: Interval, t: int)
    requires t < gap.lo
    ensures Free(free + [gap], t) <==> Free(free, t)
  {
    if Free(free + [gap], t) {
      var j :| 0 <= j < |free + [gap]| && (free + [gap])[j].lo <= t < (free + [gap])[j].hi;
      assert j < |free|;
      assert free[j] == (free + [gap])[j];
    }
    if Free(free, t) {
      var j :| 0 <= j < |free| && free[j].lo <= t < free[j].hi;
      assert (free + [gap])[j] == free[j];
    }
  }

  /** After one step, an instant between the last busy start and the new cursor is covered. */
  lemma SweepStepCovered(busy: seq<Booking>, w: Interval, n: int, free: seq<Interval>, cursor: int,
                         cursor': int, t: int)
    requires WellFormedBusy(busy, w)
    requires Swept(busy, w, n, free, cursor) && n < |busy|
    requires cursor' == if busy[n].span.hi > cursor then busy[n].span.hi else cursor
    requires busy[n].span.lo <= t < cursor'
    ensures CoveredBefore(busy, n + 1, t)
  {
    if t < cursor {
      assert n > 0;
      assert BookingStart(busy[n - 1]) <= BookingStart(busy[n]);
      assert CoveredBefore(busy, n, t);
      var k :| 0 <= k < n && k < |busy| && busy[k].span.lo <= t < busy[k].span.hi;
      assert k < n + 1;
    } else {
      assert busy[n].span.lo <= t < busy[n].span.hi;
    }
  }

  /** After one step, an instant before the new cursor is free exactly when it is not covered. */
  lemma SweepStepFree(busy: seq<Booking>, w: Interval, n: int, free: seq<Interval>, cursor: int,
                      free': seq<Interval>, cursor': int, t: int)
    requires WellFormedBusy(busy, w)
    requires Swept(busy, w, n, free, cursor) && n < |busy|
    requires free' == if busy[n].span.lo > cursor then free + [Interval(cursor, busy[n].span.lo)] else free
    requires cursor' == if busy[n].span.hi > cursor then busy[n].span.hi else cursor
    requires w.lo <= t < cursor'
    ensures Free(free', t) <==> !CoveredBefore(busy, n + 1, t)
  {
    var b := busy[n].span;
    assert CoveredBefore(busy, n + 1, t) <==> CoveredBefore(busy, n, t) || b.lo <= t < b.hi;
    if t < cursor {
      if b.lo > cursor {
        FreeAppend(free, Interval(cursor, b.lo), t);
      }
    } else {
      assert !CoveredBefore(busy, n, t);
      if Free(free', t) {
        var j :| 0 <= j < |free'| && free'[j].lo <= t < free'[j].hi;
        assert j == |free|;
      }
      if t < b.lo {
        assert free'[|free|].lo <= t < free'[|free|].hi;
      }
    }
  }

  /** One step of the sweep keeps `Swept`. */
  lemma SweepStep(busy: seq<Booking>, w: Interval, n: int, free: seq<Interval>, cursor: int,
                  free': seq<Interval>, cursor': int)
    requires WellFormedBusy(busy, w)
    requires Swept(busy, w, n, free, cursor) && n < |busy|
    requires free' == if busy[n].span.lo > cursor then free + [Interval(cursor, busy[n].span.lo)] else free
    requires cursor' == if busy[n].span.hi > cursor then busy[n].span.hi else cursor
    ensures cursor <= cursor'
    ensures Swept(busy, w, n + 1, free', cursor')
  {
    var m := n + 1;
    forall t | busy[m - 1].span.lo <= t < cursor'
      ensures CoveredBefore(busy, m, t)
    {
      SweepStepCovered(busy, w, n, free, cursor, cursor', t);
    }
    forall t | w.lo <= t < cursor'
      ensures Free(free', t) <==> !CoveredBefore(busy, m, t)
    {
      SweepStepFree(busy, w, n, free, cursor, free', cursor', t);
    }
  }

  /** Appending the final gap turns `Swept` over all busy intervals into `IsFreeList`. */
  lemma SweepFinish(busy: seq<Booking>, w: Interval, free: seq<Interval>, cursor: int, free': seq<Interval>)
    requires WellFormedBusy(busy, w)
    requires Swept(busy, w, |busy|, free, cursor)
    requires free' == if cursor < w.hi then free + [Interval(cursor, w.hi)] else free
    ensures IsFreeList(free', busy, w)
  {
    forall t | w.lo <= t < w.hi
      ensures Free(free', t) <==> !Busy(busy, t)
    {
      if t < cursor {
        if cursor < w.hi {
          FreeAppend(free, Interval(cursor, w.hi), t);
        }
      } else {
        assert free'[|free|].lo <= t < free'[|free|].hi;
      }
    }
  }

  /**
    The free-interval sweep: a cursor starts at the window's start; each busy
    interval that starts after the cursor leaves a gap, and the cursor moves
    to the interval's end when that is later. What remains after the last
    busy interval is the final gap.
   */
  method FreeIntervals(busy: seq<Booking>, w: Interval) returns (free: seq<Interval>)
    requires SortedBy(busy, BookingStart)
    requires forall k :: 0 <= k < |busy| ==> w.lo <= busy[k].span.lo < busy[k].span.hi <= w.hi
    ensures IsFreeList(free, busy, w)
  {
    free := [];
    var cursor := w.lo;
    var i := 0;
    while i < |busy|
      invariant Swept(busy, w, i, free, cursor)
    {
      var b := busy[i].span;
      var free', cursor' := free, cursor;
      if b.lo > cursor {
        free' := free + [Interval(cursor, b.lo)];
      }
      if b.hi > cursor {
        cursor' := b.hi;
      }
      SweepStep(busy, w, i, free, cursor, free', cursor');
      free, cursor := free', cursor';
      i := i + 1;
    }
    var free' := free;
    if cursor < w.hi {
      free' := free + [Interval(cursor, w.hi)];
    }
    SweepFinish(busy, w, free, cursor, free');
    free := free';
  }

  /** No free interval overlaps a busy interval. */
  lemma FreeAvoidsBusy(free: seq<Interval>, busy: seq<Booking>, w: Interval, j: int, k: int)
    requires WellFormedBusy(busy, w)
    requires IsFreeList(free, busy, w)
    requires 0 <= j < |free| && 0 <= k < |busy|
    ensures free[j].hi <= busy[k].span.lo || busy[k].span.hi <= free[j].lo
  {
    var f, b := free[j], busy[k].span;
    if !(f.hi <= b.lo || b.hi <= f.lo) {
      var t := if f.lo < b.lo then b.lo else f.lo;
      assert Free(free, t);
      assert CoveredBefore(busy, |busy|, t);
      assert false;
    }
  }

  /** Non-empty intervals, strictly ascending with a gap between neighbours. */
  predicate Separated(f: seq<Interval>) {
    && (forall j :: 0 <= j < |f| ==> f[j].lo < f[j].hi)
    && (forall i, j :: 0 <= i < j < |f| ==> f[i].hi < f[j].lo)
  }

  lemma FirstIsLeast(f: seq<Interval>, t: int)
    requires Separated(f) && Free(f, t)
    ensures f[0].lo <= t
  {
    var j :| 0 <= j < |f| && f[j].lo <= t < f[j].hi;
    if j > 0 {
      assert f[0].hi < f[j].lo;
    }
  }

  lemma TailPoints(f: seq<Interval>, t: int)
    requires Separated(f) && |f| > 0
    ensures Free(f[1..], t) <==> Free(f, t) && f[0].hi <= t
  {
    if Free(f[1..], t) {
      var j :| 0 <= j < |f[1..]| && f[1..][j].lo <= t < f[1..][j].hi;
      assert f[j + 1] == f[1..][j];
      assert f[0].hi < f[j + 1].lo;
    }
    if Free(f, t) && f[0].hi <= t {
      var j :| 0 <= j < |f| && f[j].lo <= t < f[j].hi;
      assert j > 0;
      assert f[1..][j - 1] == f[j];
    }
  }

  lemma FirstEndsAgree(f: seq<Interval>, g: seq<Interval>)
    requires Separated(f) && Separated(g) && |f| > 0 && |g| > 0
    requires forall t :: Free(f, t) <==> Free(g, t)
    requires f[0].lo == g[0].lo
    ensures g[0].hi <= f[0].hi
  {
    if f[0].hi < g[0].hi {
      assert Free(g, f[0].hi);
    }
  }

  /** A separated list of intervals is determined by the instants it covers. */
  lemma {:induction false} SamePointsSameList(f: seq<Interval>, g: seq<Interval>)
    requires Separated(f) && Separated(g)
    requires forall t :: Free(f, t) <==> Free(g, t)
    ensures f == g
    decreases |f| + |g|
  {
    if |f| == 0 || |g| == 0 {
      if |f| > 0 {
        assert Free(f, f[0].lo);
      }
      if |g| > 0 {
        assert Free(g, g[0].lo);
      }
    } else {
      var f0, g0 := f[0], g[0];
      assert Free(f, f0.lo) && Free(g, g0.lo);
      FirstIsLeast(g, f0.lo);
      FirstIsLeast(f, g0.lo);
      assert f0.lo == g0.lo;
      FirstEndsAgree(f, g);
      FirstEndsAgree(g, f);
      assert f0 == g0;
      forall t
        ensures Free(f[1..], t) <==> Free(g[1..], t)
      {
        TailPoints(f, t);
        TailPoints(g, t);
      }
      SamePointsSameList(f[1..], g[1..]);
      assert f == [f0] + f[1..];
      assert g == [g0] + g[1..];
    }
  }

  /**
    `IsFreeList` admits exactly one list: the free intervals of a day are
    fully determined by its busy intervals and its window.
   */
  lemma FreeListUnique(f: seq<Interval>, g: seq<Interval>, busy: seq<Booking>, w: Interval)
    requires IsFreeList(f, busy, w) && IsFreeList(g, busy, w)
    ensures f == g
  {
    forall t
      ensures Free(f, t) <==> Free(g, t)
    {
    }
    SamePointsSameList(f, g);
  }

  /** One day of the detail report. */
  datatype DayReport = DayReport(date: int, busy: seq<Booking>, free: seq<Interval>)

  /** Busy and free intervals of machine `m` on calendar day `day`. */
  method DayBreakdown(m: Machine, table: seq<Slot>, day: int) returns (r: DayReport)
    ensures ReportsDay(m, table, day, r)
  {
    var w := WorkingWindow(m, day);
    var busy := BusyIntervals(m, table, w);
    var free := FreeIntervals(busy, w);
    r := DayReport(day, busy, free);
  }

  /** `d` is the report of machine `m` for calendar day `day`. */
  predicate ReportsDay(m: Machine, table: seq<Slot>, day: int, d: DayReport) {
    && d.date == day
    && d.busy == BusyIntervals(m, table, WorkingWindow(m, day))
    && IsFreeList(d.free, d.busy, WorkingWindow(m, day))
  }

  /** The detail report generated on day `today`: days `today` to `today + 7`. */
  method MachineDetailReport(m: Machine, table: seq<Slot>, today: int) returns (days: seq<DayReport>)
    ensures |days| == ReportDays
    ensures forall i :: 0 <= i < |days| ==> ReportsDay(m, table, today + i, days[i])
  {
    days := [];
    var i := 0;
    while i < ReportDays
      invariant 0 <= i <= ReportDays
      invariant |days| == i
      invariant forall k :: 0 <= k < i ==> ReportsDay(m, table, today + k, days[k])
    {
      var d := DayBreakdown(m, table, today + i);
      var days' := days + [d];
      forall k | 0 <= k < i + 1
        ensures ReportsDay(m, table, today + k, days'[k])
      {
        if k < i {
          assert days'[k] == days[k];
        }
      }
      days := days';
      i := i + 1;
    }
  }
}
