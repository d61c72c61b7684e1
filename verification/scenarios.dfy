/**
  Concrete days that pin both reports down on small inputs, and the
  disagreement between the two reports about a machine with no configured
  working day: the load report assumes 8 hours, the detail report a 9-hour
  window from 08:00 to 17:00.
 */
module Scenarios {
  import opened Sorting
  import opened Schedule
  import opened Load
  import opened Availability

  /** A machine without a configured working day. */
  const Lathe: Machine := Machine(1, None, None)

  /** A slot of `Lathe` for order 100 from `from` to `to` on day `day`. */
  function Booked(id: nat, day: int, from: TimeOfDay, to: TimeOfDay): Slot {
    Slot(id, 100, Some(1), Some(At(day, from)), Some(At(day, to)))
  }

  /**
    Without configured hours the load report divides by 8 hours a day while
    the detail report lays out 9 working hours.
   */
  lemma DefaultsDisagree(m: Machine, day: int)
    requires !Configured(m)
    ensures WorkdaySeconds(m) * Second == 8 * Hour
    ensures WorkingWindow(m, day).hi - WorkingWindow(m, day).lo == 9 * Hour
  {
  }

  /** A machine whose working day is configured to run overnight, 22:00 to 06:00. */
  const NightShift: Machine := Machine(2, Some(22 * Hour), Some(6 * Hour))

  /**
    An overnight working day counts as 8 hours in the load report, because the
    difference wraps past midnight. The detail report lays the same two times
    on one date, so its window ends before it starts, and every day then has
    no busy interval and no free gap.
   */
  lemma OvernightDisagree(table: seq<Slot>, day: int)
    ensures WorkdaySeconds(NightShift) * Second == 8 * Hour
    ensures var w := WorkingWindow(NightShift, day);
      && w.hi < w.lo
      && BusyIntervals(NightShift, table, w) == []
      && forall free :: IsFreeList(free, [], w) ==> free == []
  {
    var w := WorkingWindow(NightShift, day);
    InvertedWindowEmpty(BusyIntervals(NightShift, table, w), w);
    forall free: seq<Interval> | IsFreeList(free, [], w)
      ensures free == []
    {
      FreeListUnique(free, [], [], w);
    }
  }

  /** Intervals that lie inside a window cannot exist when the window ends before it starts. */
  lemma InvertedWindowEmpty(busy: seq<Booking>, w: Interval)
    requires forall k :: 0 <= k < |busy| ==> w.lo <= busy[k].span.lo < busy[k].span.hi <= w.hi
    ensures w.hi < w.lo ==> busy == []
  {
    if |busy| > 0 {
      assert w.lo <= busy[0].span.lo < busy[0].span.hi <= w.hi;
    }
  }

  /** A day whose busy time is one block strictly inside the window has exactly two gaps. */
  lemma GapsAroundBlock(busy: seq<Booking>, w: Interval, lo: int, hi: int)
    requires w.lo < lo < hi < w.hi
    requires forall t :: Busy(busy, t) <==> lo <= t < hi
    ensures forall free :: IsFreeList(free, busy, w) ==> free == [Interval(w.lo, lo), Interval(hi, w.hi)]
  {
    var expected := [Interval(w.lo, lo), Interval(hi, w.hi)];
    forall t | w.lo <= t < w.hi
      ensures Free(expected, t) <==> !Busy(busy, t)
    {
      if t < lo {
        assert expected[0].lo <= t < expected[0].hi;
      } else if t >= hi {
        assert expected[1].lo <= t < expected[1].hi;
      }
    }
    forall free | IsFreeList(free, busy, w)
      ensures free == expected
    {
      FreeListUnique(free, expected, busy, w);
    }
  }

  /** A day busy at every instant of its window has no gap. */
  lemma NoGapsWhenFull(busy: seq<Booking>, w: Interval)
    requires forall t :: w.lo <= t < w.hi ==> Busy(busy, t)
    ensures forall free :: IsFreeList(free, busy, w) ==> free == []
  {
    assert IsFreeList([], busy, w);
    forall free | IsFreeList(free, busy, w)
      ensures free == []
    {
      FreeListUnique(free, [], busy, w);
    }
  }

  /** The busy list of a table holding one slot of `Lathe` that hits the window. */
  lemma SingleBusy(x: Slot, w: Interval)
    requires x.machine == Some(Lathe.id) && HitsWindow(x, w)
    ensures BusyIntervals(Lathe, [x], w) == [Booking(Clip(x, w), x)]
    ensures forall t :: Busy(BusyIntervals(Lathe, [x], w), t) <==> Clip(x, w).lo <= t < Clip(x, w).hi
  {
    assert Overlaps(x, Lathe.id, w.lo, w.hi);
    assert Select([x], Lathe.id, w.lo, w.hi) == [x];
    assert SortBy([x], IdKey) == [x];
    assert SortBy([x], StartKey) == [x];
    assert Query([x], Lathe.id, w.lo, w.hi) == [x];
    assert ClipAll([x], w) == [Booking(Clip(x, w), x)];
    var busy := BusyIntervals(Lathe, [x], w);
    forall t | Clip(x, w).lo <= t < Clip(x, w).hi
      ensures Busy(busy, t)
    {
      assert busy[0].span.lo <= t < busy[0].span.hi;
    }
  }

  /** Two slots of `Lathe`, the second clipped inside the first, are busy exactly on the first. */
  lemma NestedPairBusy(a: Slot, b: Slot, w: Interval, t: int)
    requires a.machine == Some(Lathe.id) && HitsWindow(a, w)
    requires b.start.Some? && b.end.Some?
    requires Clip(a, w).lo <= Clip(b, w).lo && Clip(b, w).hi <= Clip(a, w).hi
    ensures Busy(BusyIntervals(Lathe, [a, b], w), t) <==> Clip(a, w).lo <= t < Clip(a, w).hi
  {
    var busy := BusyIntervals(Lathe, [a, b], w);
    if Busy(busy, t) {
      var k :| 0 <= k < |busy| && busy[k].span.lo <= t < busy[k].span.hi;
      assert busy[k].slot in [a, b];
    }
    if Clip(a, w).lo <= t < Clip(a, w).hi {
      FirstIsBusy(a, b, w, t);
    }
  }

  /** Every instant in the clip of the first slot is busy. */
  lemma FirstIsBusy(a: Slot, b: Slot, w: Interval, t: int)
    requires a.machine == Some(Lathe.id) && HitsWindow(a, w)
    requires Clip(a, w).lo <= t < Clip(a, w).hi
    ensures Busy(BusyIntervals(Lathe, [a, b], w), t)
  {
    var busy := BusyIntervals(Lathe, [a, b], w);
    BusyIntervalsExactly(Lathe, [a, b], w, a);
    var k :| 0 <= k < |busy| && busy[k].slot == a;
    assert busy[k].span.lo <= t < busy[k].span.hi;
  }

  /**
    A 09:00-11:00 booking inside the default window leaves exactly the gaps
    08:00-09:00 and 11:00-17:00.
   */
  lemma OneSlotDay(day: int)
    ensures var x := Booked(10, day, 9 * Hour, 11 * Hour);
      var w := WorkingWindow(Lathe, day);
      && BusyIntervals(Lathe, [x], w) == [Booking(Interval(At(day, 9 * Hour), At(day, 11 * Hour)), x)]
      && forall free :: IsFreeList(free, BusyIntervals(Lathe, [x], w), w) ==>
           free == [Interval(At(day, 8 * Hour), At(day, 9 * Hour)), Interval(At(day, 11 * Hour), At(day, 17 * Hour))]
  {
    var x := Booked(10, day, 9 * Hour, 11 * Hour);
    var w := WorkingWindow(Lathe, day);
    SingleBusy(x, w);
    GapsAroundBlock(BusyIntervals(Lathe, [x], w), w, At(day, 9 * Hour), At(day, 11 * Hour));
  }

  /**
    Bookings 09:00-12:00 and 10:00-11:00 overlap; the sweep treats them as one
    busy stretch and leaves exactly the gaps 08:00-09:00 and 12:00-17:00.
   */
  lemma OverlappingSlotsDay(day: int)
    ensures var a := Booked(10, day, 9 * Hour, 12 * Hour);
      var b := Booked(11, day, 10 * Hour, 11 * Hour);
      var w := WorkingWindow(Lathe, day);
      forall free :: IsFreeList(free, BusyIntervals(Lathe, [a, b], w), w) ==>
        free == [Interval(At(day, 8 * Hour), At(day, 9 * Hour)), Interval(At(day, 12 * Hour), At(day, 17 * Hour))]
  {
    var a := Booked(10, day, 9 * Hour, 12 * Hour);
    var b := Booked(11, day, 10 * Hour, 11 * Hour);
    var w := WorkingWindow(Lathe, day);
    forall t
      ensures Busy(BusyIntervals(Lathe, [a, b], w), t) <==> At(day, 9 * Hour) <= t < At(day, 12 * Hour)
    {
      NestedPairBusy(a, b, w, t);
    }
    GapsAroundBlock(BusyIntervals(Lathe, [a, b], w), w, At(day, 9 * Hour), At(day, 12 * Hour));
  }

  /**
    A machine without configured hours booked for its whole default window
    shows no free time that day, yet its load for the day reads 112%, not 100%.
   */
  lemma BookedSolidDefaultDay(day: int)
    ensures var x := Booked(10, day, 8 * Hour, 17 * Hour);
      var w := WorkingWindow(Lathe, day);
      var h := Horizon(day, 0);
      && (forall free :: IsFreeList(free, BusyIntervals(Lathe, [x], w), w) ==> free == [])
      && LoadPercent(Lathe, [x], h.lo, h.hi) == 112
  {
    var x := Booked(10, day, 8 * Hour, 17 * Hour);
    var w := WorkingWindow(Lathe, day);
    SingleBusy(x, w);
    NoGapsWhenFull(BusyIntervals(Lathe, [x], w), w);
    BookedSolidLoad(x, Horizon(day, 0));
  }

  /** Nine booked hours in one day, against the assumed eight, round half to even to 112%. */
  lemma BookedSolidLoad(x: Slot, h: Interval)
    requires x.machine == Some(Lathe.id) && x.start.Some? && x.end.Some?
    requires h.lo <= x.start.value && x.end.value <= h.hi && x.end.value - x.start.value == 9 * Hour
    requires DaysSpanned(h.lo, h.hi) == 1
    ensures LoadPercent(Lathe, [x], h.lo, h.hi) == 112
  {
    assert Select([x], Lathe.id, h.lo, h.hi) == [x];
    assert SortBy([x], IdKey) == [x];
    assert SortBy([x], StartKey) == [x];
    assert Query([x], Lathe.id, h.lo, h.hi) == [x];
    assert BusyMicros([x], h.lo, h.hi) == 9 * Hour;
    LoadPercentCases(Lathe, [x], h.lo, h.hi);
    assert RoundHalfEven(100 * (9 * Hour), Second * (DefaultWorkdaySeconds * 1)) == 112;
  }

  /**
    Two overlapping eight-hour bookings on one day load an 8-hour machine to
    200%: the percentage is not capped at 100.
   */
  lemma OverbookingExceeds100(day: int)
    ensures var a := Booked(10, day, 8 * Hour, 16 * Hour);
      var b := Booked(11, day, 8 * Hour, 16 * Hour);
      var h := Horizon(day, 0);
      LoadPercent(Lathe, [a, b], h.lo, h.hi) == 200
  {
    var a := Booked(10, day, 8 * Hour, 16 * Hour);
    var b := Booked(11, day, 8 * Hour, 16 * Hour);
    OverbookedLoad(a, b, Horizon(day, 0));
  }

  /** Sixteen booked hours in one day, against the assumed eight, give exactly 200%. */
  lemma OverbookedLoad(a: Slot, b: Slot, h: Interval)
    requires a.machine == Some(Lathe.id) && b.machine == Some(Lathe.id)
    requires a.start.Some? && a.end.Some? && b.start.Some? && b.end.Some?
    requires h.lo <= a.start.value && a.end.value <= h.hi && a.end.value - a.start.value == 8 * Hour
    requires a.start == b.start && a.end == b.end
    requires DaysSpanned(h.lo, h.hi) == 1
    ensures LoadPercent(Lathe, [a, b], h.lo, h.hi) == 200
  {
    OverbookedBusy(a, b, h);
    LoadPercentCases(Lathe, [a, b], h.lo, h.hi);
    assert RoundHalfEven(100 * (16 * Hour), Second * (DefaultWorkdaySeconds * 1)) == 200;
  }

  lemma OverbookedBusy(a: Slot, b: Slot, h: Interval)
    requires a.machine == Some(Lathe.id) && b.machine == Some(Lathe.id)
    requires a.start.Some? && a.end.Some? && b.start.Some? && b.end.Some?
    requires h.lo <= a.start.value < a.end.value <= h.hi
    requires a.start == b.start && a.end == b.end
    ensures BusyMicros(Query([a, b], Lathe.id, h.lo, h.hi), h.lo, h.hi) == 2 * (a.end.value - a.start.value)
  {
    assert [a, b][1..] == [b];
    assert Select([b], Lathe.id, h.lo, h.hi) == [b];
    assert Select([a, b], Lathe.id, h.lo, h.hi) == [a, b];
    QueryBusyMicros([a, b], Lathe.id, h.lo, h.hi);
    assert BusyMicros([b], h.lo, h.hi) == Contribution(b, h.lo, h.hi);
  }
}
