/**
  Data model of the production schedule: machines with an optional working
  day, production slots booked on them, and the database query that selects
  the slots overlapping a time range.

  Timestamps are integers counting microseconds of local wall-clock time (the
  precision of a Python `datetime`); the calendar date of a timestamp is its
  floor division by the length of a day.
 */
module Schedule {
  import opened Sorting

  datatype Option<T> = None | Some(value: T)

  /** Microseconds in a second, an hour and a day. */
  const Second: int := 1_000_000
  const Hour: int := 3600 * Second
  const Day: int := 24 * Hour

  /** A time of day (a Python `time`), in microseconds after midnight. */
  type TimeOfDay = t: int | 0 <= t < Day

  /** A machine; its working day is configured only when both bounds are set. */
  datatype Machine = Machine(id: nat, workdayStart: Option<TimeOfDay>, workdayEnd: Option<TimeOfDay>)

  /**
    A production slot: a booking of an order on a machine. The machine and
    both endpoints are nullable columns.
   */
  datatype Slot = Slot(id: nat, order: nat, machine: Option<nat>, start: Option<int>, end: Option<int>)

  /** A pair of timestamps. */
  datatype Interval = Interval(lo: int, hi: int)

  function Max(a: int, b: int): int {
    if a > b then a else b
  }

  function Min(a: int, b: int): int {
    if a < b then a else b
  }

  /**
    A slot with both endpoints clipped to `w`: the later of the two starts and
    the earlier of the two ends (`max(start, lo)`, `min(end, hi)`).
   */
  function Clip(x: Slot, w: Interval): Interval
    requires x.start.Some? && x.end.Some?
  {
    Interval(Max(x.start.value, w.lo), Min(x.end.value, w.hi))
  }

  /** Calendar day number of a timestamp (`datetime.date()`). */
  function DateOf(t: int): int {
    t / Day
  }

  /** First instant of day number `d` combined with time of day `tod` (`datetime.combine`). */
  function At(d: int, tod: TimeOfDay): int {
    d * Day + tod
  }

  /**
    The filter `machine=m, start_datetime__lt=hi, end_datetime__gt=lo`: a
    comparison with a NULL column is false, so a slot without an endpoint
    never matches.
   */
  predicate Overlaps(x: Slot, machine: nat, lo: int, hi: int) {
    && x.machine == Some(machine)
    && x.start.Some? && x.end.Some?
    && x.start.value < hi && x.end.value > lo
  }

  /** The rows of `table` that satisfy the filter, in table order. */
  function Select(table: seq<Slot>, machine: nat, lo: int, hi: int): (r: seq<Slot>)
    ensures forall x :: x in r <==> x in table && Overlaps(x, machine, lo, hi)
    ensures |r| <= |table|
  {
    if |table| == 0 then []
    else
      var rest := Select(table[1..], machine, lo, hi);
      assert table == [table[0]] + table[1..];
      if Overlaps(table[0], machine, lo, hi) then [table[0]] + rest else rest
  }

  /** Each matching row is selected as often as it occurs in the table, and no other row is. */
  lemma {:induction false} SelectCount(table: seq<Slot>, machine: nat, lo: int, hi: int, x: Slot)
    ensures multiset(Select(table, machine, lo, hi))[x] == if Overlaps(x, machine, lo, hi) then multiset(table)[x] else 0
  {
    if |table| > 0 {
      assert table == [table[0]] + table[1..];
      SelectCount(table[1..], machine, lo, hi, x);
    }
  }

  /** Sort key `start_datetime`; only rows with a start reach a sort. */
  function StartKey(x: Slot): int {
    if x.start.Some? then x.start.value else 0
  }

  /** Sort key `id` (the primary key). */
  function IdKey(x: Slot): int {
    x.id
  }

  /**
    The query result in the model's default ordering `start_datetime, id`:
    a stable sort by start of the rows already sorted by id.
   */
  function Query(table: seq<Slot>, machine: nat, lo: int, hi: int): (r: seq<Slot>)
    ensures multiset(r) == multiset(Select(table, machine, lo, hi))
    ensures forall x :: x in r <==> x in table && Overlaps(x, machine, lo, hi)
    ensures LexSorted(r, StartKey, IdKey)
  {
    var rows := Select(table, machine, lo, hi);
    var byId := SortBy(rows, IdKey);
    SortBySorted(rows, IdKey);
    SortByLexicographic(byId, StartKey, IdKey);
    var r := SortBy(byId, StartKey);
    assert forall x :: x in r <==> x in multiset(rows);
    r
  }
}
