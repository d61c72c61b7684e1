/**
  The machine load report: for every machine, the percentage of its working
  time that is booked today, over the next three days and over the next week,
  and a traffic-light status for the week figure.
 */
module Load {
  import opened Schedule

  /** Length of the working day the load report assumes when none is configured. */
  const DefaultWorkdaySeconds: int := 8 * 3600

  /**
    Length of the machine's working day in whole seconds. A configured day is
    `workday_end - workday_start` on a common date, read through
    `timedelta.seconds`: the difference is taken modulo a day (so a window that
    ends before it starts wraps past midnight) and the microseconds are dropped.
   */
  function WorkdaySeconds(m: Machine): (r: int)
    ensures 0 <= r < 86400
    ensures !(m.workdayStart.Some? && m.workdayEnd.Some?) ==> r == DefaultWorkdaySeconds
    ensures m.workdayStart.Some? && m.workdayEnd.Some? && m.workdayStart.value <= m.workdayEnd.value ==>
      r * Second <= m.workdayEnd.value - m.workdayStart.value < (r + 1) * Second
    ensures m.workdayStart.Some? && m.workdayEnd.Some? && m.workdayEnd.value < m.workdayStart.value ==>
      r * Second <= m.workdayEnd.value + Day - m.workdayStart.value < (r + 1) * Second
  {
    if m.workdayStart.Some? && m.workdayEnd.Some? then
      ((m.workdayEnd.value - m.workdayStart.value) % Day) / Second
    else
      DefaultWorkdaySeconds
  }

  /**
    Busy microseconds one matching slot adds to the range `[lo, hi]`: the slot
    clipped to the range, or nothing when the clipped slot is empty or inverted.
   */
  function Contribution(x: Slot, lo: int, hi: int): (r: int)
    requires x.start.Some? && x.end.Some?
    ensures r >= 0
    ensures r > 0 <==> x.start.value < x.end.value && x.start.value < hi && lo < x.end.value && lo < hi
    ensures r <= if lo < hi then hi - lo else 0
    ensures lo <= x.start.value <= x.end.value <= hi ==> r == x.end.value - x.start.value
  {
    var c := Clip(x, Interval(lo, hi));
    Max(c.hi - c.lo, 0)
  }

  /** Total busy microseconds of the slots `q` within `[lo, hi]`. */
  function BusyMicros(q: seq<Slot>, lo: int, hi: int): (r: int)
    requires forall x :: x in q ==> x.start.Some? && x.end.Some?
    ensures r >= 0
    ensures hi <= lo ==> r == 0
    ensures r <= |q| * (if lo < hi then hi - lo else 0)
  {
    if |q| == 0 then 0
    else
      var length := if lo < hi then hi - lo else 0;
      assert (|q| - 1) * length + length == |q| * length;
      Contribution(q[0], lo, hi) + BusyMicros(q[1..], lo, hi)
  }

  /**
    `p / q` rounded to the nearest integer, ties to the even neighbour: the
    behaviour of Python's `round` on an exact value.
   */
  function RoundHalfEven(p: int, q: int): (r: int)
    requires q > 0
    ensures 2 * (p - r * q) <= q && 2 * (r * q - p) <= q
    ensures 2 * (p - r * q) == q || 2 * (r * q - p) == q ==> r % 2 == 0
    ensures p >= 0 ==> r >= 0
  {
    var f := p / q;
    var rem := p % q;
    assert p == f * q + rem;
    assert (f + 1) * q - p == q - rem;
    if 2 * rem < q then f
    else if 2 * rem > q then f + 1
    else if f % 2 == 0 then f
    else f + 1
  }

  /** `p / q` rounded half to even, for a divisor of either sign. */
  function RoundRatio(p: int, q: int): (r: int)
    requires q != 0
    ensures q > 0 ==> 2 * (p - r * q) <= q && 2 * (r * q - p) <= q
    ensures p == 0 ==> r == 0
  {
    if q > 0 then RoundHalfEven(p, q) else RoundHalfEven(-p, -q)
  }

  /** Number of calendar days the range touches, counting both end dates. */
  function DaysSpanned(lo: int, hi: int): int {
    DateOf(hi) - DateOf(lo) + 1
  }

  /** Working time is negative only for a range whose end lies before its start. */
  lemma NegativeAvailability(w: int, lo: int, hi: int)
    requires w >= 0
    ensures w * DaysSpanned(lo, hi) < 0 ==> hi < lo
  {
  }

  /**
    Load percentage of machine `m` over `[lo, hi]`: booked time of the
    matching slots divided by the working time of the days spanned, rounded.
    It is never negative and never capped at 100.
   */
  function LoadPercent(m: Machine, table: seq<Slot>, lo: int, hi: int): (r: int)
    ensures r >= 0
    ensures (forall x :: x in table ==> !Overlaps(x, m.id, lo, hi)) ==> r == 0
    ensures WorkdaySeconds(m) * DaysSpanned(lo, hi) == 0 ==> r == 0
    ensures WorkdaySeconds(m) * DaysSpanned(lo, hi) > 0 ==>
      var q := Second * (WorkdaySeconds(m) * DaysSpanned(lo, hi));
      var p := 100 * BusyMicros(Query(table, m.id, lo, hi), lo, hi);
      2 * (p - r * q) <= q && 2 * (r * q - p) <= q
  {
    var rows := Query(table, m.id, lo, hi);
    var busy := BusyMicros(rows, lo, hi);
    var available := WorkdaySeconds(m) * DaysSpanned(lo, hi);
    if available == 0 then 0
    else
      NegativeAvailability(WorkdaySeconds(m), lo, hi);
      assert |rows| > 0 ==> rows[0] in rows;
      RoundRatio(100 * busy, Second * available)
  }

  lemma {:induction false} BusyMicrosAppend(a: seq<Slot>, b: seq<Slot>, lo: int, hi: int)
    requires forall x :: x in a + b ==> x.start.Some? && x.end.Some?
    ensures BusyMicros(a + b, lo, hi) == BusyMicros(a, lo, hi) + BusyMicros(b, lo, hi)
  {
    if |a| == 0 {
      assert a + b == b;
    } else {
      assert (a + b)[1..] == a[1..] + b;
      BusyMicrosAppend(a[1..], b, lo, hi);
    }
  }

  /** Removing the slot at `k` takes exactly its contribution off the busy total. */
  lemma BusyMicrosRemove(b: seq<Slot>, k: int, lo: int, hi: int)
    requires forall x :: x in b ==> x.start.Some? && x.end.Some?
    requires 0 <= k < |b|
    ensures BusyMicros(b, lo, hi) == Contribution(b[k], lo, hi) + BusyMicros(b[..k] + b[k + 1..], lo, hi)
  {
    assert b == b[..k] + [b[k]] + b[k + 1..];
    BusyMicrosAppend(b[..k] + [b[k]], b[k + 1..], lo, hi);
    BusyMicrosAppend(b[..k], [b[k]], lo, hi);
    BusyMicrosAppend(b[..k], b[k + 1..], lo, hi);
  }

  /** Taking the same element off two permutations leaves permutations. */
  lemma MultisetRemove(a: seq<Slot>, b: seq<Slot>, k: int)
    requires multiset(a) == multiset(b) && |a| > 0
    requires 0 <= k < |b| && b[k] == a[0]
    ensures multiset(a[1..]) == multiset(b[..k] + b[k + 1..])
  {
    var rest := b[..k] + b[k + 1..];
    assert a == [a[0]] + a[1..];
    assert b == b[..k] + [b[k]] + b[k + 1..];
    assert multiset(a[1..]) == multiset(a) - multiset{a[0]};
    assert multiset(rest) == multiset(b) - multiset{b[k]};
  }

  /** The busy total does not depend on the order of the slots. */
  lemma {:induction false} BusyMicrosPermutation(a: seq<Slot>, b: seq<Slot>, lo: int, hi: int)
    requires forall x :: x in a ==> x.start.Some? && x.end.Some?
    requires forall x :: x in b ==> x.start.Some? && x.end.Some?
    requires multiset(a) == multiset(b)
    ensures BusyMicros(a, lo, hi) == BusyMicros(b, lo, hi)
    decreases |a|
  {
    if |a| > 0 {
      assert a[0] in multiset(b);
      var k :| 0 <= k < |b| && b[k] == a[0];
      var rest := b[..k] + b[k + 1..];
      MultisetRemove(a, b, k);
      BusyMicrosRemove(b, k, lo, hi);
      forall x | x in a[1..]
        ensures x.start.Some? && x.end.Some?
      {
        assert x in a;
      }
      forall x | x in rest
        ensures x.start.Some? && x.end.Some?
      {
        assert x in multiset(rest);
      }
      BusyMicrosPermutation(a[1..], rest, lo, hi);
    }
  }

  /** Rounding to nearest, ties to even, is monotone in the numerator. */
  lemma RoundHalfEvenMonotone(p1: int, p2: int, q: int)
    requires q > 0 && p1 <= p2
    ensures RoundHalfEven(p1, q) <= RoundHalfEven(p2, q)
  {
    DivMonotone(p1, p2, q);
    if p1 / q == p2 / q {
      DivModParts(p1, q);
      DivModParts(p2, q);
    }
  }

  lemma DivModParts(p: int, q: int)
    requires q > 0
    ensures p % q == p - (p / q) * q
  {
  }

  lemma DivMonotone(p1: int, p2: int, q: int)
    requires q > 0 && p1 <= p2
    ensures p1 / q <= p2 / q
  {
    var f1, f2 := p1 / q, p2 / q;
    if f2 < f1 {
      MulMonotone(f2 + 1, f1, q);
    }
  }

  lemma MulMonotone(a: int, b: int, q: int)
    requires a <= b && q > 0
    ensures a * q <= b * q
  {
    assert b * q - a * q == (b - a) * q;
  }

  /** The busy total of the query result is that of the filtered rows in table order. */
  lemma QueryBusyMicros(table: seq<Slot>, machine: nat, lo: int, hi: int)
    ensures BusyMicros(Query(table, machine, lo, hi), lo, hi) == BusyMicros(Select(table, machine, lo, hi), lo, hi)
  {
    BusyMicrosPermutation(Query(table, machine, lo, hi), Select(table, machine, lo, hi), lo, hi);
  }

  /** Adding a row to the table never removes busy time from a range. */
  lemma BusyMonotone(m: Machine, table: seq<Slot>, x: Slot, lo: int, hi: int)
    ensures BusyMicros(Query(table, m.id, lo, hi), lo, hi) <= BusyMicros(Query(table + [x], m.id, lo, hi), lo, hi)
  {
    var rows := Select(table, m.id, lo, hi);
    var extra := if Overlaps(x, m.id, lo, hi) then [x] else [];
    SelectAppend(table, x, m.id, lo, hi);
    QueryBusyMicros(table, m.id, lo, hi);
    QueryBusyMicros(table + [x], m.id, lo, hi);
    BusyMicrosAppend(rows, extra, lo, hi);
  }

  /**
    Booking one more slot never lowers a machine's load: adding a row to the
    table can only add busy time to any range.
   */
  lemma LoadMonotone(m: Machine, table: seq<Slot>, x: Slot, lo: int, hi: int)
    ensures LoadPercent(m, table, lo, hi) <= LoadPercent(m, table + [x], lo, hi)
  {
    var busy := BusyMicros(Query(table, m.id, lo, hi), lo, hi);
    var busy' := BusyMicros(Query(table + [x], m.id, lo, hi), lo, hi);
    BusyMonotone(m, table, x, lo, hi);
    LoadPercentCases(m, table, lo, hi);
    LoadPercentCases(m, table + [x], lo, hi);
    var available := WorkdaySeconds(m) * DaysSpanned(lo, hi);
    if available > 0 {
      RoundHalfEvenMonotone(100 * busy, 100 * busy', Second * available);
    }
  }

  /** Without positive working time the load is zero; otherwise it is the rounded ratio. */
  lemma LoadPercentCases(m: Machine, table: seq<Slot>, lo: int, hi: int)
    ensures var available := WorkdaySeconds(m) * DaysSpanned(lo, hi);
      LoadPercent(m, table, lo, hi) ==
        if available > 0 then RoundHalfEven(100 * BusyMicros(Query(table, m.id, lo, hi), lo, hi), Second * available)
        else 0
  {
    NegativeAvailability(WorkdaySeconds(m), lo, hi);
  }

  lemma {:induction false} SelectAppend(table: seq<Slot>, x: Slot, machine: nat, lo: int, hi: int)
    ensures Select(table + [x], machine, lo, hi) ==
      Select(table, machine, lo, hi) + (if Overlaps(x, machine, lo, hi) then [x] else [])
  {
    if |table| == 0 {
      assert [x][1..] == [];
    } else {
      assert (table + [x])[1..] == table[1..] + [x];
      SelectAppend(table[1..], x, machine, lo, hi);
    }
  }

  /**
    The horizon from midnight of day `today` to the last microsecond
    (`time.max`) of day `today + extraDays`.
   */
  function Horizon(today: int, extraDays: nat): (r: Interval)
    ensures r.lo == today * Day && r.hi == (today + extraDays + 1) * Day - 1
    ensures DateOf(r.lo) == today && DateOf(r.hi) == today + extraDays
    ensures DaysSpanned(r.lo, r.hi) == extraDays + 1
    ensures r.lo < r.hi
  {
    Interval(At(today, 0), At(today + extraDays, Day - 1))
  }

  /** Traffic-light status of a week load. */
  datatype Status = Green | Yellow | Red

  function Classify(week: int): (r: Status)
    ensures r == Green <==> week < 70
    ensures r == Yellow <==> 70 <= week < 90
    ensures r == Red <==> 90 <= week
  {
    if week < 70 then Green
    else if week < 90 then Yellow
    else Red
  }

  function Severity(s: Status): int {
    match s
    case Green => 0
    case Yellow => 1
    case Red => 2
  }

  /** A heavier week never gets a milder status. */
  lemma ClassifyMonotone(a: int, b: int)
    requires a <= b
    ensures Severity(Classify(a)) <= Severity(Classify(b))
  {
  }

  /** One row of the load report. */
  datatype LoadRow = LoadRow(machine: Machine, today: int, threeDays: int, week: int, status: Status)

  /** The load row of one machine for the report generated on day `today`. */
  function MachineRow(m: Machine, table: seq<Slot>, today: int): (r: LoadRow)
    ensures r.machine == m
    ensures r.today == LoadPercent(m, table, today * Day, (today + 1) * Day - 1)
    ensures r.threeDays == LoadPercent(m, table, today * Day, (today + 4) * Day - 1)
    ensures r.week == LoadPercent(m, table, today * Day, (today + 8) * Day - 1)
    ensures r.today >= 0 && r.threeDays >= 0 && r.week >= 0
    ensures r.status == Classify(r.week)
  {
    var d1 := Horizon(today, 0);
    var d4 := Horizon(today, 3);
    var d8 := Horizon(today, 7);
    var week := LoadPercent(m, table, d8.lo, d8.hi);
    LoadRow(m, LoadPercent(m, table, d1.lo, d1.hi), LoadPercent(m, table, d4.lo, d4.hi), week, Classify(week))
  }

  /** Booking one more slot never lowers a column of the row, nor softens its status. */
  lemma MachineRowMonotone(m: Machine, table: seq<Slot>, x: Slot, today: int)
    ensures MachineRow(m, table, today).today <= MachineRow(m, table + [x], today).today
    ensures MachineRow(m, table, today).threeDays <= MachineRow(m, table + [x], today).threeDays
    ensures MachineRow(m, table, today).week <= MachineRow(m, table + [x], today).week
    ensures Severity(MachineRow(m, table, today).status) <= Severity(MachineRow(m, table + [x], today).status)
  {
    LoadMonotone(m, table, x, today * Day, (today + 1) * Day - 1);
    LoadMonotone(m, table, x, today * Day, (today + 4) * Day - 1);
    LoadMonotone(m, table, x, today * Day, (today + 8) * Day - 1);
    ClassifyMonotone(MachineRow(m, table, today).week, MachineRow(m, table + [x], today).week);
  }

  /** The load report: one row per machine, in the given machine order. */
  function MachineLoadReport(machines: seq<Machine>, table: seq<Slot>, today: int): (r: seq<LoadRow>)
    ensures |r| == |machines|
    ensures forall i :: 0 <= i < |r| ==> r[i] == MachineRow(machines[i], table, today)
  {
    if |machines| == 0 then []
    else [MachineRow(machines[0], table, today)] + MachineLoadReport(machines[1..], table, today)
  }
}
