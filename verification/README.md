# Machine load and availability model

A Dafny model of the scheduling arithmetic of a small manufacturing CRM. Two
request handlers in `web/manufacture/views.py` compute on production slots
booked on machines:

- the **machine load report** (`machine_load_report`) gives, for every
  machine, the percentage of its working time that is booked today, over four
  days and over eight days, plus a green/yellow/red status for the week figure;
- the **machine detail report** (`machine_detail_report`) gives, for each of
  eight days, the machine's bookings clipped to its working window, sorted by
  start, and the free gaps between them, found by a cursor sweep.

Timestamps are integers counting microseconds of local wall-clock time (the
precision of a Python `datetime`). The calendar date of a timestamp is its
floor division by the length of a day. A time of day is a number of
microseconds after midnight. The database is a `seq<Slot>` table. The ORM
filter is a sequence filter. In it, a NULL endpoint never matches, because
SQL comparisons with NULL are false. The model's default ordering
`start_datetime, id` is a stable sort by id followed by a stable sort by
start.

Modules:

- `Sorting` (`sorting.dfy`): stable insertion sort by an integer key, with
  sortedness, permutation, "sorting a sorted sequence changes nothing" and
  lexicographic tie-breaking.
- `Schedule` (`schedule.dfy`): machines, slots, intervals, the date of a
  timestamp, and the slot query.
- `Load` (`load.dfy`): working-day length, clipped busy time, rounding, load
  percentage, horizons, status classification and the report rows.
- `Availability` (`availability.dfy`): working window, clipped busy
  intervals, the free-interval sweep and its characterisation, and the
  eight-day report.
- `Scenarios` (`scenarios.dfy`): concrete days that pin both reports down, and
  where the two reports disagree.

Points worth knowing:

- **The sweep is fully specified.** `IsFreeList` says three things. The
  gaps are non-empty and lie in the window. They are strictly ascending, with
  busy time between neighbours. An instant of the window is in a gap exactly
  when no busy interval covers it. `FreeListUnique` proves that at most one
  list satisfies this, so `FreeIntervals`' contract determines its result.
- **The busy sort at `views.py:126` never reorders anything.** The query already
  returns slots ordered by start. Clipping a start to the window
  (`max(start, day_start)`) is monotone, and dropping empty intervals keeps
  the order. So the list is sorted before the sort, and ties keep the query's
  `start_datetime, id` order (`BusyIntervals`, `ClipAllOrdered`).
- **The two reports disagree about unconfigured machines.** With no working
  hours set, the load report assumes an 8-hour day (`views.py:42`). The detail
  report lays out the 9-hour window 08:00-17:00 (`views.py:100-101`). A
  machine booked for its whole default window therefore shows no free time
  in the detail report and a load of 112% in the load report
  (`Scenarios.BookedSolidDefaultDay`).
- **They also disagree about overnight working days.** A machine configured
  to work from 22:00 to 06:00 counts as 8 hours a day in the load report,
  because `timedelta.seconds` wraps the difference past midnight
  (`views.py:37-40`). The detail report puts both times on the same date
  (`views.py:107-108`), so its window ends before it starts. Every day then
  has no busy interval and no free gap (`Scenarios.OvernightDisagree`).
- **Further facts about the code that the model keeps.**
  - The load is 0 when `available_hours == 0`. Available time is negative
    only for a range that ends on an earlier date than it starts. Such a
    range has no busy time, so its load is 0 as well (`LoadPercentCases`).
  - A configured working day is measured with `timedelta.seconds`. A window
    that ends before it starts therefore wraps around midnight, and the
    microseconds are dropped.
  - Busy intervals with equal clipped starts stay in the query order.
  - Only machines are reported. Work units have no working-day fields, and
    the code has no report for them.
  - The machines are reported in the order `Machine.objects.all()` returns
    them, which the model's `ordering` sets to type, then name.
    `MachineLoadReport` takes that sequence as given and keeps its order.

## Model

| member | source | states |
|---|---|---|
| `Schedule.Select` | web/manufacture/views.py:45-49 | A slot is selected exactly when it is in the table, is booked on the machine, has both endpoints, starts before the range end and ends after the range start (strict, so touching slots are excluded). |
| `Schedule.SelectCount` | web/manufacture/views.py:45-49 | Each matching row is returned as often as it occurs in the table, and every other row is returned zero times. |
| `Schedule.Query` | web/manufacture/models.py:110 | The query returns the selected slots (same multiset), ordered lexicographically by (start, id). |
| `Sorting.SortBy` | web/manufacture/views.py:126 | Sorting returns a permutation of its input. |
| `Sorting.SortBySorted` | web/manufacture/views.py:126 | The result of the sort is non-decreasing in its key. |
| `Sorting.SortByIdentity` | web/manufacture/views.py:126 | Sorting a sequence that is already sorted by the key returns it unchanged. |
| `Sorting.SortByLexicographic` | web/manufacture/models.py:110 | A stable sort by start of rows sorted by id yields the order (start, id): equal starts keep their id order. |
| `Load.WorkdaySeconds` | web/manufacture/views.py:36-42 | The working day is 8 hours unless both bounds are set. When set, it is the whole seconds of `end - start`, or of `end + 24h - start` when the end is earlier, so it always lies in [0, 86400). |
| `Load.Contribution` | web/manufacture/views.py:53-55 | A slot adds a non-negative amount, positive exactly when the slot, the range and their overlap are all non-empty. The amount is at most the range length, and a slot inside the range adds exactly its duration. |
| `Load.BusyMicros` | web/manufacture/views.py:51-55 | Busy time is never negative, is zero for an empty or inverted range, and is at most the number of slots times the range length. |
| `Load.BusyMicrosPermutation` | web/manufacture/views.py:52-55 | Busy time does not depend on the order in which the query returns the slots. |
| `Load.QueryBusyMicros` | web/manufacture/views.py:45-55 | Busy time summed over the ordered query result equals busy time summed over the matching rows in table order. |
| `Load.RoundHalfEven` | web/manufacture/views.py:64 | The result is a nearest integer to `p / q`. A tie goes to the even neighbour, and a non-negative ratio rounds to a non-negative integer. |
| `Load.RoundRatio` | web/manufacture/views.py:64 | For a positive divisor the result is a nearest integer to the ratio; a zero numerator gives zero for either sign of divisor. |
| `Load.RoundHalfEvenMonotone` | web/manufacture/views.py:64 | A larger numerator never rounds to a smaller integer. |
| `Load.NegativeAvailability` | web/manufacture/views.py:58-59 | Available time is negative only when the range ends before it starts. |
| `Load.LoadPercent` | web/manufacture/views.py:44-64 | Load is never negative. It is 0 when no slot overlaps the range and 0 when there is no working time. Otherwise it is the busy time over working hours times days spanned, times 100, rounded to nearest. It is not capped at 100. |
| `Load.LoadPercentCases` | web/manufacture/views.py:58-64 | Load is 0 unless the available time is positive, and then it is the rounded ratio. |
| `Load.BusyMonotone` | web/manufacture/views.py:45-55 | Adding a slot to the table never removes busy time from a range. |
| `Load.LoadMonotone` | web/manufacture/views.py:44-64 | Booking one more slot never lowers a machine's load over any range. |
| `Load.Horizon` | web/manufacture/views.py:11-20 | A horizon runs from midnight of today to the last microsecond of today + k, so `days` is k + 1: 1, 4 and 8 for the three report columns. |
| `Load.Classify` | web/manufacture/views.py:72-78 | Status is green iff week < 70, yellow iff 70 <= week < 90, red iff week >= 90. |
| `Load.ClassifyMonotone` | web/manufacture/views.py:72-78 | A heavier week never gets a milder status. |
| `Load.MachineRow` | web/manufacture/views.py:11-78 | A row carries its machine and its loads over the ranges from midnight of today to the last microsecond of today, today + 3 and today + 7. All three loads are non-negative, and the status classifies the week load. |
| `Load.MachineRowMonotone` | web/manufacture/views.py:44-78 | Booking one more slot never lowers any of a machine's three loads and never gives it a milder status. |
| `Load.MachineLoadReport` | web/manufacture/views.py:22-80 | The report has one row per machine, in machine order. |
| `Availability.WorkingWindow` | web/manufacture/views.py:94-108 | The window is the configured start/end on that date when both are set. Otherwise it is 08:00 to 17:00, nine hours. Both ends fall on that date. |
| `Availability.ClipAll` | web/manufacture/views.py:118-123 | Every interval kept is the clip of a queried slot to the window and is non-empty. |
| `Availability.ClipAllCount` | web/manufacture/views.py:118-123 | Each queried slot with a non-empty clip gives exactly as many intervals as it occurs in the query result; other slots give none. |
| `Availability.ClipAllComplete` | web/manufacture/views.py:118-123 | Every queried slot whose clip to the window is non-empty gives an interval. |
| `Availability.ClipAllOrdered` | web/manufacture/views.py:125-126 | The clipped intervals of a query result come out sorted by clipped start, still in (start, id) order of their slots. |
| `Availability.BusyIntervals` | web/manufacture/views.py:110-126 | Busy intervals are non-empty and lie in the window. Each is the clip of a slot of this machine from the table. They are sorted by start, and ties keep the query order. |
| `Availability.BusyIntervalsExactly` | web/manufacture/views.py:110-123 | A slot gives a busy interval exactly when it is booked on the machine and its clip to the window is non-empty. |
| `Availability.BusyIntervalsCount` | web/manufacture/views.py:110-123 | A slot of the table booked on the machine with a non-empty clip gives exactly as many busy intervals as it occurs in the table; every other slot gives none. |
| `Availability.SweepStep` | web/manufacture/views.py:131-135 | One step of the sweep keeps its invariant. The cursor never decreases and passes every busy end seen so far. Gaps stay ascending and behind the cursor. An instant before the cursor is in a gap exactly when no busy interval seen so far covers it. |
| `Availability.SweepFinish` | web/manufacture/views.py:136-137 | Adding the final gap from the cursor to the window end completes the free list. |
| `Availability.FreeIntervals` | web/manufacture/views.py:128-137 | The sweep returns the free list (`IsFreeList`). Gaps are non-empty, lie in the window and are strictly ascending. An instant of the window is free exactly when no busy interval covers it, so free and busy time together cover the window. |
| `Availability.FreeAvoidsBusy` | web/manufacture/views.py:128-137 | No free interval overlaps any busy interval. |
| `Availability.FreeListUnique` | web/manufacture/views.py:128-137 | At most one list satisfies `IsFreeList` for a given busy list and window. |
| `Availability.DayBreakdown` | web/manufacture/views.py:106-143 | A day's entry has its date, the busy intervals of that day's window and the free list around them. |
| `Availability.MachineDetailReport` | web/manufacture/views.py:103-143 | The report has exactly 8 entries, for days today to today + 7, each a correct breakdown of that day. |
| `Scenarios.DefaultsDisagree` | web/manufacture/views.py:36-101 | Without configured hours the load report assumes 8 hours while the detail window is 9 hours long. |
| `Scenarios.OvernightDisagree` | web/manufacture/views.py:36-137 | A 22:00-06:00 working day counts as 8 hours in the load report, while the detail window for that machine ends before it starts and yields no busy interval and no free gap. |
| `Scenarios.OneSlotDay` | web/manufacture/views.py:118-137 | A 09:00-11:00 booking gives busy [(09:00, 11:00)] and free [(08:00, 09:00), (11:00, 17:00)]. |
| `Scenarios.OverlappingSlotsDay` | web/manufacture/views.py:128-137 | Overlapping bookings 09:00-12:00 and 10:00-11:00 give free [(08:00, 09:00), (12:00, 17:00)]. |
| `Scenarios.BookedSolidDefaultDay` | web/manufacture/views.py:36-137 | A machine without configured hours, booked 08:00-17:00, has no free time that day but a day load of 112%. |
| `Scenarios.OverbookedLoad` | web/manufacture/views.py:51-64 | For a machine without configured hours, two identical 8-hour bookings inside a one-day range give a load of exactly 200%: the load is not capped at 100. |

## Left out

- Django ORM calls, `get_object_or_404` and template rendering. Queries are
  filters over a slot table, and the reports return plain data.
- `datetime.now`, `make_aware` and time zones. "Today" is a day-number
  parameter, timestamps are local wall-clock microseconds, and daylight-saving
  shifts are not modelled.
- LoadPercent: rounds the exact ratio `busy * 100 / (workday * days)` half to
  even. The source computes it in IEEE floating point before `round`, so at an
  exact or near tie the source can differ from the model by one.
- Python truthiness of `workday_start` and `workday_end`. A `time` is always
  true since Python 3.5, so the test means "both are set", and the model reads
  it that way.
- Work-unit load. The handlers only report on machines, and work units have
  no working-day fields.
- Model-field declarations, choice enumerations, admin configuration, URL
  routing, order totals and line-item prices in `web/crm/models.py`, and the
  demo-data seeding and superuser commands. These are declarative framework
  configuration or database I/O with no interval arithmetic.
- Failures of the database fetch. The model has no storage layer that can
  fail.
