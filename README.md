# Business hours: a verified model

`businesshours.py` decides whether a business is open without a break over a
time range. A schedule is a list of raw entries `["<weekday>_<index>_<kind>",
"HH:MM"]`. Each entry is turned into an event `(timestamp, kind)` on a fixed
reference week: January 2000, Monday = day 15 through Sunday = day 21. The
events are then copied one period (a week) earlier and one period later and
sorted, giving a timeline. The timeline answers three questions:

- which event comes at or just before a moment;
- which events fall in a half-open range `[d1, d2)`;
- is the business open over the whole of `[d1, d2)`.

The model has four modules:

- `Wrappers` (`wrappers.dfy`): `Option` and `Result`.
- `Text` (`text.dfy`): the two pieces of Python string handling the program
  uses. These are `str.split` with a one-character separator (`Split`, with
  its inverse `Join`) and `int()` on a string (`ParseInt`: surrounding
  whitespace, an optional sign, digits with single underscores).
- `Events` (`events.dfy`): the event tuple and the order `list.sort` puts
  tuples in. Tuples compare by timestamp, then by kind name, and "close" sorts
  before "open". `Sort` is an insertion sort on this order; `SortedUnique`
  shows that every correct sort gives the same list.
- `BusinessHours` (`businesshours.dfy`): the reference-week constants,
  `transform`, `periodize` (a method with the source's loop), and the range
  queries `immediately_prior`, `event_between` and `opened_range`.

A timestamp is a whole number of minutes from 2000-01-01 00:00, so
`Minutes(day, h, m) = (day - 1) * 1440 + 60 * h + m`. Adding a whole-minute
`timedelta`, such as the default period of seven days (10080 minutes), is then
integer addition. `datetime(REF_YEAR, REF_MONTH, day, hour, minute)` is
`DateTime`, which returns `None` where the constructor raises ValueError.

`transform` returns `Result<Event, TransformError>`. Each error stands for
the Python exception named beside it (with the two exceptions listed under
Left out):

- `MissingField`: IndexError, when the entry has fewer than two strings.
- `UnknownWeekday`: KeyError from the weekday table.
- `NotAnInteger`: ValueError from `int()`.
- `TimeOutOfRange`: ValueError from the `datetime` constructor.

The bodies of `immediately_prior` (line 113) and `event_between` (line 128)
are placeholders: the first returns a fixed event, the second an empty list.
The model gives both the behaviour their doc-comments describe (lines
100-102 and 116-117), and `opened_range` is built on that behaviour, as its
doc-tests at lines 139-151 expect.

## Model

| member | source | states |
|---|---|---|
| BusinessHours.WeekdayTable | businesshours.py:71-79 | The weekday table's keys are exactly mon, tue, wed, thu, fri, sat, sun, mapped in order to days 15 through 21. |
| BusinessHours.DateTime | businesshours.py:94 | A timestamp exists exactly when the day is within January 2000 (1..31), the hour is in 0..23 and the minute in 0..59. It reads back as that day, hour and minute and lies within that day. |
| BusinessHours.Transform | businesshours.py:54-97 | An entry with fewer than two strings fails with IndexError; every event it produces lies within the reference week (day 15 00:00 to day 22 00:00). |
| BusinessHours.TransformOn | businesshours.py:86-97 | After the weekday lookup, any event produced falls on the looked-up day of the reference week. |
| BusinessHours.LabelFields | businesshours.py:84-87 | The weekday field is the longest prefix of the label without `_`, and the state field the longest suffix without `_`. Each is the whole label or is bounded by an underscore. |
| BusinessHours.ClockFields | businesshours.py:89-92 | The hour field is the longest prefix of the clock without `:`, and the minute field the longest suffix without `:`. Each is the whole clock or is bounded by a colon. |
| BusinessHours.TransformOnClock | businesshours.py:89-97 | With integer hour and minute texts, the result is TimeOutOfRange when the hour is outside 0..23 or the minute outside 0..59. Otherwise it is UnknownKind for a state other than "open" and "close", and otherwise the event at that day, hour and minute. |
| BusinessHours.TransformFields | businesshours.py:81-97 | With a weekday token and kind name as label fields and integer clock fields, the result is the event at that weekday and time, or TimeOutOfRange exactly when the time is invalid. |
| BusinessHours.TransformWellFormed | businesshours.py:81-97 | For any weekday token, index field, kind and integer hour and minute texts: the result is the event at that weekday, hour and minute, or TimeOutOfRange exactly when the hour is outside 0..23 or the minute outside 0..59. Extra strings in the entry are ignored. |
| BusinessHours.TransformRoundTrip | businesshours.py:54-97 | A label and a zero-padded `HH:MM` clock written from a weekday, kind and valid time transform back into that event; its timestamp decodes to that day, hour and minute. |
| BusinessHours.TransformClockWithoutColon | businesshours.py:89-92 | A clock with no colon is both the hour and the minute field: the result is the event at `n:n`, or TimeOutOfRange when `n` is no valid hour. |
| BusinessHours.TransformUnknownWeekday | businesshours.py:84-86 | A first label field that is not a weekday token fails with KeyError (UnknownWeekday), whatever else the entry holds. |
| BusinessHours.TransformBadHour | businesshours.py:84-91 | For any entry whose label starts with a weekday token: when the hour field (the clock up to its first colon, or the whole clock) is not an integer, the result is ValueError (NotAnInteger) naming that field. |
| BusinessHours.TransformBadMinute | businesshours.py:84-92 | For any entry whose label starts with a weekday token and whose hour field is an integer: when the minute field (the clock after its last colon, or the whole clock) is not an integer, the result is ValueError (NotAnInteger) naming that field. |
| BusinessHours.TransformUnknownKind | businesshours.py:87-96 | A valid weekday and time with a state other than "open" and "close" gives UnknownKind (see Left out). |
| BusinessHours.TransformExampleOpen | businesshours.py:67-68 | `["mon_1_open", "09:00"]` gives 2000-01-15 09:00, open. |
| BusinessHours.TransformExampleClose | businesshours.py:54-97 | `["tue_1_close", "09:00"]` gives 2000-01-16 09:00, close. |
| Text.Split | businesshours.py:84 | `split` on a one-character separator gives one piece more than there are separators; no piece contains the separator. |
| Text.JoinSplit | businesshours.py:84 | Joining the pieces of a split with the separator gives back the original string. |
| Text.SplitJoin | businesshours.py:89 | Splitting a join of separator-free pieces gives back the pieces. |
| Text.SplitAround | businesshours.py:84 | The pieces of `a + sep + b` are the pieces of `a` followed by the pieces of `b`. |
| Text.SplitHead | businesshours.py:84-89 | The first piece of a split is a prefix without the separator, and the separator follows it unless it is the whole string. |
| Text.SplitTail | businesshours.py:87-92 | The last piece of a split is a suffix without the separator, and the separator precedes it unless it is the whole string. |
| Text.Strip | businesshours.py:91-92 | The result is one contiguous stretch of the input with only whitespace before and after it, and it neither starts nor ends with whitespace: exactly the whitespace `int()` ignores at both ends is removed. |
| Text.ParseInt | businesshours.py:91-92 | A text `int()` accepts holds at least one digit, and a negative result needs a minus sign in the text. |
| Text.ParseIntOf | businesshours.py:91-92 | `int()` accepts any text of whitespace, an optional `+` or `-`, a decimal literal and whitespace, and reads it as the signed value of the literal. |
| Text.ParseIntShape | businesshours.py:91-92 | Conversely, every text `int()` accepts is such whitespace, sign, literal and whitespace, and its value is the signed literal: anything else, such as "5x", is refused. |
| Text.ParseIntDecimal | businesshours.py:91-92 | `int(str(n)) == n` for every natural number `n`. |
| Text.ParseIntNegative | businesshours.py:91-92 | `int("-" + s)` is minus the value of any decimal literal `s`. |
| Text.ParseIntPad2 | businesshours.py:91-92 | `int()` reads a zero-padded two-digit field such as "09" as its number. |
| Text.ParseIntNeedsDigit | businesshours.py:91-92 | A text with no digit at all is not an integer (ValueError). |
| Events.RankMatchesNames | businesshours.py:51 | Ordering kinds by rank agrees with Python's string order on their names: "close" < "open". |
| Events.LeTotalOrder | businesshours.py:51 | The tuple order on events is reflexive, antisymmetric, transitive and total, so sorting by it is well defined. |
| Events.Insert | businesshours.py:51 | Inserting into a sorted list keeps it sorted and adds exactly the one event. |
| Events.Sort | businesshours.py:51 | The result is sorted in tuple order and is a permutation of the input. |
| Events.SortedUnique | businesshours.py:51 | Two sorted lists with the same events are equal, so any correct sort gives `Sort`'s result. |
| BusinessHours.Triples | businesshours.py:43-50 | The list built before sorting holds three events for each input event. |
| BusinessHours.Periodized | businesshours.py:29-52 | The timeline has three events per input event, is sorted, and holds exactly the copies `e - P`, `e`, `e + P` of each input event. |
| BusinessHours.Periodize | businesshours.py:43-52 | The method's loop and sort return the sorted timeline: 3n events, sorted, a permutation of each event's `e - P`, `e`, `e + P`. |
| BusinessHours.TriplesCount | businesshours.py:43-50 | An event `x` occurs in the unsorted list as often as `x + P`, `x` and `x - P` together occur in the input. |
| BusinessHours.PeriodizedCount | businesshours.py:29-52 | The same multiplicity holds in the sorted timeline. |
| BusinessHours.PeriodizedContains | businesshours.py:29-52 | Every input event is in the timeline together with its copies one period earlier and later. |
| BusinessHours.PeriodizedOnlyShifts | businesshours.py:29-52 | Every timeline event is an input event moved by `-P`, `0` or `+P`, with its kind unchanged. |
| BusinessHours.PeriodizeExample | businesshours.py:38-40 | One open at 2000-01-15 09:00 gives opens at Jan 8, 15 and 22 09:00, in that order. |
| BusinessHours.ImmediatelyPrior | businesshours.py:99-102 | The result is an event of H at or before `d`, with the latest such timestamp. It is `None` exactly when every event of H is later than `d`. |
| BusinessHours.PriorOfSorted | businesshours.py:99-102 | On a sorted timeline, the result is the last event at or before `d`. |
| BusinessHours.PriorStable | businesshours.py:99-102 | The prior event does not change across a stretch of time holding no event. |
| BusinessHours.ImmediatelyPriorExample | businesshours.py:107-110 | On the doc-comment timeline, the prior event at 2000-01-15 08:00 is the open of Jan 8 09:00. |
| BusinessHours.EventBetween | businesshours.py:115-117 | The result is never longer than H. |
| BusinessHours.EventBetweenMembers | businesshours.py:115-117 | An event is in the result exactly when it is in H and its timestamp is in `[d1, d2)`. |
| BusinessHours.EventBetweenCount | businesshours.py:115-117 | Each event in range is kept as often as it occurs in H; events out of range do not occur. |
| BusinessHours.EventBetweenConcat | businesshours.py:115-117 | The result keeps H's order: the result for `a + b` is the result for `a` followed by the result for `b`. |
| BusinessHours.EventBetweenBlock | businesshours.py:115-117 | When the events in range are the block `h[lo..hi]`, as in a sorted timeline, the result is exactly that block. |
| BusinessHours.EventBetweenExample | businesshours.py:122-126 | On the doc-comment timeline, the range Jan 14 09:00 to Jan 16 09:00 holds only the event of Jan 15 09:00. |
| BusinessHours.Closes | businesshours.py:156 | The filtered list holds exactly the close events of its input. |
| BusinessHours.OpenedRange | businesshours.py:131-159 | True exactly when the prior event at `d1` exists and is an open, and every event in `[d1, d2)` is an open. So a close in range, or a close as prior event, gives False, and True implies an open at or before `d1`. |
| BusinessHours.OpenedRangeSplit | businesshours.py:132-134 | Continuity: open over `[d1, d2)` exactly when open over both `[d1, m)` and `[m, d2)`, for any `m` with `d1 <= m < d2`. |
| BusinessHours.OpenedRangeSorted | businesshours.py:154-158 | On a sorted timeline with the range's events at positions `lo..hi`, the result is True exactly when all of them are opens and the business is open entering `d1`: either an event falls right at `d1`, or the event just before `lo` is an open. |
| BusinessHours.PeriodizedCoversWeek | businesshours.py:29-52 | The timeline of a non-empty week has a prior event at every moment of the reference week, so `opened_range` never lacks one there. |
| BusinessHours.OpenedRangeExampleOpen | businesshours.py:139-144 | Close Jan 15 23:00, open Jan 16 05:00: open from 09:00 to 10:00 on Jan 16. |
| BusinessHours.OpenedRangeExampleClosed | businesshours.py:146-151 | Close Jan 15 20:00, open Jan 16 05:00: not open from 21:00 to 22:00 on Jan 15. |

## Left out

- `main`, argument parsing and the doc-test runner (lines 10-27 and 161-162) are command-line plumbing with no logic to model.
- Calendar arithmetic in general is not modelled. Only the `datetime` constructor's range check for January 2000 is modelled: days 1 to 31; timestamps are minutes and `timedelta`s are whole minutes. Seconds and time zones never arise. Days 15-21 of January 2000 are really Saturday to Friday; like the source, the model fixes the weekday-to-day mapping by table (lines 71-79) and never consults the calendar.
- The bodies of `immediately_prior` (line 113) and `event_between` (line 128) are placeholders and are not modelled. `ImmediatelyPrior` and `EventBetween` follow the two doc-comments instead, and `opened_range` at lines 154-158 is modelled over them.
- ImmediatelyPrior: the doc-comment leaves two cases open. When no event is at or before `d`, the model returns `None` and `opened_range` then answers False. When several events share the latest timestamp, the model picks the one that comes last in H; on a sorted timeline that puts an open after a close at the same minute.
- The doc-test at line 126 shows a bare timestamp where the function returns `(timestamp, kind)` tuples. `EventBetweenExample` states the tuple.
- The core code classifies no meals and has no guard for an empty or degenerate schedule. Nothing of the kind is modelled.
- Python's `list.sort` (Timsort) is modelled by an insertion sort. `SortedUnique` shows that the sorted result does not depend on the algorithm. Sorting in place is replaced by assigning the sorted list.
- `int()` is modelled on ASCII only: the non-ASCII digits and whitespace it also accepts are not. A base prefix cannot occur, since the base is 10.
- Transform: Python keeps any state text as the kind, so a label such as `mon_1_shut` gives `(date, "shut")`. The model has only the two kinds and returns `UnknownKind` there. That check comes last, so every Python exception is still reported first, in the source's order.
- Transform: `TimeOutOfRange` also covers the OverflowError that the `datetime` constructor at line 94 raises for an hour or minute beyond a C `int`, such as `"2147483648:00"`; integers are unbounded in the model, so the two are not told apart.
- Transform: Python 3.11 and later refuse integer strings of more than 4300 digits with ValueError at lines 91-92. The model has no such digit limit, so for an over-long hour or minute it reports `TimeOutOfRange` instead of `NotAnInteger`.
- Transform: the input is modelled as a list of strings. Non-string elements, and a `datetime` built from inputs that are not `str`, cannot be expressed.
- Text.ParseIntDecimal: states the round trip for natural numbers only. The negative case is stated separately by `Text.ParseIntNegative`, for any decimal literal.
- BusinessHours.EventBetween: its own contract only bounds the length. What it keeps, and in what order, is stated by `EventBetweenMembers`, `EventBetweenCount` and `EventBetweenConcat`.
