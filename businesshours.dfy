/**
  The weekly business-hours engine: raw `["<weekday>_<index>_<kind>", "HH:MM"]`
  entries become `(timestamp, kind)` events on a fixed reference week, the
  week's events are replicated one period earlier and later, and a timeline
  answers "is the business continuously open over [d1, d2)?".

  Timestamps are whole minutes from 00:00 on day 1 of the reference month, so
  `datetime` arithmetic by a `timedelta` of whole minutes is integer addition.
 */
module BusinessHours {
  import opened Wrappers
  import opened Text
  import opened Events

  // ---------------------------------------------------------------------------
  // The reference week
  // ---------------------------------------------------------------------------

  const RefYear := 2000
  const RefMonth := 1

  const MinutesPerDay := 1440

  /** The default period of `periodize`: `timedelta(days=7)`. */
  const Period := 7 * MinutesPerDay

  /** The weekday tokens, Monday first. */
  const Weekdays: seq<string> := ["mon", "tue", "wed", "thu", "fri", "sat", "sun"]

  /** The day of the reference month each weekday token stands for. */
  const WeekdayToNum: map<string, int> :=
    map["mon" := 15, "tue" := 16, "wed" := 17, "thu" := 18, "fri" := 19, "sat" := 20, "sun" := 21]

  /** The table maps exactly the seven weekday tokens, Monday to day 15 through
      Sunday to day 21. */
  lemma WeekdayTable()
    ensures WeekdayToNum.Keys == set i | 0 <= i < 7 :: Weekdays[i]
    ensures forall i :: 0 <= i < 7 ==> WeekdayToNum[Weekdays[i]] == 15 + i
    ensures forall w :: w in WeekdayToNum ==> 15 <= WeekdayToNum[w] <= 21
  {
    var keys := set i | 0 <= i < 7 :: Weekdays[i];
    assert keys == {"mon", "tue", "wed", "thu", "fri", "sat", "sun"} by {
      assert Weekdays[0] == "mon" && Weekdays[1] == "tue" && Weekdays[2] == "wed";
      assert Weekdays[3] == "thu" && Weekdays[4] == "fri" && Weekdays[5] == "sat";
      assert Weekdays[6] == "sun";
      assert "mon" in keys && "tue" in keys && "wed" in keys && "thu" in keys;
      assert "fri" in keys && "sat" in keys && "sun" in keys;
    }
  }

  lemma WeekdayDay(w: string)
    requires w in WeekdayToNum
    ensures 15 <= WeekdayToNum[w] <= 21
  {
  }

  /** The number of days of the reference month, January. */
  const DaysInRefMonth := 31

  /** The timestamp of `day` at `hour`:`minute` in the reference month. */
  function Minutes(day: int, hour: int, minute: int): Timestamp {
    (day - 1) * 1440 + hour * 60 + minute
  }

  function DayOf(t: Timestamp): int { t / 1440 + 1 }
  function HourOf(t: Timestamp): int { t % 1440 / 60 }
  function MinuteOf(t: Timestamp): int { t % 60 }

  /** `datetime(REF_YEAR, REF_MONTH, day, hour, minute)`: `None` where the
      constructor raises ValueError. A timestamp it builds reads back as the
      same day, hour and minute. */
  function DateTime(day: int, hour: int, minute: int): (r: Option<Timestamp>)
    ensures r.Some? <==> 1 <= day <= DaysInRefMonth && 0 <= hour < 24 && 0 <= minute < 60
    ensures r.Some? ==> DayOf(r.value) == day && HourOf(r.value) == hour && MinuteOf(r.value) == minute
    ensures r.Some? ==> Minutes(day, 0, 0) <= r.value < Minutes(day + 1, 0, 0)
  {
    if 1 <= day <= DaysInRefMonth && 0 <= hour < 24 && 0 <= minute < 60 then
      var t := Minutes(day, hour, minute);
      assert t % 1440 == hour * 60 + minute;
      Some(t)
    else None
  }

  /** The reference week runs from Monday (day 15) 00:00 for one period. */
  const WeekStart := Minutes(15, 0, 0)

  predicate InReferenceWeek(t: Timestamp) {
    WeekStart <= t < WeekStart + Period
  }

  // ---------------------------------------------------------------------------
  // transform
  // ---------------------------------------------------------------------------

  /** Why a raw entry could not be transformed; each stands for the Python
      exception named beside it. */
  datatype TransformError =
    | MissingField              // IndexError: fewer than two strings
    | UnknownWeekday(weekday: string)   // KeyError from the weekday table
    | NotAnInteger(text: string)        // ValueError from int()
    | TimeOutOfRange            // ValueError from the datetime constructor
    | UnknownKind(state: string)        // a state other than "open" or "close"

  function KindFromName(s: string): (r: Option<Kind>)
    ensures r.Some? ==> KindName(r.value) == s
  {
    if s == "open" then Some(Open)
    else if s == "close" then Some(Close)
    else None
  }

  lemma KindNameRoundTrip(k: Kind)
    ensures KindFromName(KindName(k)) == Some(k)
  {
  }

  /** No kind name holds the label separator. */
  lemma KindNameUnseparated(k: Kind)
    ensures '_' !in KindName(k)
  {
    match k
    case Close =>
      assert KindName(k) == ['c', 'l', 'o', 's', 'e'];
    case Open =>
      assert KindName(k) == ['o', 'p', 'e', 'n'];
  }

  /** The first and the last field of a split string. */
  datatype Fields = Fields(first: string, last: string)

  /** The weekday and the state of a label: its first and its last
      `_`-separated field. */
  function LabelFields(tag: string): (r: Fields)
    ensures r.first <= tag && '_' !in r.first
    ensures |r.first| == |tag| || tag[|r.first|] == '_'
    ensures |r.last| <= |tag| && r.last == tag[|tag| - |r.last|..] && '_' !in r.last
    ensures |r.last| == |tag| || tag[|tag| - |r.last| - 1] == '_'
  {
    var components := Split(tag, '_');
    SplitHead(tag, '_');
    SplitTail(tag, '_');
    Fields(components[0], components[|components| - 1])
  }

  /** The hour and the minute text of a clock: its first and its last
      `:`-separated field. */
  function ClockFields(clock: string): (r: Fields)
    ensures r.first <= clock && ':' !in r.first
    ensures |r.first| == |clock| || clock[|r.first|] == ':'
    ensures |r.last| <= |clock| && r.last == clock[|clock| - |r.last|..] && ':' !in r.last
    ensures |r.last| == |clock| || clock[|clock| - |r.last| - 1] == ':'
  {
    var hourComponent := Split(clock, ':');
    SplitHead(clock, ':');
    SplitTail(clock, ':');
    Fields(hourComponent[0], hourComponent[|hourComponent| - 1])
  }

  /** `transform(elem)`: the weekday is the first `_`-separated field of the
      label and the kind its last (any middle field is ignored); the hour is
      the first `:`-separated field of the clock and the minute its last. */
  function Transform(elem: seq<string>): (r: Result<Event, TransformError>)
    ensures |elem| < 2 ==> r == Err(MissingField)
    ensures r.Ok? ==> InReferenceWeek(r.value.t)
  {
    if |elem| < 2 then Err(MissingField)
    else
      var Fields(weekday, state) := LabelFields(elem[0]);
      if weekday !in WeekdayToNum then Err(UnknownWeekday(weekday))
      else
        WeekdayDay(weekday);
        TransformOn(WeekdayToNum[weekday], state, elem[1])
  }

  /** The part of `transform` after the weekday lookup: the clock of the
      entry read on `day`, with the kind named by `state`. */
  function TransformOn(day: int, state: string, clock: string): (r: Result<Event, TransformError>)
    requires 15 <= day <= 21
    ensures r.Ok? ==> DayOf(r.value.t) == day && InReferenceWeek(r.value.t)
  {
    var Fields(hourText, minuteText) := ClockFields(clock);
    var hour := ParseInt(hourText);
    if hour.None? then Err(NotAnInteger(hourText))
    else
      var minutes := ParseInt(minuteText);
      if minutes.None? then Err(NotAnInteger(minuteText))
      else
        var date := DateTime(day, hour.value, minutes.value);
        if date.None? then Err(TimeOutOfRange)
        else
          var kind := KindFromName(state);
          if kind.None? then Err(UnknownKind(state))
          else Ok(Event(date.value, kind.value))
  }

  /** A label `w_idx_s` has weekday `w` and state `s`, whatever `idx` holds. */
  lemma LabelFieldsOf(w: string, idx: string, s: string)
    requires '_' !in w && '_' !in s
    ensures LabelFields(w + "_" + idx + "_" + s) == Fields(w, s)
  {
    var tag := w + "_" + idx + "_" + s;
    assert tag == w + ['_'] + (idx + "_" + s);
    SplitFirst(w, idx + "_" + s, '_');
    assert tag == (w + "_" + idx) + ['_'] + s;
    SplitLast(w + "_" + idx, s, '_');
  }

  /** A clock `hs:ms` has hour text `hs` and minute text `ms`. */
  lemma ClockFieldsOf(hs: string, ms: string)
    requires ':' !in hs && ':' !in ms
    ensures ClockFields(hs + ":" + ms) == Fields(hs, ms)
  {
    SplitFirst(hs, ms, ':');
    SplitLast(hs, ms, ':');
  }

  /** A clock without a colon is both the hour and the minute text. */
  lemma ClockFieldsNoColon(cs: string)
    requires ':' !in cs
    ensures ClockFields(cs) == Fields(cs, cs)
  {
    SplitWithoutSeparator(cs, ':');
  }

  /** A first field that is not followed by more of the label, or is
      followed by `_`, is the weekday field. */
  lemma LabelWeekday(w: string, rest: string)
    requires '_' !in w && (rest == [] || rest[0] == '_')
    ensures LabelFields(w + rest).first == w
  {
    if rest == [] {
      assert w + rest == w;
      SplitWithoutSeparator(w, '_');
    } else {
      assert w + rest == w + ['_'] + rest[1..];
      SplitFirst(w, rest[1..], '_');
    }
  }

  lemma WeekdayToken(i: nat)
    requires i < 7
    ensures '_' !in Weekdays[i]
    ensures Weekdays[i] in WeekdayToNum && WeekdayToNum[Weekdays[i]] == 15 + i
  {
    WeekdayTable();
  }

  /** An entry whose label starts with a weekday token is read on that
      weekday's day of the reference week. */
  lemma TransformLabel(elem: seq<string>, i: nat, state: string)
    requires |elem| >= 2 && i < 7
    requires LabelFields(elem[0]) == Fields(Weekdays[i], state)
    ensures Transform(elem) == TransformOn(15 + i, state, elem[1])
  {
    WeekdayToken(i);
  }

  /** Once the hour and minute texts read as integers: the event at that
      time, TimeOutOfRange when the datetime constructor would refuse it, or
      UnknownKind for a state that names no kind. */
  lemma TransformOnClock(day: int, state: string, clock: string, hs: string, ms: string)
    requires 15 <= day <= 21
    requires ClockFields(clock) == Fields(hs, ms)
    requires ParseInt(hs).Some? && ParseInt(ms).Some?
    ensures var h, m, k := ParseInt(hs).value, ParseInt(ms).value, KindFromName(state);
      TransformOn(day, state, clock)
      == if !(0 <= h < 24 && 0 <= m < 60) then Err(TimeOutOfRange)
         else if k.None? then Err(UnknownKind(state))
         else Ok(Event(Minutes(day, h, m), k.value))
  {
  }

  /** Once the fields are known: a weekday token, a known kind and two
      integers give the event, or TimeOutOfRange when the datetime
      constructor would refuse the hour or the minute. */
  lemma TransformFields(elem: seq<string>, i: nat, k: Kind, hs: string, ms: string)
    requires |elem| >= 2 && i < 7
    requires LabelFields(elem[0]) == Fields(Weekdays[i], KindName(k))
    requires ClockFields(elem[1]) == Fields(hs, ms)
    requires ParseInt(hs).Some? && ParseInt(ms).Some?
    ensures var h, m := ParseInt(hs).value, ParseInt(ms).value;
      Transform(elem)
      == if 0 <= h < 24 && 0 <= m < 60 then Ok(Event(Minutes(15 + i, h, m), k)) else Err(TimeOutOfRange)
  {
    TransformLabel(elem, i, KindName(k));
    TransformOnClock(15 + i, KindName(k), elem[1], hs, ms);
    KindNameRoundTrip(k);
  }

  /** A well-formed entry: for any index field, hour text and minute text that
      read as integers, `transform` gives the event at that weekday, hour and
      minute, or fails exactly when the hour or minute is out of range; any
      further strings in the entry are ignored. */
  lemma TransformWellFormed(i: nat, idx: string, k: Kind, hs: string, ms: string, extra: seq<string>)
    requires i < 7
    requires ':' !in hs && ':' !in ms
    requires ParseInt(hs).Some? && ParseInt(ms).Some?
    ensures var h, m := ParseInt(hs).value, ParseInt(ms).value;
      Transform([Weekdays[i] + "_" + idx + "_" + KindName(k), hs + ":" + ms] + extra)
      == if 0 <= h < 24 && 0 <= m < 60 then Ok(Event(Minutes(15 + i, h, m), k)) else Err(TimeOutOfRange)
  {
    var tag, clock := Weekdays[i] + "_" + idx + "_" + KindName(k), hs + ":" + ms;
    var elem := [tag, clock] + extra;
    assert elem[0] == tag && elem[1] == clock;
    WeekdayToken(i);
    KindNameUnseparated(k);
    LabelFieldsOf(Weekdays[i], idx, KindName(k));
    ClockFieldsOf(hs, ms);
    TransformFields(elem, i, k, hs, ms);
  }

  /** A zero-padded field holds no clock separator. */
  lemma Pad2Unseparated(n: nat)
    requires n < 100
    ensures ':' !in Pad2(n)
  {
    var s := Pad2(n);
    assert IsDigit(s[0]) && IsDigit(s[1]);
  }

  /** Round trip: a label and a zero-padded `HH:MM` clock written from a
      weekday, a kind and a valid time transform back into that event, whose
      timestamp reads back as that day, hour and minute. */
  lemma TransformRoundTrip(i: nat, idx: string, k: Kind, h: nat, m: nat)
    requires i < 7 && h < 24 && m < 60
    ensures var r := Transform([Weekdays[i] + "_" + idx + "_" + KindName(k), Pad2(h) + ":" + Pad2(m)]);
      r == Ok(Event(Minutes(15 + i, h, m), k))
      && DayOf(r.value.t) == 15 + i && HourOf(r.value.t) == h && MinuteOf(r.value.t) == m
  {
    var hs, ms := Pad2(h), Pad2(m);
    Pad2Unseparated(h);
    Pad2Unseparated(m);
    ParseIntPad2(h);
    ParseIntPad2(m);
    TransformWellFormed(i, idx, k, hs, ms, []);
    var elem := [Weekdays[i] + "_" + idx + "_" + KindName(k), hs + ":" + ms];
    assert elem + [] == elem;
    assert DateTime(15 + i, h, m) == Some(Minutes(15 + i, h, m));
  }

  /** A clock without a colon gives the same number as both hour and minute. */
  lemma TransformClockWithoutColon(i: nat, idx: string, k: Kind, cs: string)
    requires i < 7
    requires ':' !in cs && ParseInt(cs).Some?
    ensures var n := ParseInt(cs).value;
      Transform([Weekdays[i] + "_" + idx + "_" + KindName(k), cs])
      == if 0 <= n < 24 then Ok(Event(Minutes(15 + i, n, n), k)) else Err(TimeOutOfRange)
  {
    var elem := [Weekdays[i] + "_" + idx + "_" + KindName(k), cs];
    WeekdayToken(i);
    KindNameUnseparated(k);
    LabelFieldsOf(Weekdays[i], idx, KindName(k));
    ClockFieldsNoColon(cs);
    TransformFields(elem, i, k, cs, cs);
  }

  /** A first label field that is not a weekday token fails with KeyError,
      whatever the rest of the entry holds. */
  lemma TransformUnknownWeekday(w: string, rest: string, clock: string, extra: seq<string>)
    requires '_' !in w && w !in WeekdayToNum
    requires rest == [] || rest[0] == '_'
    ensures Transform([w + rest, clock] + extra) == Err(UnknownWeekday(w))
  {
    LabelWeekday(w, rest);
  }

  /** An hour field that is not an integer fails with ValueError, whatever
      the clock holds after it and whatever else the entry holds. */
  lemma TransformBadHour(elem: seq<string>, i: nat)
    requires |elem| >= 2 && i < 7
    requires LabelFields(elem[0]).first == Weekdays[i]
    requires ParseInt(ClockFields(elem[1]).first).None?
    ensures Transform(elem) == Err(NotAnInteger(ClockFields(elem[1]).first))
  {
    WeekdayToken(i);
  }

  /** With an integer hour field, a minute field that is not an integer fails
      with ValueError. */
  lemma TransformBadMinute(elem: seq<string>, i: nat)
    requires |elem| >= 2 && i < 7
    requires LabelFields(elem[0]).first == Weekdays[i]
    requires ParseInt(ClockFields(elem[1]).first).Some?
    requires ParseInt(ClockFields(elem[1]).last).None?
    ensures Transform(elem) == Err(NotAnInteger(ClockFields(elem[1]).last))
  {
    WeekdayToken(i);
  }

  /** A state other than "open" and "close" is refused (see README). */
  lemma TransformUnknownKind(i: nat, idx: string, s: string, hs: string, ms: string)
    requires i < 7 && '_' !in s && KindFromName(s).None?
    requires ':' !in hs && ':' !in ms
    requires ParseInt(hs).Some? && 0 <= ParseInt(hs).value < 24
    requires ParseInt(ms).Some? && 0 <= ParseInt(ms).value < 60
    ensures Transform([Weekdays[i] + "_" + idx + "_" + s, hs + ":" + ms]) == Err(UnknownKind(s))
  {
    var elem := [Weekdays[i] + "_" + idx + "_" + s, hs + ":" + ms];
    WeekdayToken(i);
    LabelFieldsOf(Weekdays[i], idx, s);
    ClockFieldsOf(hs, ms);
    TransformLabel(elem, i, s);
    TransformOnClock(15 + i, s, elem[1], hs, ms);
  }

  /** The first example of the doc-comment: Monday 09:00, open. */
  lemma TransformExampleOpen()
    ensures Transform(["mon_1_open", "09:00"]) == Ok(Event(Minutes(15, 9, 0), Open))
  {
    var tag, clock := Weekdays[0] + "_" + "1" + "_" + KindName(Open), Pad2(9) + ":" + Pad2(0);
    calc {
      Transform(["mon_1_open", "09:00"]);
    == { assert tag == "mon_1_open" && clock == "09:00"; }
      Transform([tag, clock]);
    == { TransformRoundTrip(0, "1", Open, 9, 0); }
      Ok(Event(Minutes(15, 9, 0), Open));
    }
  }

  /** The second example of the doc-comment: Tuesday 09:00, close. */
  lemma TransformExampleClose()
    ensures Transform(["tue_1_close", "09:00"]) == Ok(Event(Minutes(16, 9, 0), Close))
  {
    var tag, clock := Weekdays[1] + "_" + "1" + "_" + KindName(Close), Pad2(9) + ":" + Pad2(0);
    calc {
      Transform(["tue_1_close", "09:00"]);
    == { assert tag == "tue_1_close" && clock == "09:00"; }
      Transform([tag, clock]);
    == { TransformRoundTrip(1, "1", Close, 9, 0); }
      Ok(Event(Minutes(16, 9, 0), Close));
    }
  }

  // ---------------------------------------------------------------------------
  // periodize
  // ---------------------------------------------------------------------------

  /** `(e[0] + delta, e[1])`. */
  function Shift(e: Event, delta: int): Event {
    Event(e.t + delta, e.kind)
  }

  /** The list `periodize` builds before sorting: for each event in order,
      the event one period earlier, the event, and the event one period later. */
  function Triples(events: seq<Event>, p: int): (r: seq<Event>)
    ensures |r| == 3 * |events|
  {
    if events == [] then []
    else
      var e := events[|events| - 1];
      Triples(events[..|events| - 1], p) + [Shift(e, -p), e, Shift(e, p)]
  }

  /** The timeline `periodize` returns. */
  function Periodized(events: seq<Event>, p: int): (r: seq<Event>)
    ensures |r| == 3 * |events| && Sorted(r)
    ensures multiset(r) == multiset(Triples(events, p))
  {
    Sort(Triples(events, p))
  }

  /** `periodize(events, P)`: extends the list with each event shifted by
      one period either way, then sorts it. */
  method Periodize(events: seq<Event>, p: int) returns (result: seq<Event>)
    ensures result == Periodized(events, p)
    ensures |result| == 3 * |events|
    ensures Sorted(result)
    ensures multiset(result) == multiset(Triples(events, p))
  {
    result := [];
    for i := 0 to |events|
      invariant result == Triples(events[..i], p)
    {
      var event := events[i];
      var timeEventMinus := event.t - p;
      var timeEventPlus := event.t + p;
      assert events[..i + 1][..i] == events[..i];
      result := result + [Event(timeEventMinus, event.kind), event, Event(timeEventPlus, event.kind)];
    }
    assert events[..|events|] == events;
    ghost var unsorted := result;
    result := Sort(result);
    assert |multiset(result)| == |multiset(unsorted)|;
  }

  /** How often `x` occurs in `s`. */
  function Count(s: seq<Event>, x: Event): nat { multiset(s)[x] }

  function Ind(b: bool): nat { if b then 1 else 0 }

  lemma CountLast(s: seq<Event>, x: Event)
    requires s != []
    ensures Count(s, x) == Count(s[..|s| - 1], x) + Ind(s[|s| - 1] == x)
  {
    assert s == s[..|s| - 1] + [s[|s| - 1]];
  }

  lemma CountThree(a: Event, b: Event, c: Event, x: Event)
    ensures Count([a, b, c], x) == Ind(a == x) + Ind(b == x) + Ind(c == x)
  {
    CountLast([a, b, c], x);
    assert [a, b, c][..2] == [a, b];
    CountLast([a, b], x);
    assert [a, b][..1] == [a];
    CountLast([a], x);
    assert [a][..0] == [];
  }

  lemma TripleCount(e: Event, p: int, x: Event)
    ensures Count([Shift(e, -p), e, Shift(e, p)], x) == Ind(e == Shift(x, p)) + Ind(e == x) + Ind(e == Shift(x, -p))
  {
    var a, b := Shift(e, -p), Shift(e, p);
    CountThree(a, e, b, x);
    assert (a == x) == (e == Shift(x, p));
    assert (b == x) == (e == Shift(x, -p));
  }

  lemma TriplesLast(events: seq<Event>, p: int, x: Event)
    requires events != []
    ensures var e := events[|events| - 1];
      Count(Triples(events, p), x) == Count(Triples(events[..|events| - 1], p), x) + Count([Shift(e, -p), e, Shift(e, p)], x)
  {
  }

  /** Multiplicity: an event occurs in the unsorted list as often as it
      occurs in the input shifted back by a period, unshifted, and shifted
      forward. */
  lemma {:induction false} TriplesCount(events: seq<Event>, p: int, x: Event)
    ensures Count(Triples(events, p), x)
         == Count(events, Shift(x, p)) + Count(events, x) + Count(events, Shift(x, -p))
    decreases |events|
  {
    if events != [] {
      TriplesCount(events[..|events| - 1], p, x);
      TriplesLast(events, p, x);
      TripleCount(events[|events| - 1], p, x);
      CountLast(events, x);
      CountLast(events, Shift(x, p));
      CountLast(events, Shift(x, -p));
    }
  }

  /** Multiplicity in the timeline: as in `TriplesCount`, since sorting
      keeps every event. */
  lemma PeriodizedCount(events: seq<Event>, p: int, x: Event)
    ensures Count(Periodized(events, p), x)
         == Count(events, Shift(x, p)) + Count(events, x) + Count(events, Shift(x, -p))
  {
    TriplesCount(events, p, x);
  }

  /** Every input event appears in the timeline with both of its shadows. */
  lemma PeriodizedContains(events: seq<Event>, p: int, e: Event)
    requires e in events
    ensures Shift(e, -p) in Periodized(events, p)
    ensures e in Periodized(events, p)
    ensures Shift(e, p) in Periodized(events, p)
  {
    var h := Periodized(events, p);
    PeriodizedCount(events, p, Shift(e, -p));
    PeriodizedCount(events, p, e);
    PeriodizedCount(events, p, Shift(e, p));
    assert Shift(Shift(e, -p), p) == e && Shift(Shift(e, p), -p) == e;
    assert multiset(h)[Shift(e, -p)] > 0 && multiset(h)[e] > 0 && multiset(h)[Shift(e, p)] > 0;
  }

  /** Every event of the timeline is an input event shifted by -P, 0 or +P,
      with its kind unchanged. */
  lemma PeriodizedOnlyShifts(events: seq<Event>, p: int, x: Event)
    requires x in Periodized(events, p)
    ensures Shift(x, p) in events || x in events || Shift(x, -p) in events
  {
    PeriodizedCount(events, p, x);
    assert multiset(Periodized(events, p))[x] > 0;
  }

  /** The example of the doc-comment: one event on day 15 (Monday in the table) at 09:00. */
  lemma PeriodizeExample()
    ensures Periodized([Event(Minutes(15, 9, 0), Open)], Period)
         == [Event(Minutes(8, 9, 0), Open), Event(Minutes(15, 9, 0), Open), Event(Minutes(22, 9, 0), Open)]
  {
    var e := Event(Minutes(15, 9, 0), Open);
    var expected := [Shift(e, -Period), e, Shift(e, Period)];
    assert [e][..0] == [];
    assert Triples([e], Period) == expected;
    assert Sorted(expected);
    SortedUnique(Periodized([e], Period), expected);
  }

  // ---------------------------------------------------------------------------
  // Range queries
  // ---------------------------------------------------------------------------

  /** `immediately_prior(H, d)`: the event of `H` with the latest timestamp at
      or before `d`; among several with that timestamp, the one that comes last
      in `H`. `None` when every event of `H` is later than `d`. */
  function ImmediatelyPrior(h: seq<Event>, d: Timestamp): (r: Option<Event>)
    ensures r.None? <==> forall e :: e in h ==> d < e.t
    ensures r.Some? ==> r.value in h && r.value.t <= d
    ensures r.Some? ==> forall e :: e in h && e.t <= d ==> e.t <= r.value.t
  {
    if h == [] then None
    else
      var prior := ImmediatelyPrior(h[..|h| - 1], d);
      var last := h[|h| - 1];
      assert h == h[..|h| - 1] + [last];
      if last.t <= d && (prior.None? || prior.value.t <= last.t) then Some(last) else prior
  }

  /** On a sorted timeline, the prior event is the last event at or before `d`. */
  lemma {:induction false} PriorOfSorted(h: seq<Event>, d: Timestamp, i: nat)
    requires Sorted(h)
    requires i < |h| && h[i].t <= d
    requires i + 1 == |h| || d < h[i + 1].t
    ensures ImmediatelyPrior(h, d) == Some(h[i])
    decreases |h|
  {
    var init := h[..|h| - 1];
    if i + 1 < |h| {
      assert Le(h[i + 1], h[|h| - 1]) || i + 1 == |h| - 1;
      PriorOfSorted(init, d, i);
    } else {
      var prior := ImmediatelyPrior(init, d);
      if prior.Some? {
        var j :| 0 <= j < |init| && init[j] == prior.value;
        assert Le(h[j], h[i]);
      }
    }
  }

  /** The prior event does not change across a stretch with no events. */
  lemma {:induction false} PriorStable(h: seq<Event>, d: Timestamp, d': Timestamp)
    requires d <= d'
    requires forall e :: e in h ==> !(d < e.t <= d')
    ensures ImmediatelyPrior(h, d) == ImmediatelyPrior(h, d')
    decreases |h|
  {
    if h != [] {
      var init := h[..|h| - 1];
      assert h == init + [h[|h| - 1]];
      PriorStable(init, d, d');
    }
  }

  /** `event_between(H, d1, d2)`: the events of `H` in `[d1, d2)`, in the
      order of `H`. */
  function EventBetween(h: seq<Event>, d1: Timestamp, d2: Timestamp): (r: seq<Event>)
    ensures |r| <= |h|
  {
    if h == [] then []
    else (if d1 <= h[0].t < d2 then [h[0]] else []) + EventBetween(h[1..], d1, d2)
  }

  /** The events kept are exactly the events of `H` in `[d1, d2)`. */
  lemma {:induction false} EventBetweenMembers(h: seq<Event>, d1: Timestamp, d2: Timestamp)
    ensures forall e :: e in EventBetween(h, d1, d2) <==> e in h && d1 <= e.t < d2
    decreases |h|
  {
    if h != [] {
      EventBetweenMembers(h[1..], d1, d2);
      assert h == [h[0]] + h[1..];
    }
  }

  /** Every event in range is kept as often as it occurs in `H`. */
  lemma {:induction false} EventBetweenCount(h: seq<Event>, d1: Timestamp, d2: Timestamp, x: Event)
    ensures Count(EventBetween(h, d1, d2), x) == if d1 <= x.t < d2 then Count(h, x) else 0
    decreases |h|
  {
    if h != [] {
      EventBetweenCount(h[1..], d1, d2, x);
      assert h == [h[0]] + h[1..];
    }
  }

  /** `event_between` keeps the order of `H`: it distributes over
      concatenation. */
  lemma {:induction false} EventBetweenConcat(a: seq<Event>, b: seq<Event>, d1: Timestamp, d2: Timestamp)
    ensures EventBetween(a + b, d1, d2) == EventBetween(a, d1, d2) + EventBetween(b, d1, d2)
    decreases |a|
  {
    if a != [] {
      assert (a + b)[1..] == a[1..] + b;
      EventBetweenConcat(a[1..], b, d1, d2);
    } else {
      assert a + b == b;
    }
  }

  lemma EventBetweenThree(a: seq<Event>, b: seq<Event>, c: seq<Event>, d1: Timestamp, d2: Timestamp)
    ensures EventBetween(a + b + c, d1, d2)
         == EventBetween(a, d1, d2) + EventBetween(b, d1, d2) + EventBetween(c, d1, d2)
  {
    EventBetweenConcat(a + b, c, d1, d2);
    EventBetweenConcat(a, b, d1, d2);
  }

  /** A stretch whose every event is in range is kept whole. */
  lemma {:induction false} EventBetweenAll(h: seq<Event>, d1: Timestamp, d2: Timestamp)
    requires forall j :: 0 <= j < |h| ==> d1 <= h[j].t < d2
    ensures EventBetween(h, d1, d2) == h
    decreases |h|
  {
    if h != [] {
      EventBetweenAll(h[1..], d1, d2);
      assert h == [h[0]] + h[1..];
    }
  }

  /** A stretch with no event in range contributes nothing. */
  lemma EventBetweenNone(h: seq<Event>, d1: Timestamp, d2: Timestamp)
    requires forall j :: 0 <= j < |h| ==> !(d1 <= h[j].t < d2)
    ensures EventBetween(h, d1, d2) == []
  {
  }

  /** When the events in range are the block `h[lo..hi]` (as in a sorted
      timeline), `event_between` is exactly that block. */
  lemma EventBetweenBlock(h: seq<Event>, d1: Timestamp, d2: Timestamp, lo: nat, hi: nat)
    requires lo <= hi <= |h|
    requires forall j :: 0 <= j < lo ==> h[j].t < d1
    requires forall j :: lo <= j < hi ==> d1 <= h[j].t < d2
    requires forall j :: hi <= j < |h| ==> d2 <= h[j].t
    ensures EventBetween(h, d1, d2) == h[lo..hi]
  {
    var before, block, after := h[..lo], h[lo..hi], h[hi..];
    assert h == before + block + after;
    EventBetweenThree(before, block, after, d1, d2);
    EventBetweenNone(before, d1, d2);
    EventBetweenAll(block, d1, d2);
    EventBetweenNone(after, d1, d2);
  }

  /** The close events of `events`, in order. */
  function Closes(events: seq<Event>): (r: seq<Event>)
    ensures forall e :: e in r <==> e in events && e.kind == Close
  {
    if events == [] then []
    else
      assert events == [events[0]] + events[1..];
      (if events[0].kind == Close then [events[0]] else []) + Closes(events[1..])
  }

  /** `opened_range(H, d1, d2)`: the prior event at `d1` is an open and no
      event in `[d1, d2)` is a close. */
  function OpenedRange(h: seq<Event>, d1: Timestamp, d2: Timestamp): (r: bool)
    ensures r <==>
      && ImmediatelyPrior(h, d1).Some?
      && ImmediatelyPrior(h, d1).value.kind == Open
      && forall e :: e in h && d1 <= e.t < d2 ==> e.kind == Open
    ensures (exists e :: e in h && e.kind == Close && d1 <= e.t < d2) ==> !r
    ensures ImmediatelyPrior(h, d1).Some? && ImmediatelyPrior(h, d1).value.kind == Close ==> !r
    ensures r ==> exists e :: e in h && e.t <= d1 && e.kind == Open
  {
    var prior := ImmediatelyPrior(h, d1);
    var eventsIn := EventBetween(h, d1, d2);
    EventBetweenMembers(h, d1, d2);
    var closeEventsIn := Closes(eventsIn);
    assert |closeEventsIn| == 0 <==> forall e :: e in eventsIn ==> e.kind != Close by {
      if |closeEventsIn| != 0 {
        assert closeEventsIn[0] in closeEventsIn;
      }
    }
    prior.Some? && prior.value.kind == Open && |closeEventsIn| == 0
  }

  /** Continuity: open over `[d1, d2)` exactly when open over `[d1, m)` and
      over `[m, d2)`, for any `m` in between. */
  lemma OpenedRangeSplit(h: seq<Event>, d1: Timestamp, m: Timestamp, d2: Timestamp)
    requires d1 <= m < d2
    ensures OpenedRange(h, d1, d2) <==> OpenedRange(h, d1, m) && OpenedRange(h, m, d2)
  {
    if OpenedRange(h, d1, d2) {
      var p := ImmediatelyPrior(h, d1).value;
      var q := ImmediatelyPrior(h, m).value;
      if q.t < d1 {
        forall e | e in h
          ensures !(d1 < e.t <= m)
        {
          assert e.t <= m ==> e.t <= q.t;
        }
        PriorStable(h, d1, m);
      }
    }
  }

  /** On a timeline whose events in `[d1, d2)` are the block `h[lo..hi]`,
      every event in range is an open exactly when every event of the block
      is. */
  lemma BlockAllOpen(h: seq<Event>, d1: Timestamp, d2: Timestamp, lo: nat, hi: nat)
    requires lo <= hi <= |h|
    requires forall j :: 0 <= j < lo ==> h[j].t < d1
    requires forall j :: lo <= j < hi ==> d1 <= h[j].t < d2
    requires forall j :: hi <= j < |h| ==> d2 <= h[j].t
    ensures (forall e :: e in h && d1 <= e.t < d2 ==> e.kind == Open)
       <==> (forall j :: lo <= j < hi ==> h[j].kind == Open)
  {
    if forall e :: e in h && d1 <= e.t < d2 ==> e.kind == Open {
      forall j | lo <= j < hi ensures h[j].kind == Open {
        assert h[j] in h;
      }
    }
    if forall j :: lo <= j < hi ==> h[j].kind == Open {
      forall e | e in h && d1 <= e.t < d2 ensures e.kind == Open {
        var j :| 0 <= j < |h| && h[j] == e;
      }
    }
  }

  /** On a sorted timeline, with `lo` the first position at or after `d1`:
      the prior event at `d1` is an event at `d1` when there is one, else the
      event just before `lo`, else there is none. */
  lemma PriorOnEntry(h: seq<Event>, d1: Timestamp, lo: nat)
    requires Sorted(h) && lo <= |h|
    requires forall j :: 0 <= j < lo ==> h[j].t < d1
    requires forall j :: lo <= j < |h| ==> d1 <= h[j].t
    ensures var q := ImmediatelyPrior(h, d1);
      if lo < |h| && h[lo].t == d1 then q.Some? && q.value.t == d1
      else if 0 < lo then q == Some(h[lo - 1])
      else q.None?
  {
    if lo < |h| && h[lo].t == d1 {
      assert h[lo] in h;
    } else if 0 < lo {
      PriorOfSorted(h, d1, lo - 1);
    } else {
      assert forall e :: e in h ==> d1 < e.t;
    }
  }

  /** Reference characterisation on a sorted timeline, with `lo` and `hi`
      the first positions at or after `d1` and `d2`: open over `[d1, d2)`
      exactly when every event in `h[lo..hi]` is an open, and the business
      is open on entering `d1` (an event right at `d1`, or an open just
      before it). */
  lemma OpenedRangeSorted(h: seq<Event>, d1: Timestamp, d2: Timestamp, lo: nat, hi: nat)
    requires Sorted(h) && d1 < d2
    requires lo <= hi <= |h|
    requires forall j :: 0 <= j < lo ==> h[j].t < d1
    requires forall j :: lo <= j < hi ==> d1 <= h[j].t < d2
    requires forall j :: hi <= j < |h| ==> d2 <= h[j].t
    ensures OpenedRange(h, d1, d2) <==>
      && (forall j :: lo <= j < hi ==> h[j].kind == Open)
      && ((lo < |h| && h[lo].t == d1) || (0 < lo && h[lo - 1].kind == Open))
  {
    BlockAllOpen(h, d1, d2, lo, hi);
    PriorOnEntry(h, d1, lo);
  }

  /** The periodized timeline of a non-empty week of events has a prior
      event for every moment of the reference week. */
  lemma PeriodizedCoversWeek(events: seq<Event>, d: Timestamp)
    requires events != []
    requires forall e :: e in events ==> InReferenceWeek(e.t)
    requires InReferenceWeek(d)
    ensures ImmediatelyPrior(Periodized(events, Period), d).Some?
  {
    PeriodizedContains(events, Period, events[0]);
    assert Shift(events[0], -Period).t <= d;
  }

  // ---------------------------------------------------------------------------
  // The doc-comment examples
  // ---------------------------------------------------------------------------

  lemma ImmediatelyPriorExample()
    ensures ImmediatelyPrior(
      [Event(Minutes(8, 9, 0), Open), Event(Minutes(15, 9, 0), Open), Event(Minutes(22, 9, 0), Open)],
      Minutes(15, 8, 0)) == Some(Event(Minutes(8, 9, 0), Open))
  {
    var h := [Event(Minutes(8, 9, 0), Open), Event(Minutes(15, 9, 0), Open), Event(Minutes(22, 9, 0), Open)];
    PriorOfSorted(h, Minutes(15, 8, 0), 0);
  }

  lemma EventBetweenExample()
    ensures EventBetween(
      [Event(Minutes(8, 9, 0), Open), Event(Minutes(15, 9, 0), Open), Event(Minutes(22, 9, 0), Open)],
      Minutes(14, 9, 0), Minutes(16, 9, 0)) == [Event(Minutes(15, 9, 0), Open)]
  {
    var h := [Event(Minutes(8, 9, 0), Open), Event(Minutes(15, 9, 0), Open), Event(Minutes(22, 9, 0), Open)];
    EventBetweenBlock(h, Minutes(14, 9, 0), Minutes(16, 9, 0), 1, 2);
  }

  /** Closed on the 15th at 23:00, open on the 16th at 05:00: open from 09:00
      to 10:00 on the 16th. */
  lemma OpenedRangeExampleOpen()
    ensures OpenedRange(
      Periodized([Event(Minutes(15, 23, 0), Close), Event(Minutes(16, 5, 0), Open)], Period),
      Minutes(16, 9, 0), Minutes(16, 10, 0))
  {
    var close, open := Event(Minutes(15, 23, 0), Close), Event(Minutes(16, 5, 0), Open);
    var events := [close, open];
    var h := Periodized(events, Period);
    TimelineMembers(close, open, h);
    PeriodizedContains(events, Period, open);
    var d1, d2 := Minutes(16, 9, 0), Minutes(16, 10, 0);
    var q := ImmediatelyPrior(h, d1);
    assert q.Some? && q.value.t >= open.t;
    assert q.value.kind == Open;
    assert forall e :: e in h ==> !(d1 <= e.t < d2);
  }

  /** Closed on the 15th at 20:00, open on the 16th at 05:00: not open from
      21:00 to 22:00 on the 15th. */
  lemma OpenedRangeExampleClosed()
    ensures !OpenedRange(
      Periodized([Event(Minutes(15, 20, 0), Close), Event(Minutes(16, 5, 0), Open)], Period),
      Minutes(15, 21, 0), Minutes(15, 22, 0))
  {
    var close, open := Event(Minutes(15, 20, 0), Close), Event(Minutes(16, 5, 0), Open);
    var events := [close, open];
    var h := Periodized(events, Period);
    TimelineMembers(close, open, h);
    PeriodizedContains(events, Period, close);
    var q := ImmediatelyPrior(h, Minutes(15, 21, 0));
    assert q.Some? && q.value.t >= close.t;
    assert q.value.kind == Close;
  }

  /** The events of the timeline of a two-event week. */
  lemma TimelineMembers(a: Event, b: Event, h: seq<Event>)
    requires h == Periodized([a, b], Period)
    ensures forall x :: x in h ==>
      x == Shift(a, -Period) || x == a || x == Shift(a, Period) ||
      x == Shift(b, -Period) || x == b || x == Shift(b, Period)
  {
    forall x | x in h
      ensures x == Shift(a, -Period) || x == a || x == Shift(a, Period) ||
              x == Shift(b, -Period) || x == b || x == Shift(b, Period)
    {
      PeriodizedOnlyShifts([a, b], Period, x);
      assert Shift(Shift(x, Period), -Period) == x && Shift(Shift(x, -Period), Period) == x;
    }
  }
}
