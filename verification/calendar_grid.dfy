/**
 The calendar grid: the start-of-period helpers, the days a month shows,
 which events each day cell and each hour slot of the day view lists, the
 styling an event gets, and what dropping or clicking on the grid does.
 */
module CalendarGrid {
  import opened CivilTime
  import opened Types
  import opened Palette
  import App
  import EventForm

  // ---------------------------------------------------------------------------
  // Start of day, week, month and year

  /** Moving a time by whole days moves its day number by as many and keeps
      its time of day. */
  lemma ShiftDays(t: Time, k: int)
    ensures DayOf(t + k * MinutesPerDay) == DayOf(t) + k
    ensures TimeOfDay(t + k * MinutesPerDay) == TimeOfDay(t)
  {
    TimeSplit(t);
    assert t + k * MinutesPerDay == AtMinute(DayOf(t) + k, TimeOfDay(t));
    AtMinuteParts(DayOf(t) + k, TimeOfDay(t));
  }

  /** getStartOfDay: midnight of the same day. */
  function StartOfDay(t: Time): (r: Time)
    ensures DayOf(r) == DayOf(t) && TimeOfDay(r) == 0
    ensures r <= t < r + MinutesPerDay
  {
    AtMinuteParts(DayOf(t), 0);
    SetHours(t, 0, 0)
  }

  /** Midnight of the day of `t` is the only midnight in the day up to `t`. */
  lemma StartOfDayUnique(t: Time, s: Time)
    requires TimeOfDay(s) == 0 && s <= t < s + MinutesPerDay
    ensures s == StartOfDay(t)
  {
    TimeSplit(s);
    TimeSplit(t);
  }

  lemma StartOfDayIdempotent(t: Time)
    ensures StartOfDay(StartOfDay(t)) == StartOfDay(t)
  {
    StartOfDayUnique(StartOfDay(t), StartOfDay(t));
  }

  /** getStartOfWeek: go back by the weekday to Sunday, then to midnight. */
  function StartOfWeek(t: Time): (r: Time)
    ensures Weekday(r) == 0 && TimeOfDay(r) == 0
    ensures DayOf(r) == DayOf(t) - Weekday(t)
    ensures r <= t < r + 7 * MinutesPerDay
  {
    var w := Weekday(t);
    var d := SetDate(t, DateOfMonth(t) - w);
    SetDateShift(t, -w);
    ShiftDays(t, -w);
    assert DayOf(d) == WeekStartDay(DayOf(t));
    AtMinuteParts(DayOf(d), 0);
    TimeSplit(t);
    SetHours(d, 0, 0)
  }

  /** Only one Sunday lies in the seven days up to a given day. */
  lemma SundayUnique(a: int, b: int, n: int)
    requires (a + EpochWeekday) % 7 == 0 && (b + EpochWeekday) % 7 == 0
    requires n - 6 <= a <= n && n - 6 <= b <= n
    ensures a == b
  {
  }

  /** The Sunday midnight within the week up to `t` is unique. */
  lemma StartOfWeekUnique(t: Time, s: Time)
    requires Weekday(s) == 0 && TimeOfDay(s) == 0 && s <= t < s + 7 * MinutesPerDay
    ensures s == StartOfWeek(t)
  {
    var r := StartOfWeek(t);
    TimeSplit(s);
    TimeSplit(r);
    TimeSplit(t);
    assert DayOf(t) - 6 <= DayOf(s) <= DayOf(t);
    assert DayOf(t) - 6 <= DayOf(r) <= DayOf(t);
    SundayUnique(DayOf(s), DayOf(r), DayOf(t));
  }

  lemma StartOfWeekIdempotent(t: Time)
    ensures StartOfWeek(StartOfWeek(t)) == StartOfWeek(t)
  {
    StartOfWeekUnique(StartOfWeek(t), StartOfWeek(t));
  }

  /** getStartOfMonth: `new Date(year, month, 1)`, which reads a year from 0
      to 99 as 1900 plus that year. */
  function StartOfMonth(t: Time): (r: Time)
    ensures TimeOfDay(r) == 0 && DateOfMonth(r) == 1 && MonthIndex(r) == MonthIndex(t)
    ensures FullYear(r) == (if PlainYear(FullYear(t)) then FullYear(t) else 1900 + FullYear(t))
  {
    var d := DateOf(t);
    LocalTimeParts(Date(if PlainYear(d.year) then d.year else 1900 + d.year, d.month, 1), 0);
    NewDateAsWritten(d.year, d.month - 1, 1, 0, 0)
  }

  /** In a plain year the month of `t` starts at its first and `t` lies
      inside it. */
  lemma StartOfMonthContains(t: Time)
    requires PlainYear(FullYear(t))
    ensures var r := StartOfMonth(t);
      var d := DateOf(t);
      r <= t < r + DaysInMonth(d.year, d.month) * MinutesPerDay
  {
    var d := DateOf(t);
    var r := StartOfMonth(t);
    MakeDayOfDate(Date(d.year, d.month, 1));
    assert DayOf(t) == DayOf(r) + d.day - 1;
    TimeSplit(t);
  }

  /** getStartOfYear: `new Date(year, 0, 1)`, with the same reading of
      years 0 to 99. */
  function StartOfYear(t: Time): (r: Time)
    ensures TimeOfDay(r) == 0 && DateOfMonth(r) == 1 && MonthIndex(r) == 0
    ensures FullYear(r) == (if PlainYear(FullYear(t)) then FullYear(t) else 1900 + FullYear(t))
  {
    var y := FullYear(t);
    LocalTimeParts(Date(if PlainYear(y) then y else 1900 + y, 1, 1), 0);
    NewDateAsWritten(y, 0, 1, 0, 0)
  }

  /** In a plain year the year of `t` starts at January 1st and `t` lies
      inside it. */
  lemma StartOfYearContains(t: Time)
    requires PlainYear(FullYear(t))
    ensures var r := StartOfYear(t);
      r <= t < r + DaysInYear(FullYear(t)) * MinutesPerDay
  {
    var d := DateOf(t);
    var r := StartOfYear(t);
    MakeDayOfDate(Date(d.year, 1, 1));
    DayNumberInYear(d);
    assert DayOf(r) == YearStart(d.year);
    TimeSplit(t);
  }

  // ---------------------------------------------------------------------------
  // The days of the month view

  /** date-fns endOfMonth, to the minute: the last day of the month at 23:59. */
  function EndOfMonth(t: Time): (r: Time)
    ensures var d := DateOf(t);
      DateOf(r) == Date(d.year, d.month, DaysInMonth(d.year, d.month))
  {
    var d := DateOf(t);
    EndOfDesiredMonth(t, 0);
    ShiftMonthNeighbours(d.year, d.month);
    var e := SetMonth(t, MonthIndex(t) + 1, 0);
    assert DateOf(e) == Date(d.year, d.month, DaysInMonth(d.year, d.month));
    SetHoursInRange(e, 23, 59);
    SetHours(e, 23, 59)
  }

  /** date-fns endOfWeek, to the minute: the Saturday on or after the day,
      at 23:59. */
  function EndOfWeek(t: Time): (r: Time)
    ensures DayOf(r) == DayOf(t) + 6 - Weekday(t)
    ensures Weekday(r) == 6
  {
    var k := 6 - Weekday(t);
    SetDateShift(t, k);
    ShiftDays(t, k);
    var d := SetDate(t, DateOfMonth(t) + k);
    SetHoursInRange(d, 23, 59);
    SetHours(d, 23, 59)
  }

  /** Midnight of day `d` lies on day `d`. */
  lemma Midnight(d: int)
    ensures DayOf(AtMinute(d, 0)) == d && TimeOfDay(AtMinute(d, 0)) == 0
  {
    AtMinuteParts(d, 0);
  }

  /** The midnights of the days from `from` to `to`, as eachDayOfInterval
      lists them. */
  function DaysBetween(from: int, to: int): (days: seq<Time>)
    requires from <= to + 1
    ensures |days| == to - from + 1
    ensures forall i :: 0 <= i < |days| ==> DayOf(days[i]) == from + i && TimeOfDay(days[i]) == 0
  {
    var days := seq(to - from + 1, i requires 0 <= i <= to - from => AtMinute(from + i, 0));
    forall i | 0 <= i < |days| ensures DayOf(days[i]) == from + i && TimeOfDay(days[i]) == 0 {
      Midnight(from + i);
    }
    days
  }

  /** The last day of a month starting at `first` is the month's length,
      less one, after it. */
  lemma EndOfMonthDay(first: Time)
    requires DateOfMonth(first) == 1
    ensures DayOf(EndOfMonth(first)) == DayOf(first) + DaysInMonth(DateOf(first).year, DateOf(first).month) - 1
  {
    var fd := DateOf(first);
    var dim := DaysInMonth(fd.year, fd.month);
    var last := EndOfMonth(first);
    assert DayOf(last) == DayNumber(Date(fd.year, fd.month, dim));
  }

  /** The Sunday on or before day `f`. */
  function WeekStartDay(f: int): (d: int)
    ensures (d + EpochWeekday) % 7 == 0 && f - 6 <= d <= f
  {
    f - (f + EpochWeekday) % 7
  }

  /** The Saturday on or after day `l`. */
  function WeekEndDay(l: int): (d: int)
    ensures (d + EpochWeekday) % 7 == 6 && l <= d <= l + 6
  {
    l + 6 - (l + EpochWeekday) % 7
  }

  /** From a Sunday through a Saturday is a whole number of weeks, and the
      weekday of each day follows from its place. */
  lemma WeekSpan(from: int, to: int)
    requires (from + EpochWeekday) % 7 == 0 && (to + EpochWeekday) % 7 == 6 && from <= to
    ensures (to - from + 1) % 7 == 0
    ensures forall i :: 0 <= i ==> (from + i + EpochWeekday) % 7 == i % 7
  {
  }

  /** Whole weeks covering a month, at most six days either side of it,
      are four to six weeks. */
  lemma SpanBounds(from: int, to: int, f: int, dim: int)
    requires f - 6 <= from <= f && f + dim - 1 <= to <= f + dim + 5 && 28 <= dim <= 31
    requires (to - from + 1) % 7 == 0
    ensures 28 <= to - from + 1 <= 42
  {
  }

  /** The midnights from a Sunday through a Saturday: whole weeks, each
      day one day after the one before and on the weekday of its column. */
  function WeekRows(from: int, to: int): (days: seq<Time>)
    requires (from + EpochWeekday) % 7 == 0 && (to + EpochWeekday) % 7 == 6 && from <= to
    ensures |days| == to - from + 1 && |days| % 7 == 0
    ensures forall i :: 0 <= i < |days| ==>
      DayOf(days[i]) == from + i && TimeOfDay(days[i]) == 0 && Weekday(days[i]) == i % 7
    ensures forall i :: 0 <= i < |days| - 1 ==> days[i + 1] == days[i] + MinutesPerDay
  {
    WeekSpan(from, to);
    var days := DaysBetween(from, to);
    forall i | 0 <= i < |days| ensures Weekday(days[i]) == i % 7 {
      assert DayOf(days[i]) == from + i;
    }
    forall i | 0 <= i < |days| - 1 ensures days[i + 1] == days[i] + MinutesPerDay {
      TimeSplit(days[i]);
      TimeSplit(days[i + 1]);
    }
    days
  }

  /** The days the month view shows for a month whose first is day `f` and
      which has `dim` days: whole weeks from Sunday to Saturday, day after
      day at midnight, starting at most six days before the first and
      reaching the month's last day. */
  function GridOfMonth(f: int, dim: int): (days: seq<Time>)
    requires 28 <= dim <= 31
    ensures |days| % 7 == 0 && 28 <= |days| <= 42
    ensures forall i :: 0 <= i < |days| ==>
      DayOf(days[i]) == WeekStartDay(f) + i && TimeOfDay(days[i]) == 0 && Weekday(days[i]) == i % 7
    ensures forall i :: 0 <= i < |days| - 1 ==> days[i + 1] == days[i] + MinutesPerDay
    ensures f - 6 <= WeekStartDay(f) <= f && WeekStartDay(f) + |days| >= f + dim
  {
    var from, to := WeekStartDay(f), WeekEndDay(f + dim - 1);
    SpanBounds(from, to, f, dim);
    WeekRows(from, to)
  }

  /** Every day of the month is in its grid, at midnight. */
  lemma GridCoversMonth(f: int, dim: int, n: int)
    requires 28 <= dim <= 31 && f <= n < f + dim
    ensures AtMinute(n, 0) in GridOfMonth(f, dim)
  {
    var days := GridOfMonth(f, dim);
    var i := n - WeekStartDay(f);
    assert DayOf(days[i]) == n && TimeOfDay(days[i]) == 0;
    TimeSplit(days[i]);
  }

  /** renderMonthView's days for the month starting at `first`:
      eachDayOfInterval from startOfWeek of the first to endOfWeek of the
      end of the month. */
  function MonthDays(first: Time): seq<Time>
    requires DateOfMonth(first) == 1
  {
    EndOfMonthDay(first);
    DaysBetween(DayOf(StartOfWeek(first)), DayOf(EndOfWeek(EndOfMonth(first))))
  }

  /** The source's chain of date helpers gives exactly the week grid of the
      month. */
  lemma MonthDaysIsGrid(first: Time)
    requires DateOfMonth(first) == 1
    ensures var d := DateOf(first);
      MonthDays(first) == GridOfMonth(DayOf(first), DaysInMonth(d.year, d.month))
  {
    var d := DateOf(first);
    var f := DayOf(first);
    var dim := DaysInMonth(d.year, d.month);
    EndOfMonthDay(first);
    StartOfWeekDay(first);
    EndOfWeekDay(EndOfMonth(first));
    assert MonthDays(first) == DaysBetween(WeekStartDay(f), WeekEndDay(f + dim - 1));
    GridOfMonthDays(f, dim);
  }

  /** The week grid is eachDayOfInterval over its first and last day. */
  lemma GridOfMonthDays(f: int, dim: int)
    requires 28 <= dim <= 31
    ensures GridOfMonth(f, dim) == DaysBetween(WeekStartDay(f), WeekEndDay(f + dim - 1))
  {
  }

  /** startOfWeek lands on the Sunday on or before the day. */
  lemma StartOfWeekDay(t: Time)
    ensures DayOf(StartOfWeek(t)) == WeekStartDay(DayOf(t))
  {
  }

  /** endOfWeek lands on the Saturday on or after the day. */
  lemma EndOfWeekDay(t: Time)
    ensures DayOf(EndOfWeek(t)) == WeekEndDay(DayOf(t))
  {
  }

  /** The month view for the displayed date `t`. */
  function MonthGrid(t: Time): seq<Time>
  {
    MonthDays(StartOfMonth(t))
  }

  /** In a plain year every day of the month of `t` is in its grid. */
  lemma MonthGridCoversMonth(t: Time, day: int)
    requires PlainYear(FullYear(t))
    requires 1 <= day <= DaysInMonth(DateOf(t).year, DateOf(t).month)
    ensures AtMinute(DayNumber(Date(DateOf(t).year, DateOf(t).month, day)), 0) in MonthGrid(t)
  {
    var d := DateOf(t);
    var first := StartOfMonth(t);
    assert DateOf(first) == Date(d.year, d.month, 1);
    var dim := DaysInMonth(d.year, d.month);
    MonthDaysIsGrid(first);
    GridCoversMonth(DayOf(first), dim, DayNumber(Date(d.year, d.month, day)));
  }

  /** The first of month `i` (from 0) of year `y`, at midnight. */
  lemma FirstOfMonth(y: int, i: int)
    requires 0 <= i < 12
    ensures DateOf(LocalTime(y, i, 1, 0, 0)) == Date(y, i + 1, 1)
    ensures TimeOfDay(LocalTime(y, i, 1, 0, 0)) == 0
  {
    var d := Date(y, i + 1, 1);
    MakeDayOfDate(d);
    AtMinuteParts(DayNumber(d), 0);
    DateOfDayNumber(d);
  }

  /** The twelve month cards of the year view for year `y` (the year of
      getStartOfYear of the displayed date): the first of each month. */
  function YearMonths(y: int): (months: seq<Time>)
    ensures |months| == 12
    ensures forall i :: 0 <= i < 12 ==> DateOf(months[i]) == Date(y, i + 1, 1) && TimeOfDay(months[i]) == 0
    ensures forall i :: 0 <= i < 11 ==> months[i] < months[i + 1]
  {
    var months := seq(12, i requires 0 <= i < 12 => LocalTime(y, i, 1, 0, 0));
    forall i | 0 <= i < 12 ensures DateOf(months[i]) == Date(y, i + 1, 1) && TimeOfDay(months[i]) == 0 {
      FirstOfMonth(y, i);
    }
    forall i | 0 <= i < 11 ensures months[i] < months[i + 1] {
      DaysBeforeMonthStep(y, i + 1);
    }
    months
  }

  /** The day before 1 January of the next year is 31 December. */
  lemma LastOfYear(y: int)
    ensures MakeDay(y + 1, 0, 0) == DayNumber(Date(y, 12, 31))
  {
    NextMonthFirst(y, 12);
  }

  /** date-fns endOfYear, to the minute: setFullYear(year + 1, 0, 0), the
      day before the next 1 January, then 23:59. */
  function EndOfYear(t: Time): (r: Time)
    ensures DayOf(r) == DayNumber(Date(FullYear(t), 12, 31)) && TimeOfDay(r) == 23 * MinutesPerHour + 59
  {
    var y := FullYear(t);
    var e := SetFullYear(t, y + 1, 0, 0);
    LastOfYear(y);
    AtMinuteParts(MakeDay(y + 1, 0, 0), TimeOfDay(t));
    AtMinuteParts(MakeDay(y + 1, 0, 0), 23 * MinutesPerHour + 59);
    SetHours(e, 23, 59)
  }

  /** date-fns eachMonthOfInterval: the first of every month, at midnight,
      from the start's month through the end's. An interval whose start is
      after its end gives None: the library rejects it or lists it
      backwards, depending on its version. */
  function EachMonthOfInterval(start: Time, end: Time): (r: Option<seq<Time>>)
    ensures r.Some? <==> start <= end
    ensures r.Some? ==> var a, b := DateOf(start), DateOf(end);
      |r.value| == App.Max(0, (b.year - a.year) * 12 + b.month - a.month + 1)
    ensures r.Some? ==> forall i :: 0 <= i < |r.value| ==>
      DateOf(r.value[i]) == ShiftMonth(DateOf(start).year, DateOf(start).month, i) && TimeOfDay(r.value[i]) == 0
  {
    if start > end then None
    else
      var a, b := DateOf(start), DateOf(end);
      var n := App.Max(0, (b.year - a.year) * 12 + b.month - a.month + 1);
      var months := seq(n, i requires 0 <= i < n => AtMinute(DayNumber(ShiftMonth(a.year, a.month, i)), 0));
      forall i | 0 <= i < n
        ensures DateOf(months[i]) == ShiftMonth(a.year, a.month, i) && TimeOfDay(months[i]) == 0
      {
        AtMinuteParts(DayNumber(ShiftMonth(a.year, a.month, i)), 0);
        DateOfDayNumber(ShiftMonth(a.year, a.month, i));
      }
      Some(months)
  }

  /** renderYearView's months: eachMonthOfInterval from getStartOfYear to
      endOfYear of the displayed date. */
  function YearView(t: Time): Option<seq<Time>>
  {
    EachMonthOfInterval(StartOfYear(t), EndOfYear(t))
  }

  /** Two times at the same time of day on the same date are equal. */
  lemma SameDateSameTime(a: Time, b: Time)
    requires DateOf(a) == DateOf(b) && TimeOfDay(a) == TimeOfDay(b)
    ensures a == b
  {
    TimeSplit(a);
    TimeSplit(b);
  }

  /** In a year outside 0 to 99, the year view's interval runs from
      1 January to 31 December of the displayed year. */
  lemma PlainYearBounds(t: Time)
    requires PlainYear(FullYear(t))
    ensures DateOf(StartOfYear(t)) == Date(FullYear(t), 1, 1)
    ensures DateOf(EndOfYear(t)) == Date(FullYear(t), 12, 31)
    ensures StartOfYear(t) <= EndOfYear(t)
  {
    var y := FullYear(t);
    var start, end := StartOfYear(t), EndOfYear(t);
    DateOfDayNumber(Date(y, 12, 31));
    DayNumberInYear(Date(y, 12, 31));
    assert DayOf(start) == DayNumber(Date(y, 1, 1));
    TimeSplit(start);
    TimeSplit(end);
  }

  /** For a year outside 0 to 99 the year view is the twelve firsts of the
      displayed year's months. */
  lemma YearViewIsYearMonths(t: Time)
    requires PlainYear(FullYear(t))
    ensures YearView(t) == Some(YearMonths(FullYear(t)))
  {
    var y := FullYear(t);
    PlainYearBounds(t);
    var months := YearView(t).value;
    var expected := YearMonths(y);
    assert |months| == 12;
    forall i | 0 <= i < 12 ensures months[i] == expected[i] {
      assert ShiftMonth(y, 1, i) == Date(y, i + 1, 1);
      SameDateSameTime(months[i], expected[i]);
    }
    assert months == expected;
  }

  /** For a year from 0 to 99 getStartOfYear gives 1 January of 1900 plus
      the year, which is after the displayed year's endOfYear: the interval
      is reversed and the year view does not show that year's months. */
  lemma YearViewTwoDigitYear(t: Time)
    requires !PlainYear(FullYear(t))
    ensures StartOfYear(t) > EndOfYear(t)
    ensures YearView(t).None?
  {
    var y := FullYear(t);
    var start, end := StartOfYear(t), EndOfYear(t);
    assert DateOf(start) == Date(1900 + y, 1, 1);
    TwoDigitYearOrder(y);
    TimeSplit(start);
    TimeSplit(end);
  }

  /** 31 December of a year from 0 to 99 comes before 1 January of 1900
      plus that year. */
  lemma TwoDigitYearOrder(y: int)
    requires 0 <= y <= 99
    ensures DayNumber(Date(y, 12, 31)) < DayNumber(Date(1900 + y, 1, 1))
  {
    YearStartMonotone(y, 1900 + y);
    DayNumberInYear(Date(y, 12, 31));
  }

  // ---------------------------------------------------------------------------
  // Which events each cell lists

  /** The events that satisfy `keep`, in order. */
  function Filter(events: seq<Event>, keep: Event -> bool): (r: seq<Event>)
    ensures |r| <= |events|
  {
    if |events| == 0 then []
    else
      var rest := Filter(events[1..], keep);
      if keep(events[0]) then [events[0]] + rest else rest
  }

  /** Filter keeps exactly the events that pass, each as often as the list
      holds it, and nothing else. */
  lemma {:induction false} FilterSpec(events: seq<Event>, keep: Event -> bool)
    ensures var r := Filter(events, keep);
      && (forall e :: multiset(r)[e] == if keep(e) then multiset(events)[e] else 0)
      && (forall i :: 0 <= i < |r| ==> keep(r[i]) && r[i] in events)
  {
    if |events| > 0 {
      FilterSpec(events[1..], keep);
      FilterStep(events, Filter(events[1..], keep), keep);
    }
  }

  /** One step of Filter: putting the first event in front of what the
      rest keeps, or not, keeps exactly the events of the whole list that
      pass. */
  lemma FilterStep(events: seq<Event>, rest: seq<Event>, keep: Event -> bool)
    requires |events| > 0
    requires forall e :: multiset(rest)[e] == if keep(e) then multiset(events[1..])[e] else 0
    requires forall i :: 0 <= i < |rest| ==> keep(rest[i]) && rest[i] in events[1..]
    ensures var r := if keep(events[0]) then [events[0]] + rest else rest;
      && (forall e :: multiset(r)[e] == if keep(e) then multiset(events)[e] else 0)
      && (forall i :: 0 <= i < |r| ==> keep(r[i]) && r[i] in events)
  {
    var x := events[0];
    assert events == [x] + events[1..];
    assert multiset(events) == multiset{x} + multiset(events[1..]);
    if keep(x) {
      var r := [x] + rest;
      assert multiset(r) == multiset{x} + multiset(rest);
      forall i | 0 <= i < |r| ensures keep(r[i]) && r[i] in events {
        if i > 0 {
          assert r[i] == rest[i - 1];
        }
      }
    }
  }

  /** Filtering a concatenation filters each part: the order is kept. */
  lemma {:induction false} FilterAppend(a: seq<Event>, b: seq<Event>, keep: Event -> bool)
    ensures Filter(a + b, keep) == Filter(a, keep) + Filter(b, keep)
  {
    if |a| > 0 {
      var head := if keep(a[0]) then [a[0]] else [];
      assert (a + b)[0] == a[0] && (a + b)[1..] == a[1..] + b;
      assert Filter(a + b, keep) == head + Filter(a[1..] + b, keep);
      assert Filter(a, keep) == head + Filter(a[1..], keep);
      FilterAppend(a[1..], b, keep);
    } else {
      assert a + b == b;
    }
  }

  /** isSameDay on local dates. */
  predicate SameDay(a: Time, b: Time)
  {
    DayOf(a) == DayOf(b)
  }

  /** The events starting on the day of `day`, as a day cell lists them. */
  function DayEvents(events: seq<Event>, day: Time): (r: seq<Event>)
    ensures forall e :: multiset(r)[e] == if SameDay(e.start, day) then multiset(events)[e] else 0
  {
    FilterSpec(events, (e: Event) => SameDay(e.start, day));
    Filter(events, (e: Event) => SameDay(e.start, day))
  }

  /** How many event chips a month cell shows before summarising. */
  const MaxChips: int := 4

  /** A month cell: the chips shown and, when some are not, how many more. */
  datatype Cell = Cell(chips: seq<Event>, more: Option<int>)

  function MonthCell(events: seq<Event>, day: Time): (c: Cell)
    ensures var all := DayEvents(events, day);
      && |c.chips| == Min(MaxChips, |all|)
      && c.chips <= all
      && (c.more.Some? <==> |all| > MaxChips)
      && (c.more.Some? ==> c.more.value == |all| - MaxChips && c.more.value > 0)
      && |c.chips| + GetOr(c.more, 0) == |all|
  {
    var all := DayEvents(events, day);
    var chips := all[..Min(MaxChips, |all|)];
    if |all| > MaxChips then Cell(chips, Some(|all| - MaxChips)) else Cell(chips, None)
  }

  /** The events in the day view's slot for `hour`: those on the displayed
      day whose start hour is `hour`. */
  function HourSlot(events: seq<Event>, day: Time, hour: int): (r: seq<Event>)
    ensures forall e :: multiset(r)[e] ==
                        if SameDay(e.start, day) && Hours(e.start) == hour then multiset(events)[e] else 0
  {
    FilterSpec(DayEvents(events, day), (e: Event) => Hours(e.start) == hour);
    Filter(DayEvents(events, day), (e: Event) => Hours(e.start) == hour)
  }

  /** The hour slots of the day view, one per hour from 0 to 23. */
  function DaySlots(events: seq<Event>, day: Time): (slots: seq<seq<Event>>)
    ensures |slots| == 24
    ensures forall h :: 0 <= h < 24 ==> slots[h] == HourSlot(events, day, h)
  {
    seq(24, h requires 0 <= h < 24 => HourSlot(events, day, h))
  }

  function Concat(slots: seq<seq<Event>>): seq<Event>
  {
    if |slots| == 0 then [] else Concat(slots[..|slots| - 1]) + slots[|slots| - 1]
  }

  /** The first `n` slots hold each event of the day that starts before
      hour `n`, as often as the store holds it. */
  lemma {:induction false} SlotsPrefix(events: seq<Event>, day: Time, n: int)
    requires 0 <= n <= 24
    ensures forall e :: multiset(Concat(DaySlots(events, day)[..n]))[e] ==
                        if Hours(e.start) < n then multiset(DayEvents(events, day))[e] else 0
  {
    var slots := DaySlots(events, day);
    if n > 0 {
      SlotsPrefix(events, day, n - 1);
      assert slots[..n][..n - 1] == slots[..n - 1];
    }
  }

  /** Every event of the displayed day is in exactly one hour slot, the one
      of its start hour: together the slots list the day's events, each as
      often as the store holds it. */
  lemma SlotsPartitionDay(events: seq<Event>, day: Time)
    ensures multiset(Concat(DaySlots(events, day))) == multiset(DayEvents(events, day))
  {
    var slots := DaySlots(events, day);
    SlotsPrefix(events, day, 24);
    assert slots[..24] == slots;
  }

  // ---------------------------------------------------------------------------
  // Styling

  /** Every style class string the palette can give an event. */
  function KnownClasses(): set<string>
  {
    (set c | c in EventColors.Values :: c.classes) + CategoryColors.Values
  }

  /** getEventColorClasses: the chosen colour's classes when it names a
      palette entry, otherwise the category's. */
  function ColorClasses(e: Event): (r: string)
    ensures e.color.Some? && e.color.value in EventColors ==> r == EventColors[e.color.value].classes
    ensures (e.color.None? || e.color.value !in EventColors) ==>
      e.category in CategoryColors && r == CategoryColors[e.category]
  {
    CategoryColorsTotal();
    if e.color.Some? && e.color.value != "" && e.color.value in EventColors then
      var t := EventColors[e.color.value];
      assert t in EventColors.Values;
      t.classes
    else
      CategoryColors[e.category]
  }

  /** Every event gets one of the palette's class strings. */
  lemma ColorClassesKnown(e: Event)
    ensures ColorClasses(e) in KnownClasses()
  {
    CategoryColorsTotal();
    if e.color.Some? && e.color.value in EventColors {
      assert EventColors[e.color.value] in EventColors.Values;
    } else {
      assert CategoryColors[e.category] in CategoryColors.Values;
    }
  }

  /** The default colour and a category's own colour give the same look for
      the categories whose palette entry matches: business is blue, student
      emerald, personal purple. */
  lemma ColorMatchesCategory(e: Event)
    ensures e.category == Business && e.color == Some("blue") ==> ColorClasses(e) == ColorClasses(e.(color := None))
    ensures e.category == Student && e.color == Some("emerald") ==> ColorClasses(e) == ColorClasses(e.(color := None))
    ensures e.category == Personal && e.color == Some("purple") ==> ColorClasses(e) == ColorClasses(e.(color := None))
  {
  }

  // ---------------------------------------------------------------------------
  // Dropping and clicking

  /** date-fns addHours */
  function AddHours(t: Time, h: int): Time
  {
    AddMinutes(t, h * MinutesPerHour)
  }

  /** handleDrop: a drop that carries an event id moves that event to the
      drop target; one that carries nothing is ignored. */
  function HandleDrop(st: App.AppState, eventId: string, target: Time): (r: App.AppState)
    ensures eventId == "" ==> r == st
    ensures eventId != "" ==> r == App.MoveEvent(st, eventId, target)
  {
    if eventId != "" then App.MoveEvent(st, eventId, target) else st
  }

  /** Dropping an event onto a month cell moves it to that day at its own
      time of day and keeps its duration. */
  lemma DropOnMonthCell(st: App.AppState, k: int, i: int)
    requires 0 <= k < |st.events| && st.events[k].id != "" && st.viewMode == Month
    requires 0 <= i < |MonthGrid(st.currentDate)|
    ensures var e := st.events[k];
      var cell := MonthGrid(st.currentDate)[i];
      var r := HandleDrop(st, e.id, cell).events[k];
      && DayOf(r.start) == DayOf(cell) && TimeOfDay(r.start) == TimeOfDay(e.start)
      && r.end - r.start == e.end - e.start
      && r == e.(start := r.start, end := r.end)
  {
  }

  /** Dropping an event onto the day view's slot for `hour` moves it to
      that hour of the displayed day and keeps its duration. */
  lemma DropOnHourSlot(st: App.AppState, k: int, hour: int)
    requires 0 <= k < |st.events| && st.events[k].id != "" && st.viewMode == Day && 0 <= hour < 24
    ensures var e := st.events[k];
      var r := HandleDrop(st, e.id, AddHours(StartOfDay(st.currentDate), hour)).events[k];
      && r.start == AtMinute(DayOf(st.currentDate), hour * MinutesPerHour)
      && r.end - r.start == e.end - e.start
      && r == e.(start := r.start, end := r.end)
  {
  }

  /** Clicking a month cell, which is a midnight, opens a one-hour
      new-event form on that day starting at the hour after the current
      one. */
  lemma ClickMonthCell(st: App.AppState, i: int, now: Time)
    requires 0 <= i < |MonthGrid(st.currentDate)|
    ensures var cell := MonthGrid(st.currentDate)[i];
      var f := EventForm.FormFor(App.OpenCreateModal(st, Some(cell)), now);
      && f.start == AtMinute(DayOf(cell), (Hours(now) + 1) * MinutesPerHour)
      && f.end == f.start + MinutesPerHour
  {
    var cell := MonthGrid(st.currentDate)[i];
    EventForm.SelectedDateStart(cell, now);
  }

  /** Clicking the day view's slot for a later hour than midnight opens a
      one-hour form at that hour; the midnight slot, being a midnight, opens
      one at the hour after the current one instead. */
  lemma ClickHourSlot(st: App.AppState, hour: int, now: Time)
    requires 0 <= hour < 24
    ensures var slot := AddHours(StartOfDay(st.currentDate), hour);
      var f := EventForm.FormFor(App.OpenCreateModal(st, Some(slot)), now);
      && f.end == f.start + MinutesPerHour
      && (hour > 0 ==> f.start == slot)
      && (hour == 0 ==> f.start == AtMinute(DayOf(st.currentDate), (Hours(now) + 1) * MinutesPerHour))
  {
    var slot := AddHours(StartOfDay(st.currentDate), hour);
    AtMinuteParts(DayOf(st.currentDate), hour * MinutesPerHour);
    EventForm.SelectedDateStart(slot, now);
  }
}
