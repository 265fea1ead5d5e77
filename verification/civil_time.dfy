/**
 Local wall-clock time at minute resolution and the proleptic Gregorian
 calendar, as JavaScript's Date object and the date-fns helpers see them in a
 time zone without daylight-saving transitions.

 A time is a whole number of minutes since 1970-01-01 00:00 local time. The
 day number of a time is its floor division by 1440 and its time of day the
 remainder, so times before the epoch work like any other.
 */
module CivilTime {

  /** Minutes since 1970-01-01 00:00 local time. */
  type Time = int

  const MinutesPerHour: int := 60
  const MinutesPerDay: int := 1440
  const EpochYear: int := 1970
  /** 1970-01-01 was a Thursday; Date.prototype.getDay counts Sunday as 0. */
  const EpochWeekday: int := 4

  // ---------------------------------------------------------------------------
  // Day number and time of day

  /** Whole days since the epoch (rounded towards minus infinity). */
  function DayOf(t: Time): int
  {
    t / MinutesPerDay
  }

  /** Minutes past local midnight. */
  function TimeOfDay(t: Time): (r: int)
    ensures 0 <= r < MinutesPerDay
  {
    t % MinutesPerDay
  }

  /** Date.prototype.getHours */
  function Hours(t: Time): (h: int)
    ensures 0 <= h < 24
  {
    TimeOfDay(t) / MinutesPerHour
  }

  /** Date.prototype.getMinutes */
  function Minutes(t: Time): (m: int)
    ensures 0 <= m < MinutesPerHour
  {
    TimeOfDay(t) % MinutesPerHour
  }

  /** The time at minute `m` past midnight of day `d`. */
  function AtMinute(d: int, m: int): Time
  {
    d * MinutesPerDay + m
  }

  /** A time splits into its day and its time of day, and they rebuild it. */
  lemma TimeSplit(t: Time)
    ensures t == AtMinute(DayOf(t), TimeOfDay(t))
    ensures TimeOfDay(t) == Hours(t) * MinutesPerHour + Minutes(t)
  {
  }

  /** Rebuilding from a day and an in-range time of day gives them back. */
  lemma AtMinuteParts(d: int, m: int)
    requires 0 <= m < MinutesPerDay
    ensures DayOf(AtMinute(d, m)) == d
    ensures TimeOfDay(AtMinute(d, m)) == m
  {
  }

  // ---------------------------------------------------------------------------
  // The Gregorian calendar

  predicate IsLeapYear(y: int)
  {
    y % 4 == 0 && (y % 100 != 0 || y % 400 == 0)
  }

  function DaysInYear(y: int): (n: int)
    ensures n == 365 || n == 366
  {
    if IsLeapYear(y) then 366 else 365
  }

  /** Length of month `m` (1 = January) of year `y`. */
  function DaysInMonth(y: int, m: int): (n: int)
    requires 1 <= m <= 12
    ensures 28 <= n <= 31
    ensures n == 29 <==> m == 2 && IsLeapYear(y)
  {
    if m == 2 then (if IsLeapYear(y) then 29 else 28)
    else if m == 4 || m == 6 || m == 9 || m == 11 then 30
    else 31
  }

  /** Days from 1 January of year `y` to the first of month `m`; `m == 13`
      stands for the first of the following January. */
  function DaysBeforeMonth(y: int, m: int): int
    requires 1 <= m <= 13
  {
    var leap := if IsLeapYear(y) then 1 else 0;
    if m == 1 then 0
    else if m == 2 then 31
    else if m == 3 then 59 + leap
    else if m == 4 then 90 + leap
    else if m == 5 then 120 + leap
    else if m == 6 then 151 + leap
    else if m == 7 then 181 + leap
    else if m == 8 then 212 + leap
    else if m == 9 then 243 + leap
    else if m == 10 then 273 + leap
    else if m == 11 then 304 + leap
    else if m == 12 then 334 + leap
    else 365 + leap
  }

  /** The month table agrees with the month lengths and the year length. */
  lemma DaysBeforeMonthStep(y: int, m: int)
    requires 1 <= m <= 12
    ensures DaysBeforeMonth(y, m + 1) == DaysBeforeMonth(y, m) + DaysInMonth(y, m)
    ensures DaysBeforeMonth(y, 13) == DaysInYear(y)
  {
  }

  lemma DaysBeforeMonthMonotone(y: int, m1: int, m2: int)
    requires 1 <= m1 < m2 <= 13
    ensures DaysBeforeMonth(y, m1) < DaysBeforeMonth(y, m2)
  {
  }

  /** Day number of 1 January of year `y`. */
  function YearStart(y: int): int
    decreases if y < EpochYear then EpochYear - y else y - EpochYear
  {
    if y == EpochYear then 0
    else if y > EpochYear then YearStart(y - 1) + DaysInYear(y - 1)
    else YearStart(y + 1) - DaysInYear(y)
  }

  lemma YearStartStep(y: int)
    ensures YearStart(y + 1) == YearStart(y) + DaysInYear(y)
  {
  }

  /** Years occupy consecutive, non-overlapping runs of day numbers. */
  lemma {:induction false} YearStartMonotone(y1: int, y2: int)
    requires y1 < y2
    ensures YearStart(y1) + DaysInYear(y1) <= YearStart(y2)
    decreases y2 - y1
  {
    YearStartStep(y1);
    if y1 + 1 < y2 {
      YearStartMonotone(y1 + 1, y2);
      YearStartStep(y1 + 1);
    }
  }

  function YearSearchUp(n: int, y: int): (r: int)
    requires YearStart(y) <= n
    ensures YearStart(r) <= n < YearStart(r) + DaysInYear(r)
    decreases n - YearStart(y)
  {
    YearStartStep(y);
    if n < YearStart(y) + DaysInYear(y) then y else YearSearchUp(n, y + 1)
  }

  function YearSearchDown(n: int, y: int): (r: int)
    requires n < YearStart(y) + DaysInYear(y)
    ensures YearStart(r) <= n < YearStart(r) + DaysInYear(r)
    decreases YearStart(y) + DaysInYear(y) - n
  {
    if YearStart(y) <= n then y
    else
      YearStartStep(y - 1);
      YearSearchDown(n, y - 1)
  }

  /** The year that day number `n` falls in. */
  function YearOfDay(n: int): (y: int)
    ensures YearStart(y) <= n < YearStart(y) + DaysInYear(y)
  {
    if n >= 0 then YearSearchUp(n, EpochYear)
    else
      YearStartStep(EpochYear - 1);
      YearSearchDown(n, EpochYear - 1)
  }

  /** The month holding day `r` (counted from 0) of year `y`, searched from `m` on. */
  function MonthSearch(y: int, r: int, m: int): (k: int)
    requires 1 <= m <= 12
    requires DaysBeforeMonth(y, m) <= r < DaysInYear(y)
    ensures m <= k <= 12
    ensures DaysBeforeMonth(y, k) <= r < DaysBeforeMonth(y, k + 1)
    decreases 12 - m
  {
    if r < DaysBeforeMonth(y, m + 1) then m else MonthSearch(y, r, m + 1)
  }

  /** A calendar date; `month` counts from 1 = January. */
  datatype Date = Date(year: int, month: int, day: int)

  predicate ValidDate(d: Date)
  {
    1 <= d.month <= 12 && 1 <= d.day <= DaysInMonth(d.year, d.month)
  }

  /** Day number of a date (day and month may not overflow here). */
  function DayNumber(d: Date): int
    requires 1 <= d.month <= 12
  {
    YearStart(d.year) + DaysBeforeMonth(d.year, d.month) + d.day - 1
  }

  /** The calendar date of day number `n`. */
  function CivilFromDay(n: int): (d: Date)
    ensures ValidDate(d)
    ensures DayNumber(d) == n
  {
    var y := YearOfDay(n);
    var r := n - YearStart(y);
    var m := MonthSearch(y, r, 1);
    DaysBeforeMonthStep(y, m);
    Date(y, m, r - DaysBeforeMonth(y, m) + 1)
  }

  /** A valid date lies inside its own year's run of day numbers. */
  lemma DayNumberInYear(d: Date)
    requires ValidDate(d)
    ensures YearStart(d.year) <= DayNumber(d) < YearStart(d.year) + DaysInYear(d.year)
  {
    DaysBeforeMonthStep(d.year, d.month);
    if d.month < 12 {
      DaysBeforeMonthMonotone(d.year, d.month + 1, 13);
    }
  }

  /** Only one year holds a given day number. */
  lemma YearUnique(y1: int, y2: int, n: int)
    requires YearStart(y1) <= n < YearStart(y1) + DaysInYear(y1)
    requires YearStart(y2) <= n < YearStart(y2) + DaysInYear(y2)
    ensures y1 == y2
  {
    if y1 < y2 {
      YearStartMonotone(y1, y2);
    } else if y2 < y1 {
      YearStartMonotone(y2, y1);
    }
  }

  /** Only one month of a year holds a given day of that year. */
  lemma MonthUnique(y: int, r: int, m1: int, m2: int)
    requires 1 <= m1 <= 12 && 1 <= m2 <= 12
    requires DaysBeforeMonth(y, m1) <= r < DaysBeforeMonth(y, m1 + 1)
    requires DaysBeforeMonth(y, m2) <= r < DaysBeforeMonth(y, m2 + 1)
    ensures m1 == m2
  {
    if m1 < m2 {
      DaysBeforeMonthMonotone(y, m1 + 1, m2 + 1);
      if m1 + 1 < m2 {
        DaysBeforeMonthMonotone(y, m1 + 1, m2);
      }
    } else if m2 < m1 {
      if m2 + 1 < m1 {
        DaysBeforeMonthMonotone(y, m2 + 1, m1);
      }
    }
  }

  /** Two valid dates with the same day number lie in the same year. */
  lemma SameDayNumberSameYear(a: Date, b: Date)
    requires ValidDate(a) && ValidDate(b) && DayNumber(a) == DayNumber(b)
    ensures a.year == b.year
  {
    DayNumberInYear(a);
    DayNumberInYear(b);
    YearUnique(a.year, b.year, DayNumber(a));
  }

  /** Two valid dates with the same day number are the same date. */
  lemma SameDayNumberSameDate(a: Date, b: Date)
    requires ValidDate(a) && ValidDate(b) && DayNumber(a) == DayNumber(b)
    ensures a == b
  {
    SameDayNumberSameYear(a, b);
    var y := a.year;
    var r := DayNumber(a) - YearStart(y);
    DaysBeforeMonthStep(y, a.month);
    DaysBeforeMonthStep(y, b.month);
    MonthUnique(y, r, a.month, b.month);
  }

  /** Converting a valid date to its day number and back gives the date. */
  lemma CivilFromDayNumber(d: Date)
    requires ValidDate(d)
    ensures CivilFromDay(DayNumber(d)) == d
  {
    SameDayNumberSameDate(CivilFromDay(DayNumber(d)), d);
  }

  /** Day numbers and valid dates are in one-to-one correspondence. */
  lemma DayNumberInjective(a: Date, b: Date)
    requires ValidDate(a) && ValidDate(b)
    ensures DayNumber(a) == DayNumber(b) <==> a == b
  {
    CivilFromDayNumber(a);
    CivilFromDayNumber(b);
  }

  /** The last day of a month is followed by the first of the next month. */
  lemma NextMonthFirst(y: int, m: int)
    requires 1 <= m <= 12
    ensures DayNumber(Date(y, m, 1)) + DaysInMonth(y, m)
         == (if m == 12 then DayNumber(Date(y + 1, 1, 1)) else DayNumber(Date(y, m + 1, 1)))
  {
    DaysBeforeMonthStep(y, m);
    YearStartStep(y);
  }

  // ---------------------------------------------------------------------------
  // ECMAScript Date semantics (section 21.4 of ECMA-262)

  /** MakeDay: the day number of (year, month index from 0, date), carrying
      an out-of-range month index into the year and an out-of-range date
      into the following or preceding months. */
  function MakeDay(year: int, monthIndex: int, date: int): int
  {
    DayNumber(Date(year + monthIndex / 12, monthIndex % 12 + 1, 1)) + date - 1
  }

  /** For an in-range date MakeDay is the day number of that date. */
  lemma MakeDayOfDate(d: Date)
    requires ValidDate(d)
    ensures MakeDay(d.year, d.month - 1, d.day) == DayNumber(d)
  {
  }

  /** Every day number belongs to exactly one valid date. */
  lemma DayHasOneDate(n: int)
    ensures exists d :: ValidDate(d) && DayNumber(d) == n
    ensures forall a, b :: ValidDate(a) && DayNumber(a) == n && ValidDate(b) && DayNumber(b) == n ==> a == b
  {
    assert ValidDate(CivilFromDay(n)) && DayNumber(CivilFromDay(n)) == n;
    forall a, b | ValidDate(a) && DayNumber(a) == n && ValidDate(b) && DayNumber(b) == n ensures a == b {
      SameDayNumberSameDate(a, b);
    }
  }

  /** The calendar date of day number `n`: the valid date whose day number
      it is (CivilFromDay computes it). */
  function DateOfDay(n: int): (d: Date)
    ensures ValidDate(d) && DayNumber(d) == n
  {
    DayHasOneDate(n);
    var d :| ValidDate(d) && DayNumber(d) == n;
    d
  }

  /** A valid date is the date of its own day number. */
  lemma DateOfDayNumber(d: Date)
    requires ValidDate(d)
    ensures DateOfDay(DayNumber(d)) == d
  {
    SameDayNumberSameDate(DateOfDay(DayNumber(d)), d);
  }

  /** The calendar date of a time. */
  function DateOf(t: Time): (d: Date)
    ensures ValidDate(d)
    ensures DayNumber(d) == DayOf(t)
  {
    DateOfDay(DayOf(t))
  }

  /** Date.prototype.getFullYear */
  function FullYear(t: Time): int
  {
    DateOf(t).year
  }

  /** Date.prototype.getMonth (0 = January) */
  function MonthIndex(t: Time): (m: int)
    ensures 0 <= m < 12
  {
    DateOf(t).month - 1
  }

  /** Date.prototype.getDate */
  function DateOfMonth(t: Time): (d: int)
    ensures 1 <= d <= 31
  {
    DateOf(t).day
  }

  /** Date.prototype.getDay (0 = Sunday) */
  function Weekday(t: Time): (w: int)
    ensures 0 <= w < 7
  {
    (DayOf(t) + EpochWeekday) % 7
  }

  /** new Date(year, monthIndex, date, hours, minutes) in local time, with
      the year taken as given (see NewDateAsWritten for the constructor's
      treatment of years 0 to 99). */
  function LocalTime(year: int, monthIndex: int, date: int, hours: int, minutes: int): Time
  {
    AtMinute(MakeDay(year, monthIndex, date), hours * MinutesPerHour + minutes)
  }

  /** The Date constructor as ECMA-262 section 21.4.2.1 specifies it: a
      year between 0 and 99 is read as 1900 plus that year. */
  function NewDateAsWritten(year: int, monthIndex: int, date: int, hours: int, minutes: int): Time
  {
    LocalTime(if PlainYear(year) then year else 1900 + year, monthIndex, date, hours, minutes)
  }

  /** A year that the Date constructor reads as given: one outside 0 to 99. */
  predicate PlainYear(y: int)
  {
    !(0 <= y <= 99)
  }

  /** For a valid date and an in-range clock time the constructor's result
      reads back exactly what was given. */
  lemma LocalTimeParts(d: Date, minute: int)
    requires ValidDate(d) && 0 <= minute < MinutesPerDay
    ensures var t := LocalTime(d.year, d.month - 1, d.day, minute / MinutesPerHour, minute % MinutesPerHour);
      DayOf(t) == DayNumber(d) && DateOf(t) == d && TimeOfDay(t) == minute
  {
    MakeDayOfDate(d);
    assert minute / MinutesPerHour * MinutesPerHour + minute % MinutesPerHour == minute;
    AtMinuteParts(DayNumber(d), minute);
    DateOfDayNumber(d);
  }

  /** Date.prototype.setHours(h, m): same day, wall-clock hours and minutes
      replaced, with out-of-range values carried into neighbouring days. */
  function SetHours(t: Time, h: int, m: int): Time
  {
    AtMinute(DayOf(t), h * MinutesPerHour + m)
  }

  /** Date.prototype.setFullYear(year, monthIndex, date): the date replaced,
      the time of day kept. */
  function SetFullYear(t: Time, year: int, monthIndex: int, date: int): Time
  {
    AtMinute(MakeDay(year, monthIndex, date), TimeOfDay(t))
  }

  /** Date.prototype.setMonth(monthIndex, date) */
  function SetMonth(t: Time, monthIndex: int, date: int): Time
  {
    SetFullYear(t, FullYear(t), monthIndex, date)
  }

  /** Date.prototype.setDate(date) */
  function SetDate(t: Time, date: int): Time
  {
    SetFullYear(t, FullYear(t), MonthIndex(t), date)
  }

  /** Setting in-range hours and minutes keeps the day and sets the clock. */
  lemma SetHoursInRange(t: Time, h: int, m: int)
    requires 0 <= h < 24 && 0 <= m < MinutesPerHour
    ensures DayOf(SetHours(t, h, m)) == DayOf(t)
    ensures Hours(SetHours(t, h, m)) == h && Minutes(SetHours(t, h, m)) == m
  {
    AtMinuteParts(DayOf(t), h * MinutesPerHour + m);
  }

  /** Shifting the date of the month by `k` moves the time by `k` whole days,
      whatever month boundaries it crosses. */
  lemma SetDateShift(t: Time, k: int)
    ensures SetDate(t, DateOfMonth(t) + k) == t + k * MinutesPerDay
  {
    MakeDayShift(t, k);
    TimeSplit(t);
    assert SetDate(t, DateOfMonth(t) + k) == AtMinute(DayOf(t) + k, TimeOfDay(t));
  }

  /** MakeDay on a time's own year and month, with its date of the month
      shifted by `k`, is the day `k` days after it. */
  lemma MakeDayShift(t: Time, k: int)
    ensures MakeDay(FullYear(t), MonthIndex(t), DateOfMonth(t) + k) == DayOf(t) + k
  {
    var d := DateOf(t);
    assert (d.month - 1) / 12 == 0 && (d.month - 1) % 12 + 1 == d.month;
  }

  // ---------------------------------------------------------------------------
  // date-fns helpers, written after the library's published algorithms

  /** addMinutes */
  function AddMinutes(t: Time, k: int): Time
  {
    t + k
  }

  /** differenceInMinutes(later, earlier); the library truncates a
      fractional minute, which times at minute resolution never carry. */
  function DifferenceInMinutes(later: Time, earlier: Time): int
  {
    later - earlier
  }

  /** addDays: setDate(getDate() + k), the zero amount returned as is. */
  function AddDays(t: Time, k: int): (r: Time)
    ensures r == t + k * MinutesPerDay
    ensures TimeOfDay(r) == TimeOfDay(t)
  {
    SetDateShift(t, k);
    if k == 0 then t else SetDate(t, DateOfMonth(t) + k)
  }

  /** addMonths: go to the last day of the target month; keep it when the
      original date of the month is at least that long, otherwise set the
      original date of the month in the target month. */
  function AddMonths(t: Time, k: int): Time
  {
    if k == 0 then t
    else
      var dayOfMonth := DateOfMonth(t);
      var endOfDesiredMonth := SetMonth(t, MonthIndex(t) + k + 1, 0);
      var daysInMonth := DateOfMonth(endOfDesiredMonth);
      if dayOfMonth >= daysInMonth then endOfDesiredMonth
      else SetFullYear(t, FullYear(endOfDesiredMonth), MonthIndex(endOfDesiredMonth), dayOfMonth)
  }

  /** addYears: addMonths by twelve times the amount. */
  function AddYears(t: Time, k: int): Time
  {
    AddMonths(t, k * 12)
  }

  /** The first day of the month `k` months after month `m` of year `y`. */
  function ShiftMonth(y: int, m: int, k: int): (d: Date)
    ensures ValidDate(d) && d.day == 1
  {
    var idx := m - 1 + k;
    Date(y + idx / 12, idx % 12 + 1, 1)
  }

  /** No months on is the same month; one month on from December is
      January of the next year; one month
      back from January is December of the year before. */
  lemma ShiftMonthNeighbours(y: int, m: int)
    requires 1 <= m <= 12
    ensures ShiftMonth(y, m, 0) == Date(y, m, 1)
    ensures ShiftMonth(y, m, 1) == (if m == 12 then Date(y + 1, 1, 1) else Date(y, m + 1, 1))
    ensures ShiftMonth(y, m, -1) == (if m == 1 then Date(y - 1, 12, 1) else Date(y, m - 1, 1))
  {
    if m == 12 {
      assert m / 12 == 1 && m % 12 == 0;
    } else {
      assert m / 12 == 0 && m % 12 == m;
    }
    if m == 1 {
      assert (m - 2) / 12 == -1 && (m - 2) % 12 == 11;
    } else {
      assert (m - 2) / 12 == 0 && (m - 2) % 12 == m - 2;
    }
  }

  function Min(a: int, b: int): int
  {
    if a <= b then a else b
  }

  /** Moving one month index on: either within the year or into January. */
  lemma MonthIndexSucc(idx: int)
    ensures (idx + 1) / 12 == (if idx % 12 == 11 then idx / 12 + 1 else idx / 12)
    ensures (idx + 1) % 12 == (if idx % 12 == 11 then 0 else idx % 12 + 1)
  {
    var q := idx / 12;
    var r := idx % 12;
    assert idx + 1 == 12 * q + r + 1;
    if r == 11 {
      assert idx + 1 == 12 * (q + 1) + 0;
    }
  }

  /** The day before the first of the month after `ShiftMonth(y, m, k)` is
      the last day of `ShiftMonth(y, m, k)`. */
  lemma EndOfShiftedMonth(y: int, m: int, k: int)
    requires 1 <= m <= 12
    ensures var s := ShiftMonth(y, m, k);
      MakeDay(y, m + k, 0) == DayNumber(Date(s.year, s.month, DaysInMonth(s.year, s.month)))
  {
    var idx := m - 1 + k;
    var s := ShiftMonth(y, m, k);
    MonthIndexSucc(idx);
    NextMonthFirst(s.year, s.month);
  }

  /** setFullYear with an in-range date lands on that date at the same time of day. */
  lemma SetFullYearOfDate(t: Time, target: Date)
    requires ValidDate(target)
    ensures DateOf(SetFullYear(t, target.year, target.month - 1, target.day)) == target
    ensures TimeOfDay(SetFullYear(t, target.year, target.month - 1, target.day)) == TimeOfDay(t)
  {
    MakeDayOfDate(target);
    AtMinuteParts(DayNumber(target), TimeOfDay(t));
    DateOfDayNumber(target);
  }

  /** The `endOfDesiredMonth` step of addMonths: the last day of the shifted
      month, at the same time of day. */
  lemma EndOfDesiredMonth(t: Time, k: int)
    ensures var d := DateOf(t);
      var s := ShiftMonth(d.year, d.month, k);
      DateOf(SetMonth(t, MonthIndex(t) + k + 1, 0)) == Date(s.year, s.month, DaysInMonth(s.year, s.month))
    ensures TimeOfDay(SetMonth(t, MonthIndex(t) + k + 1, 0)) == TimeOfDay(t)
  {
    var d := DateOf(t);
    var s := ShiftMonth(d.year, d.month, k);
    var last := Date(s.year, s.month, DaysInMonth(s.year, s.month));
    EndOfShiftedMonth(d.year, d.month, k);
    assert SetMonth(t, MonthIndex(t) + k + 1, 0) == AtMinute(DayNumber(last), TimeOfDay(t));
    AtMinuteParts(DayNumber(last), TimeOfDay(t));
    DateOfDayNumber(last);
  }

  /** addMonths moves to the shifted month, clamps the date of the month to
      that month's length, and keeps the time of day. */
  lemma AddMonthsCivil(t: Time, k: int)
    ensures var d := DateOf(t);
      var s := ShiftMonth(d.year, d.month, k);
      DateOf(AddMonths(t, k)) == Date(s.year, s.month, Min(d.day, DaysInMonth(s.year, s.month)))
    ensures TimeOfDay(AddMonths(t, k)) == TimeOfDay(t)
  {
    var d := DateOf(t);
    var s := ShiftMonth(d.year, d.month, k);
    var dim := DaysInMonth(s.year, s.month);
    if k == 0 {
      assert s.year == d.year && s.month == d.month;
    } else {
      var eom := SetMonth(t, MonthIndex(t) + k + 1, 0);
      EndOfDesiredMonth(t, k);
      assert DateOfMonth(eom) == dim;
      assert FullYear(eom) == s.year && MonthIndex(eom) == s.month - 1;
      if d.day >= dim {
        assert AddMonths(t, k) == eom;
      } else {
        assert AddMonths(t, k) == SetFullYear(t, s.year, s.month - 1, d.day);
        SetFullYearOfDate(t, Date(s.year, s.month, d.day));
      }
    }
  }

  /** addMonths by one moves to the following month, from December to
      January of the next year, clamping the date of the month. */
  lemma NextMonthCivil(t: Time)
    ensures var d := DateOf(t);
      var n := DateOf(AddMonths(t, 1));
      && (n.year, n.month) == (if d.month == 12 then (d.year + 1, 1) else (d.year, d.month + 1))
      && n.day == Min(d.day, DaysInMonth(n.year, n.month))
  {
    var d := DateOf(t);
    AddMonthsCivil(t, 1);
    ShiftMonthNeighbours(d.year, d.month);
  }

  /** addMonths by minus one moves to the preceding month, from January to
      December of the year before, clamping the date of the month. */
  lemma PrevMonthCivil(t: Time)
    ensures var d := DateOf(t);
      var p := DateOf(AddMonths(t, -1));
      && (p.year, p.month) == (if d.month == 1 then (d.year - 1, 12) else (d.year, d.month - 1))
      && p.day == Min(d.day, DaysInMonth(p.year, p.month))
  {
    var d := DateOf(t);
    AddMonthsCivil(t, -1);
    ShiftMonthNeighbours(d.year, d.month);
  }

  /** addYears moves to the same month of the year `k` on, clamping
      29 February to 28 February, and keeps the time of day. */
  lemma AddYearsCivil(t: Time, k: int)
    ensures var d := DateOf(t);
      DateOf(AddYears(t, k)) == Date(d.year + k, d.month, Min(d.day, DaysInMonth(d.year + k, d.month)))
    ensures TimeOfDay(AddYears(t, k)) == TimeOfDay(t)
  {
    var d := DateOf(t);
    AddMonthsCivil(t, k * 12);
    ShiftMonthYears(d.year, d.month, k);
  }

  /** `12 * k` months on is the same month `k` years on. */
  lemma ShiftMonthYears(y: int, m: int, k: int)
    requires 1 <= m <= 12
    ensures ShiftMonth(y, m, k * 12) == Date(y + k, m, 1)
  {
    var idx := m - 1 + k * 12;
    assert idx / 12 == k && idx % 12 == m - 1;
  }
}
