/**
 The event form: how it is filled when it opens, how editing the date or
 the time of the start or the end moves the other end, the conflict flag it
 keeps in step with the store, and the payload it submits.

 The current time is a parameter. Times are whole minutes, so the seconds
 and milliseconds the source zeroes are not represented.
 */
module EventForm {
  import opened CivilTime
  import opened Types
  import opened Palette
  import App

  /** The form's fields. */
  datatype Form = Form(
    title: string,
    start: Time,
    end: Time,
    category: Category,
    color: string,
    location: string,
    description: string,
    isConflict: bool)

  /** What the conflict flag is computed against: the stored events and the
      id of the event under edit, which is left out of the check. */
  datatype ConflictContext = ConflictContext(events: seq<Event>, exclude: Option<string>)

  /** The context the application hands the form. */
  function ContextOf(st: App.AppState): ConflictContext
  {
    ConflictContext(st.events, App.FormExcludeId(st))
  }

  /** The flag shows whether the form's interval overlaps a stored event
      other than the one under edit. */
  predicate Consistent(f: Form, ctx: ConflictContext)
  {
    f.isConflict <==>
      exists i :: 0 <= i < |ctx.events| && App.Clashes(ctx.events[i], f.start, f.end, ctx.exclude)
  }

  /** The effect that re-runs the conflict check after start or end change. */
  function Refresh(f: Form, ctx: ConflictContext): (r: Form)
    ensures Consistent(r, ctx)
    ensures r == f.(isConflict := r.isConflict)
  {
    f.(isConflict := App.CheckOverlap(ctx.events, f.start, f.end, ctx.exclude))
  }

  /** setHours(h) with one argument: the minutes are kept. */
  function SetHoursKeepMinutes(t: Time, h: int): Time
  {
    SetHours(t, h, Minutes(t))
  }

  /** Moving the clock one hour on, by setHours(getHours() + 1), is adding
      sixty minutes, across midnight too. */
  lemma OneHourLater(t: Time)
    ensures SetHoursKeepMinutes(t, Hours(t) + 1) == AddMinutes(t, MinutesPerHour)
  {
    TimeSplit(t);
  }

  // ---------------------------------------------------------------------------
  // Opening the form

  /** The fields of an event as the partial record the form is opened with. */
  function ToPartial(e: Event): (p: Partial)
    ensures p.id == Some(e.id) && p.start == Some(e.start) && p.end == Some(e.end)
  {
    Partial(Some(e.id), Some(e.title), Some(e.start), Some(e.end), e.description,
            e.location, Some(e.category), e.source, e.color)
  }

  /** The start of a form opened on a day: the clicked time, or when that is
      midnight, the start of the hour after the current one on that day. */
  function StartForSelectedDate(selected: Time, now: Time): Time
  {
    if Hours(selected) == 0 && Minutes(selected) == 0 then SetHours(selected, Hours(now) + 1, 0)
    else selected
  }

  /** The start of a generic new form: the next full hour after now. */
  function StartForNow(now: Time): Time
  {
    var s := SetHours(now, Hours(now), 0);
    SetHoursKeepMinutes(s, Hours(s) + 1)
  }

  /** The opening effect: from the event under edit (defaults for what it
      lacks, now for a missing start or end), else from the selected day,
      else from now; a new event runs one hour and is personal and blue. */
  function InitForm(initialData: Option<Partial>, selectedDate: Option<Time>, now: Time, ctx: ConflictContext): (r: Form)
    ensures Consistent(r, ctx)
    ensures initialData.Some? ==>
      var p := initialData.value;
      && r.start == GetOr(p.start, now) && r.end == GetOr(p.end, now)
      && r.title == OrString(p.title, "") && r.category == GetOr(p.category, Personal)
      && r.color == OrString(p.color, DefaultColor)
      && r.location == OrString(p.location, "") && r.description == OrString(p.description, "")
    ensures initialData.None? ==>
      && r.title == "" && r.category == Personal && r.color == DefaultColor
      && r.location == "" && r.description == ""
      && r.end == r.start + MinutesPerHour
    ensures initialData.None? ==>
      r.start == (if selectedDate.Some? then StartForSelectedDate(selectedDate.value, now) else StartForNow(now))
  {
    if initialData.Some? then
      var p := initialData.value;
      Refresh(Form(OrString(p.title, ""), GetOr(p.start, now), GetOr(p.end, now), GetOr(p.category, Personal),
                   OrString(p.color, DefaultColor), OrString(p.location, ""), OrString(p.description, ""), false), ctx)
    else
      var s := if selectedDate.Some? then StartForSelectedDate(selectedDate.value, now) else StartForNow(now);
      OneHourLater(s);
      Refresh(Form("", s, SetHoursKeepMinutes(s, Hours(s) + 1), Personal, DefaultColor, "", "", false), ctx)
  }

  /** A form opened on a day keeps a clicked time that is not midnight; for
      midnight it starts at the hour after the current one, on that day
      (or at midnight after it, when the current hour is the last). */
  lemma SelectedDateStart(selected: Time, now: Time)
    ensures TimeOfDay(selected) != 0 ==> StartForSelectedDate(selected, now) == selected
    ensures TimeOfDay(selected) == 0 ==>
      StartForSelectedDate(selected, now) == AtMinute(DayOf(selected), (Hours(now) + 1) * MinutesPerHour)
  {
    TimeSplit(selected);
  }

  /** A generic new form starts at a full hour, later than now by at most
      an hour. */
  lemma StartForNowIsNextHour(now: Time)
    ensures var s := StartForNow(now);
      s % MinutesPerHour == 0 && now < s <= now + MinutesPerHour
  {
    var s0 := SetHours(now, Hours(now), 0);
    TimeSplit(now);
    var k := DayOf(now) * 24 + Hours(now);
    assert s0 == k * MinutesPerHour == now - Minutes(now);
    OneHourLater(s0);
    assert StartForNow(now) == (k + 1) * MinutesPerHour;
  }

  /** The form for the application's current state: editing the selected
      event, or creating on the selected day, or creating from now. */
  function FormFor(st: App.AppState, now: Time): (r: Form)
    ensures Consistent(r, ContextOf(st))
  {
    var initialData := if st.editingEvent.Some? then Some(ToPartial(st.editingEvent.value)) else None;
    InitForm(initialData, st.selectedDateForCreation, now, ContextOf(st))
  }

  // ---------------------------------------------------------------------------
  // Submitting

  /** handleSubmit: nothing without a title; otherwise the seven edited
      fields, never an id or a source. */
  function Submit(f: Form): (r: Option<Partial>)
    ensures r.None? <==> f.title == ""
    ensures r.Some? ==> r.value.id.None? && r.value.source.None?
    ensures r.Some? ==> r.value.start == Some(f.start) && r.value.end == Some(f.end)
  {
    if f.title == "" then None
    else Some(Partial(None, Some(f.title), Some(f.start), Some(f.end), Some(f.description),
                      Some(f.location), Some(f.category), None, Some(f.color)))
  }

  /** Submitting a new event stores it last, with the fresh id, from the
      user, with the form's fields as entered. */
  lemma SubmitCreates(st: App.AppState, f: Form, freshId: string)
    requires st.editingEvent.None? && f.title != ""
    ensures var r := App.SaveEvent(st, Submit(f).value, freshId);
      r.events == st.events + [Event(freshId, f.title, f.start, f.end, Some(f.description),
                                     Some(f.location), f.category, Some(User), Some(f.color))]
  {
    var r := App.SaveEvent(st, Submit(f).value, freshId);
    App.SaveCreateDefaults(st, Submit(f).value, freshId);
    assert r.events[..|st.events|] == st.events;
    assert r.events == r.events[..|st.events|] + [r.events[|st.events|]];
  }

  /** Opening an event for edit and saving it untouched changes nothing
      but the absent description, location and colour, which become the
      form's defaults; its id, source and the other events are kept. */
  lemma EditRoundTrip(st: App.AppState, e: Event, k: int, now: Time)
    requires App.UniqueIds(st.events) && 0 <= k < |st.events| && st.events[k] == e
    requires e.title != ""
    ensures var st' := App.OpenEditModal(st, e);
      var data := Submit(FormFor(st', now));
      && data.Some?
      && var r := App.SaveEvent(st', data.value, "");
      && r.events[k] == e.(description := Some(OrString(e.description, "")),
                           location := Some(OrString(e.location, "")),
                           color := Some(OrString(e.color, DefaultColor)))
      && (forall i :: 0 <= i < |st.events| && i != k ==> r.events[i] == st.events[i])
  {
    var st' := App.OpenEditModal(st, e);
    var data := Submit(FormFor(st', now)).value;
    App.SaveEditChangesOnlyEdited(st', data, k);
  }

  // ---------------------------------------------------------------------------
  // Editing the date and the time

  /** The value of a native date field: empty, or the year, month (from 1)
      and day it shows. */
  datatype DateInput = NoDate | PickedDate(year: int, month: int, day: int)

  /** The value of a native time field: empty, or hours and minutes. */
  datatype TimeInput = NoTime | PickedTime(hours: int, minutes: int)

  /** `t` moved onto the calendar day of `day`, its clock time kept. */
  function MoveToDay(t: Time, day: Time): Time
  {
    SetFullYear(t, FullYear(day), MonthIndex(day), DateOfMonth(day))
  }

  lemma MoveToDayParts(t: Time, day: Time)
    ensures MoveToDay(t, day) == AtMinute(DayOf(day), TimeOfDay(t))
  {
    MakeDayOfDate(DateOf(day));
  }

  /** Moving onto a day gives that day's calendar date. */
  lemma MoveToDayDate(t: Time, day: Time)
    ensures DateOf(MoveToDay(t, day)) == DateOf(day)
  {
    MoveToDayParts(t, day);
    AtMinuteParts(DayOf(day), TimeOfDay(t));
  }

  /** Setting the start moves the end one hour past it when the start
      would otherwise pass the end; setting the end moves nothing else. */
  function ApplyDay(f: Form, isStart: bool, day: Time): Form
  {
    if isStart then
      var s := MoveToDay(f.start, day);
      if s > f.end then f.(start := s, end := SetHoursKeepMinutes(s, Hours(s) + 1))
      else f.(start := s)
    else f.(end := MoveToDay(f.end, day))
  }

  /** The day a date field names, read with the year as given. */
  function PickedDay(year: int, month: int, day: int): Time
  {
    LocalTime(year, month - 1, day, 0, 0)
  }

  /** handleDatePartChange as written: the date field is read through the
      Date constructor, which turns years 0 to 99 into 1900 to 1999. */
  function DatePartChangeAsWritten(f: Form, ctx: ConflictContext, isStart: bool, input: DateInput): (r: Form)
    ensures input.NoDate? ==> r == f
    ensures input.PickedDate? ==> Consistent(r, ctx)
    ensures input.PickedDate? && isStart ==> r.start <= r.end
  {
    match input
    case NoDate => f
    case PickedDate(y, m, d) =>
      var day := NewDateAsWritten(y, m - 1, d, 0, 0);
      OneHourLater(MoveToDay(f.start, day));
      Refresh(ApplyDay(f, isStart, day), ctx)
  }

  /** Outside the years 0 to 99 the constructor reads the year as given, so
      the edit as written and the corrected one agree. */
  lemma DatePartChangeAgreesOutsideTwoDigitYears(f: Form, ctx: ConflictContext, isStart: bool, y: int, m: int, d: int)
    requires PlainYear(y)
    ensures DatePartChangeAsWritten(f, ctx, isStart, PickedDate(y, m, d)) == DatePartChange(f, ctx, isStart, PickedDate(y, m, d))
  {
    assert NewDateAsWritten(y, m - 1, d, 0, 0) == PickedDay(y, m, d);
  }

  /** The Date constructor reads year `y` from 0 to 99 as 1900 + y. */
  lemma AsWrittenYear(y: int)
    requires 0 <= y <= 99
    ensures DateOf(NewDateAsWritten(y, 1, 1, 0, 0)) == Date(1900 + y, 2, 1)
  {
    var target := Date(1900 + y, 2, 1);
    assert ValidDate(target);
    MakeDayOfDate(target);
    AtMinuteParts(DayNumber(target), 0);
    DateOfDayNumber(target);
  }

  /** Picking a year from 0 to 99 in the start's date field (February 1st,
      say) puts the start 1900 years later than picked. */
  lemma TwoDigitYearCounterexample(f: Form, ctx: ConflictContext, y: int)
    requires 0 <= y <= 99
    ensures var r := DatePartChangeAsWritten(f, ctx, true, PickedDate(y, 2, 1));
      FullYear(r.start) == 1900 + y != y
  {
    var day := NewDateAsWritten(y, 1, 1, 0, 0);
    var s := MoveToDay(f.start, day);
    AsWrittenYear(y);
    MoveToDayDate(f.start, day);
    assert FullYear(s) == 1900 + y;
    StartEditMovesStart(f, ctx, day);
  }

  /** A start edit moves the start onto the day given, whatever the end. */
  lemma StartEditMovesStart(f: Form, ctx: ConflictContext, day: Time)
    ensures Refresh(ApplyDay(f, true, day), ctx).start == MoveToDay(f.start, day)
  {
  }

  /** handleDatePartChange with the field's year taken as shown. */
  function DatePartChange(f: Form, ctx: ConflictContext, isStart: bool, input: DateInput): (r: Form)
    ensures input.NoDate? ==> r == f
    ensures input.PickedDate? ==> Consistent(r, ctx)
    ensures input.PickedDate? ==>
      && r.title == f.title && r.category == f.category && r.color == f.color
      && r.location == f.location && r.description == f.description
  {
    match input
    case NoDate => f
    case PickedDate(y, m, d) => Refresh(ApplyDay(f, isStart, PickedDay(y, m, d)), ctx)
  }

  /** Picking a valid date for the start puts the start on that date at the
      same clock time and leaves the end alone unless the start would pass
      it, in which case the end is one hour after the start; picking one for
      the end moves only the end, likewise. */
  lemma DatePartChangeSetsDate(f: Form, ctx: ConflictContext, isStart: bool, y: int, m: int, d: int)
    requires ValidDate(Date(y, m, d))
    ensures var r := DatePartChange(f, ctx, isStart, PickedDate(y, m, d));
      && (isStart ==>
            && DateOf(r.start) == Date(y, m, d) && TimeOfDay(r.start) == TimeOfDay(f.start)
            && r.start <= r.end
            && (r.start <= f.end ==> r.end == f.end)
            && (r.start > f.end ==> r.end == r.start + MinutesPerHour))
      && (!isStart ==>
            && DateOf(r.end) == Date(y, m, d) && TimeOfDay(r.end) == TimeOfDay(f.end)
            && r.start == f.start)
  {
    var target := Date(y, m, d);
    var day := PickedDay(y, m, d);
    MakeDayOfDate(target);
    assert DayOf(day) == DayNumber(target);
    DateOfDayNumber(target);
    var t := if isStart then f.start else f.end;
    MoveToDayParts(t, day);
    AtMinuteParts(DayNumber(target), TimeOfDay(t));
    OneHourLater(MoveToDay(t, day));
  }

  /** handleTimePartChange: set hours and minutes of the start or the end;
      a start set past the end takes the end to one hour after it. */
  function TimePartChange(f: Form, ctx: ConflictContext, isStart: bool, input: TimeInput): (r: Form)
    ensures input.NoTime? ==> r == f
    ensures input.PickedTime? ==> Consistent(r, ctx)
    ensures input.PickedTime? ==>
      && r.title == f.title && r.category == f.category && r.color == f.color
      && r.location == f.location && r.description == f.description
  {
    match input
    case NoTime => f
    case PickedTime(h, m) =>
      var f' :=
        if isStart then
          var s := SetHours(f.start, h, m);
          if s > f.end then f.(start := s, end := SetHours(s, h + 1, m)) else f.(start := s)
        else f.(end := SetHours(f.end, h, m));
      Refresh(f', ctx)
  }

  /** An in-range clock time keeps the day and sets the clock; a start set
      past the end takes the end to one hour after it, otherwise the end
      stays; setting the end leaves the start alone. */
  lemma TimePartChangeSetsClock(f: Form, ctx: ConflictContext, isStart: bool, h: int, m: int)
    requires 0 <= h < 24 && 0 <= m < MinutesPerHour
    ensures var r := TimePartChange(f, ctx, isStart, PickedTime(h, m));
      && (isStart ==>
            && DayOf(r.start) == DayOf(f.start) && Hours(r.start) == h && Minutes(r.start) == m
            && r.start <= r.end
            && (r.start <= f.end ==> r.end == f.end)
            && (r.start > f.end ==> r.end == r.start + MinutesPerHour))
      && (!isStart ==>
            && DayOf(r.end) == DayOf(f.end) && Hours(r.end) == h && Minutes(r.end) == m
            && r.start == f.start)
  {
    SetHoursInRange(f.start, h, m);
    SetHoursInRange(f.end, h, m);
  }

  /** An end edit is not checked against the start: on a one-day event,
      picking an end time earlier than the start's leaves the end before
      the start. */
  lemma {:induction false} EndEditCanPrecedeStart(f: Form, ctx: ConflictContext, h: int, m: int)
    requires 0 <= h < 24 && 0 <= m < MinutesPerHour
    requires DayOf(f.start) == DayOf(f.end) && h * MinutesPerHour + m < TimeOfDay(f.start)
    ensures var r := TimePartChange(f, ctx, false, PickedTime(h, m));
      r.end < r.start && r.start == f.start
  {
    var r := TimePartChange(f, ctx, false, PickedTime(h, m));
    TimePartChangeSetsClock(f, ctx, false, h, m);
    TimeSplit(r.end);
    TimeSplit(f.start);
  }

  /** Whatever sequence of date and time edits the user makes, the conflict
      flag stays in step with the store. */
  lemma EditsKeepFlagConsistent(f: Form, ctx: ConflictContext, isStart: bool, di: DateInput, ti: TimeInput)
    requires Consistent(f, ctx)
    ensures Consistent(DatePartChange(f, ctx, isStart, di), ctx)
    ensures Consistent(TimePartChange(f, ctx, isStart, ti), ctx)
  {
  }
}
