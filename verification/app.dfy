/**
 The top-level calendar controller: the ordered event store, the overlap
 query every component asks, and the handlers that create, edit, append,
 delete and reschedule events or move the displayed date.

 Each handler is one atomic step from one controller state to the next.
 Fresh event ids (crypto.randomUUID) are supplied by the caller.
 */
module App {
  import opened CivilTime
  import opened Types

  // ---------------------------------------------------------------------------
  // Interval overlap

  function Max(a: int, b: int): int
  {
    if a >= b then a else b
  }

  /** date-fns areIntervalsOverlapping without the inclusive option: each
      interval's two ends are put in order, then the intervals must share an
      instant other than a common end point. */
  predicate IntervalsOverlap(aStart: Time, aEnd: Time, bStart: Time, bEnd: Time)
  {
    var leftStart, leftEnd := Min(aStart, aEnd), Max(aStart, aEnd);
    var rightStart, rightEnd := Min(bStart, bEnd), Max(bStart, bEnd);
    leftStart < rightEnd && rightStart < leftEnd
  }

  /** For intervals whose start is not after their end the test is the
      half-open one: each starts before the other ends. */
  lemma OverlapOfOrderedIntervals(aStart: Time, aEnd: Time, bStart: Time, bEnd: Time)
    requires aStart <= aEnd && bStart <= bEnd
    ensures IntervalsOverlap(aStart, aEnd, bStart, bEnd) <==> aStart < bEnd && bStart < aEnd
  {
  }

  /** Overlap does not depend on which interval is named first. */
  lemma OverlapSymmetric(aStart: Time, aEnd: Time, bStart: Time, bEnd: Time)
    ensures IntervalsOverlap(aStart, aEnd, bStart, bEnd) <==> IntervalsOverlap(bStart, bEnd, aStart, aEnd)
  {
  }

  /** Back-to-back intervals do not overlap; an interval of positive length
      overlaps itself. */
  lemma OverlapTouchingAndSelf(aStart: Time, mid: Time, bEnd: Time)
    requires aStart <= mid <= bEnd
    ensures !IntervalsOverlap(aStart, mid, mid, bEnd)
    ensures aStart < mid ==> IntervalsOverlap(aStart, mid, aStart, mid)
  {
  }

  /** An event is skipped by the overlap query when a non-empty excluded id
      equals its id (an empty id string is falsy and excludes nothing). */
  predicate Excluded(e: Event, excludeId: Option<string>)
  {
    excludeId.Some? && excludeId.value != "" && e.id == excludeId.value
  }

  predicate Clashes(e: Event, start: Time, end: Time, excludeId: Option<string>)
  {
    !Excluded(e, excludeId) && IntervalsOverlap(e.start, e.end, start, end)
  }

  /** checkOverlap: does some stored event, other than the excluded one,
      overlap the interval from `start` to `end`? */
  function CheckOverlap(events: seq<Event>, start: Time, end: Time, excludeId: Option<string>): (r: bool)
    ensures r <==> exists i :: 0 <= i < |events| && Clashes(events[i], start, end, excludeId)
  {
    if |events| == 0 then false
    else if Clashes(events[0], start, end, excludeId) then true
    else
      var rest := CheckOverlap(events[1..], start, end, excludeId);
      assert forall i :: 1 <= i < |events| ==> events[i] == events[1..][i - 1];
      rest
  }

  // ---------------------------------------------------------------------------
  // The store

  /** No two stored events share an id. */
  predicate UniqueIds(events: seq<Event>)
  {
    forall i, j :: 0 <= i < j < |events| ==> events[i].id != events[j].id
  }

  predicate HasId(events: seq<Event>, id: string)
  {
    exists i :: 0 <= i < |events| && events[i].id == id
  }

  /** The store without the events carrying `id` (Array.prototype.filter). */
  function RemoveId(events: seq<Event>, id: string): (r: seq<Event>)
    ensures forall e :: e in r <==> e in events && e.id != id
    ensures forall e: Event :: e.id != id ==> multiset(r)[e] == multiset(events)[e]
    ensures forall e: Event :: e.id == id ==> multiset(r)[e] == 0
    ensures !HasId(events, id) ==> r == events
  {
    if |events| == 0 then []
    else
      var rest := RemoveId(events[1..], id);
      RemoveIdStep(events, rest, id);
      if events[0].id == id then rest else [events[0]] + rest
  }

  /** One step of RemoveId: dropping or keeping the first event in front of
      what remains of the rest removes exactly the events with the id. */
  lemma RemoveIdStep(events: seq<Event>, rest: seq<Event>, id: string)
    requires |events| > 0
    requires forall e :: e in rest <==> e in events[1..] && e.id != id
    requires forall e: Event :: e.id != id ==> multiset(rest)[e] == multiset(events[1..])[e]
    requires forall e: Event :: e.id == id ==> multiset(rest)[e] == 0
    requires !HasId(events[1..], id) ==> rest == events[1..]
    ensures var r := if events[0].id == id then rest else [events[0]] + rest;
      && (forall e :: e in r <==> e in events && e.id != id)
      && (forall e: Event :: e.id != id ==> multiset(r)[e] == multiset(events)[e])
      && (forall e: Event :: e.id == id ==> multiset(r)[e] == 0)
      && (!HasId(events, id) ==> r == events)
  {
    var x := events[0];
    assert events == [x] + events[1..];
    assert multiset(events) == multiset{x} + multiset(events[1..]);
    if x.id != id {
      assert multiset([x] + rest) == multiset{x} + multiset(rest);
    }
    HasIdTail(events, id);
  }

  /** A store without the id has a tail without it, and starts with
      another id. */
  lemma HasIdTail(events: seq<Event>, id: string)
    requires |events| > 0
    ensures !HasId(events, id) ==> events[0].id != id && !HasId(events[1..], id)
  {
    if HasId(events[1..], id) {
      var i :| 0 <= i < |events[1..]| && events[1..][i].id == id;
      assert events[i + 1].id == id;
    }
  }

  /** Removal keeps the relative order of what remains: it distributes over
      concatenation. */
  lemma {:induction false} RemoveIdAppend(a: seq<Event>, b: seq<Event>, id: string)
    ensures RemoveId(a + b, id) == RemoveId(a, id) + RemoveId(b, id)
    decreases |a|
  {
    if |a| == 0 {
      assert a + b == b;
    } else {
      assert (a + b)[1..] == a[1..] + b;
      RemoveIdAppend(a[1..], b, id);
    }
  }

  /** Every position of the store replaced by `f` of the event there when it
      carries `id`, left alone otherwise (Array.prototype.map). */
  function MapId(events: seq<Event>, id: string, f: Event -> Event): (r: seq<Event>)
    ensures |r| == |events|
    ensures forall i :: 0 <= i < |events| && events[i].id != id ==> r[i] == events[i]
    ensures forall i :: 0 <= i < |events| && events[i].id == id ==> r[i] == f(events[i])
  {
    seq(|events|, i requires 0 <= i < |events| => if events[i].id == id then f(events[i]) else events[i])
  }

  // ---------------------------------------------------------------------------
  // Controller state

  datatype AppState = AppState(
    currentDate: Time,
    viewMode: ViewMode,
    events: seq<Event>,
    selectedEvent: Option<Event>,
    isFormOpen: bool,
    editingEvent: Option<Event>,
    selectedDateForCreation: Option<Time>)

  /** The state on start-up: today, the month view, no events. */
  function Initial(now: Time): (r: AppState)
    ensures r.currentDate == now && r.viewMode == Month && r.events == []
    ensures r.selectedEvent.None? && !r.isFormOpen && r.editingEvent.None? && r.selectedDateForCreation.None?
    ensures UniqueIds(r.events)
  {
    AppState(now, Month, [], None, false, None, None)
  }

  /** The event a create saves: the given fields with defaults for a
      missing or empty title, category, description and location. */
  function NewUserEvent(data: Partial, id: string): Event
    requires data.start.Some? && data.end.Some?
  {
    Event(
      id,
      OrString(data.title, "Untitled"),
      data.start.value,
      data.end.value,
      Some(OrString(data.description, "")),
      Some(OrString(data.location, "")),
      GetOr(data.category, Personal),
      Some(User),
      data.color)
  }

  /** handleSaveEvent: with an event under edit, merge the payload into
      every stored event with that id; otherwise append a new user event.
      Either way the form closes. The source asserts that a create payload
      has a start and an end. */
  function SaveEvent(st: AppState, data: Partial, freshId: string): (r: AppState)
    requires st.editingEvent.None? ==> data.start.Some? && data.end.Some?
    ensures !r.isFormOpen && r.editingEvent.None? && r.selectedDateForCreation.None?
    ensures r == st.(events := r.events, isFormOpen := false, editingEvent := None, selectedDateForCreation := None)
    ensures st.editingEvent.None? ==>
      |r.events| == |st.events| + 1 && r.events[..|st.events|] == st.events
    ensures st.editingEvent.Some? ==> |r.events| == |st.events|
    ensures st.editingEvent.Some? ==> forall i :: 0 <= i < |st.events| ==>
      r.events[i] == (if st.events[i].id == st.editingEvent.value.id then Merge(st.events[i], data) else st.events[i])
  {
    var events :=
      if st.editingEvent.Some? then MapId(st.events, st.editingEvent.value.id, e => Merge(e, data))
      else st.events + [NewUserEvent(data, freshId)];
    st.(events := events, isFormOpen := false, editingEvent := None, selectedDateForCreation := None)
  }

  /** A create appends exactly one event, last, with the fresh id, source
      'user' and the defaults for absent fields. */
  lemma SaveCreateDefaults(st: AppState, data: Partial, freshId: string)
    requires st.editingEvent.None? && data.start.Some? && data.end.Some?
    ensures var r := SaveEvent(st, data, freshId);
      var e := r.events[|st.events|];
      && e.id == freshId && e.source == Some(User)
      && e.start == data.start.value && e.end == data.end.value
      && e.title == OrString(data.title, "Untitled")
      && e.category == GetOr(data.category, Personal)
      && e.description == Some(OrString(data.description, ""))
      && e.location == Some(OrString(data.location, ""))
      && e.color == data.color
  {
  }

  /** An edit whose payload names no id or source (the form's never does)
      changes exactly the edited event, keeps its id and source, and keeps
      every other event. */
  lemma SaveEditChangesOnlyEdited(st: AppState, data: Partial, k: int)
    requires st.editingEvent.Some? && data.id.None? && data.source.None?
    requires UniqueIds(st.events)
    requires 0 <= k < |st.events| && st.events[k].id == st.editingEvent.value.id
    ensures var r := SaveEvent(st, data, "");
      && r.events[k] == Merge(st.events[k], data)
      && r.events[k].id == st.events[k].id && r.events[k].source == st.events[k].source
      && forall i :: 0 <= i < |st.events| && i != k ==> r.events[i] == st.events[i]
  {
  }

  /** handleAddAIEvents: append the batch and jump to the first event's start. */
  function AddAIEvents(st: AppState, newEvents: seq<Event>): (r: AppState)
    ensures r.events == st.events + newEvents
    ensures |newEvents| > 0 ==> r.currentDate == newEvents[0].start
    ensures |newEvents| == 0 ==> r == st
    ensures r == st.(events := r.events, currentDate := r.currentDate)
  {
    var st' := st.(events := st.events + newEvents);
    if |newEvents| > 0 then st'.(currentDate := newEvents[0].start) else st'
  }

  /** handleDeleteEvent: drop every event with that id and the selection. */
  function DeleteEvent(st: AppState, id: string): (r: AppState)
    ensures !HasId(r.events, id)
    ensures r.selectedEvent.None?
    ensures !HasId(st.events, id) ==> r.events == st.events
    ensures forall e: Event :: e.id != id ==> multiset(r.events)[e] == multiset(st.events)[e]
    ensures r == st.(events := r.events, selectedEvent := None)
  {
    var events := RemoveId(st.events, id);
    assert forall i :: 0 <= i < |events| ==> events[i] in events;
    st.(events := events, selectedEvent := None)
  }

  /** The new start and end of an event dropped on `newDate`: in the month
      view on that day at the event's own time of day, otherwise exactly at
      `newDate`; the duration in minutes is kept. */
  function Reschedule(e: Event, newDate: Time, view: ViewMode): (r: Event)
    ensures r == e.(start := r.start, end := r.end)
    ensures r.end - r.start == e.end - e.start
    ensures view == Month ==> DayOf(r.start) == DayOf(newDate) && TimeOfDay(r.start) == TimeOfDay(e.start)
    ensures view != Month ==> r.start == newDate
  {
    var duration := DifferenceInMinutes(e.end, e.start);
    var newStart := if view == Month then SetHours(newDate, Hours(e.start), Minutes(e.start)) else newDate;
    TimeSplit(e.start);
    SetHoursInRange(newDate, Hours(e.start), Minutes(e.start));
    TimeSplit(newStart);
    e.(start := newStart, end := AddMinutes(newStart, duration))
  }

  /** handleMoveEvent: reschedule every event with that id under the
      current view mode, leaving all else alone. */
  function MoveEvent(st: AppState, eventId: string, newDate: Time): (r: AppState)
    ensures r == st.(events := r.events)
    ensures |r.events| == |st.events|
    ensures forall i :: 0 <= i < |st.events| && st.events[i].id != eventId ==> r.events[i] == st.events[i]
    ensures forall i :: 0 <= i < |st.events| && st.events[i].id == eventId ==>
      r.events[i] == Reschedule(st.events[i], newDate, st.viewMode)
  {
    st.(events := MapId(st.events, eventId, e => Reschedule(e, newDate, st.viewMode)))
  }

  /** Dragging an event in the month view onto the day `n` days after its
      own moves both its start and its end by exactly `n` days. */
  lemma MoveInMonthViewByDays(e: Event, n: int)
    ensures var r := Reschedule(e, AtMinute(DayOf(e.start) + n, 0), Month);
      r.start == e.start + n * MinutesPerDay && r.end == e.end + n * MinutesPerDay
  {
    var target := AtMinute(DayOf(e.start) + n, 0);
    var r := Reschedule(e, target, Month);
    AtMinuteParts(DayOf(e.start) + n, 0);
    TimeSplit(r.start);
    TimeSplit(e.start);
  }

  // ---------------------------------------------------------------------------
  // Navigation

  /** One step of the displayed date: a month, a day or a year forwards or
      backwards depending on the view. */
  function Step(t: Time, view: ViewMode, forward: bool): Time
  {
    var k := if forward then 1 else -1;
    match view
    case Month => AddMonths(t, k)
    case Day => AddDays(t, k)
    case Year => AddYears(t, k)
  }

  /** Every step keeps the time of day. */
  lemma StepKeepsTimeOfDay(t: Time, view: ViewMode, forward: bool)
    ensures TimeOfDay(Step(t, view, forward)) == TimeOfDay(t)
  {
    var k := if forward then 1 else -1;
    match view
    case Month => AddMonthsCivil(t, k);
    case Day =>
    case Year => AddYearsCivil(t, k);
  }

  /** navigateNext */
  function NavigateNext(st: AppState): (r: AppState)
    ensures r == st.(currentDate := r.currentDate)
    ensures TimeOfDay(r.currentDate) == TimeOfDay(st.currentDate)
  {
    StepKeepsTimeOfDay(st.currentDate, st.viewMode, true);
    st.(currentDate := Step(st.currentDate, st.viewMode, true))
  }

  /** navigatePrev */
  function NavigatePrev(st: AppState): (r: AppState)
    ensures r == st.(currentDate := r.currentDate)
    ensures TimeOfDay(r.currentDate) == TimeOfDay(st.currentDate)
  {
    StepKeepsTimeOfDay(st.currentDate, st.viewMode, false);
    st.(currentDate := Step(st.currentDate, st.viewMode, false))
  }

  /** In the day view, next and previous undo each other. */
  lemma DayNavigationRoundTrip(st: AppState)
    requires st.viewMode == Day
    ensures NavigatePrev(NavigateNext(st)) == st
    ensures NavigateNext(NavigatePrev(st)) == st
  {
  }

  /** In the month view, next moves to the following month (December to
      January of the next year); the date of the month is clamped to the new
      month's length. */
  lemma MonthNavigationNext(st: AppState)
    requires st.viewMode == Month
    ensures var d := DateOf(st.currentDate);
      var n := DateOf(NavigateNext(st).currentDate);
      && (n.year, n.month) == (if d.month == 12 then (d.year + 1, 1) else (d.year, d.month + 1))
      && n.day == Min(d.day, DaysInMonth(n.year, n.month))
  {
    assert NavigateNext(st).currentDate == AddMonths(st.currentDate, 1);
    NextMonthCivil(st.currentDate);
  }

  /** In the month view, previous moves to the preceding month (January to
      December of the year before), clamping the date of the month. */
  lemma MonthNavigationPrev(st: AppState)
    requires st.viewMode == Month
    ensures var d := DateOf(st.currentDate);
      var p := DateOf(NavigatePrev(st).currentDate);
      && (p.year, p.month) == (if d.month == 1 then (d.year - 1, 12) else (d.year, d.month - 1))
      && p.day == Min(d.day, DaysInMonth(p.year, p.month))
  {
    assert NavigatePrev(st).currentDate == AddMonths(st.currentDate, -1);
    PrevMonthCivil(st.currentDate);
  }

  /** In the year view, next moves to the same month and day of the next
      year, except that 29 February becomes 28 February. */
  lemma YearNavigationNext(st: AppState)
    requires st.viewMode == Year
    ensures var d := DateOf(st.currentDate);
      var n := DateOf(NavigateNext(st).currentDate);
      n == Date(d.year + 1, d.month, Min(d.day, DaysInMonth(d.year + 1, d.month)))
  {
    var t := st.currentDate;
    assert NavigateNext(st).currentDate == AddYears(t, 1);
    AddYearsCivil(t, 1);
  }

  /** In the year view, previous moves to the same month and day of the
      year before, except that 29 February becomes 28 February. */
  lemma YearNavigationPrev(st: AppState)
    requires st.viewMode == Year
    ensures var d := DateOf(st.currentDate);
      var p := DateOf(NavigatePrev(st).currentDate);
      p == Date(d.year - 1, d.month, Min(d.day, DaysInMonth(d.year - 1, d.month)))
  {
    var t := st.currentDate;
    assert NavigatePrev(st).currentDate == AddYears(t, -1);
    AddYearsCivil(t, -1);
  }

  /** handleViewChange: switch the view; move the date only when one is given. */
  function ViewChange(st: AppState, mode: ViewMode, date: Option<Time>): (r: AppState)
    ensures r.viewMode == mode
    ensures r.currentDate == (if date.Some? then date.value else st.currentDate)
    ensures r == st.(viewMode := mode, currentDate := r.currentDate)
  {
    var st' := st.(viewMode := mode);
    if date.Some? then st'.(currentDate := date.value) else st'
  }

  // ---------------------------------------------------------------------------
  // Opening the form

  /** openCreateModal: a create form for the given date, or the displayed one. */
  function OpenCreateModal(st: AppState, date: Option<Time>): (r: AppState)
    ensures r.isFormOpen && r.editingEvent.None?
    ensures r.selectedDateForCreation == Some(GetOr(date, st.currentDate))
    ensures r == st.(isFormOpen := true, editingEvent := None, selectedDateForCreation := r.selectedDateForCreation)
  {
    st.(editingEvent := None, selectedDateForCreation := Some(GetOr(date, st.currentDate)), isFormOpen := true)
  }

  /** openEditModal: an edit form for the event. */
  function OpenEditModal(st: AppState, e: Event): (r: AppState)
    ensures r.isFormOpen && r.editingEvent == Some(e) && r.selectedEvent.None?
    ensures r == st.(isFormOpen := true, editingEvent := Some(e), selectedEvent := None)
  {
    st.(selectedEvent := None, editingEvent := Some(e), isFormOpen := true)
  }

  /** The id the form's conflict check excludes: that of the event under edit. */
  function FormExcludeId(st: AppState): Option<string>
  {
    if st.editingEvent.Some? then Some(st.editingEvent.value.id) else None
  }

  /** Excluding an id is the same as asking the store without that id. */
  lemma ExcludeIsRemove(events: seq<Event>, start: Time, end: Time, id: string)
    requires id != ""
    ensures CheckOverlap(events, start, end, Some(id)) == CheckOverlap(RemoveId(events, id), start, end, None)
  {
    var r := RemoveId(events, id);
    if CheckOverlap(events, start, end, Some(id)) {
      var i :| 0 <= i < |events| && Clashes(events[i], start, end, Some(id));
      assert events[i] in events;
      var j :| 0 <= j < |r| && r[j] == events[i];
      assert Clashes(r[j], start, end, None);
    }
    if CheckOverlap(r, start, end, None) {
      var j :| 0 <= j < |r| && Clashes(r[j], start, end, None);
      assert r[j] in r;
      var i :| 0 <= i < |events| && events[i] == r[j];
      assert Clashes(events[i], start, end, Some(id));
    }
  }

  /** While an event is edited, the form reports a conflict exactly when
      an event with another id overlaps: the edited event's own stored
      instance never counts. */
  lemma EditedEventDoesNotConflictWithItself(st: AppState, start: Time, end: Time)
    requires st.editingEvent.Some? && st.editingEvent.value.id != ""
    ensures CheckOverlap(st.events, start, end, FormExcludeId(st)) <==>
      exists i :: 0 <= i < |st.events| && st.events[i].id != st.editingEvent.value.id
               && IntervalsOverlap(st.events[i].start, st.events[i].end, start, end)
  {
  }

  // ---------------------------------------------------------------------------
  // Unique ids are kept by every store operation

  /** Creating with a fresh id, editing with a payload that names no id,
      appending a batch of fresh distinct ids, deleting and moving all keep
      the ids of the store unique. */
  lemma SavePreservesUniqueIds(st: AppState, data: Partial, freshId: string)
    requires UniqueIds(st.events)
    requires st.editingEvent.None? ==> data.start.Some? && data.end.Some? && !HasId(st.events, freshId)
    requires st.editingEvent.Some? ==> data.id.None?
    ensures UniqueIds(SaveEvent(st, data, freshId).events)
  {
    var r := SaveEvent(st, data, freshId);
    if st.editingEvent.None? {
      forall i, j | 0 <= i < j < |r.events| ensures r.events[i].id != r.events[j].id {
        if j == |st.events| {
          assert r.events[i] == st.events[i];
        } else {
          assert r.events[i] == st.events[i] && r.events[j] == st.events[j];
        }
      }
    }
  }

  lemma AddAIEventsPreservesUniqueIds(st: AppState, newEvents: seq<Event>)
    requires UniqueIds(st.events) && UniqueIds(newEvents)
    requires forall e :: e in newEvents ==> !HasId(st.events, e.id)
    ensures UniqueIds(AddAIEvents(st, newEvents).events)
  {
    var r := AddAIEvents(st, newEvents).events;
    forall i, j | 0 <= i < j < |r| ensures r[i].id != r[j].id {
      if j >= |st.events| {
        var e := newEvents[j - |st.events|];
        assert e in newEvents;
        if i < |st.events| {
          assert r[i] == st.events[i];
        } else {
          assert r[i] == newEvents[i - |st.events|];
        }
      }
    }
  }

  lemma ConsUniqueIds(x: Event, rest: seq<Event>)
    requires UniqueIds(rest)
    requires forall e :: e in rest ==> e.id != x.id
    ensures UniqueIds([x] + rest)
  {
    var r := [x] + rest;
    forall i, j | 0 <= i < j < |r| ensures r[i].id != r[j].id {
      assert r[j] == rest[j - 1];
      if i > 0 {
        assert r[i] == rest[i - 1];
      }
    }
  }

  lemma {:induction false} RemoveIdPreservesUniqueIds(events: seq<Event>, id: string)
    requires UniqueIds(events)
    ensures UniqueIds(RemoveId(events, id))
    decreases |events|
  {
    if |events| > 0 {
      var tail := events[1..];
      var rest := RemoveId(tail, id);
      RemoveIdPreservesUniqueIds(tail, id);
      if events[0].id == id {
        assert RemoveId(events, id) == rest;
      } else {
        forall e | e in rest ensures e.id != events[0].id {
          assert e in tail;
          var k :| 0 <= k < |tail| && tail[k] == e;
          assert events[k + 1] == e;
        }
        assert RemoveId(events, id) == [events[0]] + rest;
        ConsUniqueIds(events[0], rest);
      }
    }
  }

  lemma DeleteAndMovePreserveUniqueIds(st: AppState, id: string, newDate: Time)
    requires UniqueIds(st.events)
    ensures UniqueIds(DeleteEvent(st, id).events)
    ensures UniqueIds(MoveEvent(st, id, newDate).events)
  {
    RemoveIdPreservesUniqueIds(st.events, id);
    var r := MoveEvent(st, id, newDate).events;
    forall i | 0 <= i < |r|
      ensures r[i].id == st.events[i].id
    {
      if st.events[i].id == id {
        assert r[i] == Reschedule(st.events[i], newDate, st.viewMode);
      }
    }
  }

  // ---------------------------------------------------------------------------
  // A worked scenario

  /** A store holding one event from 10:00 to 11:00 on some day reports a
      conflict for 10:30 to 10:45 and none for 11:00 to 12:00. */
  lemma OverlapScenario(day: int, e: Event)
    requires e.start == AtMinute(day, 600) && e.end == AtMinute(day, 660)
    ensures CheckOverlap([e], AtMinute(day, 630), AtMinute(day, 645), None)
    ensures !CheckOverlap([e], AtMinute(day, 660), AtMinute(day, 720), None)
  {
    assert Clashes([e][0], AtMinute(day, 630), AtMinute(day, 645), None);
  }
}
