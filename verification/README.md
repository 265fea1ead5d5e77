# Smart calendar core in Dafny

This project models the core of a single-page calendar with an AI scheduling
assistant:

- **The event store** (`App`). This is an ordered list of events, with the
  handlers that create, edit, append a batch, delete and reschedule events, and
  those that move the displayed date one day, month or year. It also holds the
  overlap query that every component asks.
- **The AI draft reconciliation** (`AIAssistant`).
  - A submission goes to the extraction service and its drafts are held for
    review.
  - The user can edit or remove single drafts, and a draft that clashes with a
    stored event is flagged.
  - Confirming commits all drafts as one batch.
  - The simulated classroom import hands a fixed batch of two events to the
    store.
- **The event form** (`EventForm`).
  - How the form is filled when it opens.
  - How editing the date or the time of the start or the end moves the other
    end.
  - The conflict flag, which it keeps in step with the store.
  - The payload it submits.
- **The calendar grid** (`CalendarGrid`).
  - The start-of-day, start-of-week, start-of-month and start-of-year helpers.
  - The days of the month view and the months of the year view.
  - Which events each day cell and each hour slot lists, and the styling each
    event gets.
  - What a drop or a click on the grid does.
- **The data model and palette** (`Types`, `Palette`). These hold the record
  shapes, the enumerations and the two colour tables.

Time is modelled as a whole number of minutes since 1970-01-01 00:00 local time
(`CivilTime`). The ECMAScript `Date` operations the core uses are written out
over that representation, following section 21.4 of ECMA-262 without daylight
saving:

- the constructor, including its reading of years 0 to 99 as 1900 to 1999;
- `setHours`, `setFullYear`, `setMonth` and `setDate`, with their carrying of
  out-of-range fields;
- the field getters.

The date-fns helpers are written out the same way: `addMinutes`, `addDays`,
`addMonths` (with its end-of-month clamping), `addYears`,
`differenceInMinutes`, `areIntervalsOverlapping`, `endOfMonth`, `endOfWeek`,
`endOfYear`, `eachDayOfInterval`, `eachMonthOfInterval` and `addHours`. They follow the library's published
algorithms. The library's source is not part of this model, so these
definitions are assumptions about it.

The calendar conversion is proved correct in both directions. `CivilFromDay`
ensures that the date it returns has the day number it was given, and
`CivilTime.CivilFromDayNumber` proves the reverse. Every day number therefore
has exactly one valid date, and `CivilTime.DateOfDay` is defined as that date.
Everything else is built on this conversion.

Things that are parameters instead of being modelled:

- Fresh ids (`crypto.randomUUID`) are passed in.
- The current time (`new Date()`) is passed in.
- The extraction service's answer is a value of type `Outcome`.

## Model

| member | source | states |
|---|---|---|
| CivilTime.CivilFromDayNumber | components/CalendarGrid.tsx:19-21 | converting a valid date to its day number and back gives the same date, so the getters read back what the constructor built |
| CivilTime.DateOfDay | components/CalendarGrid.tsx:19-21 | every day number has a valid calendar date with that day number |
| CivilTime.DateOf | components/CalendarGrid.tsx:19-21 | every time has a valid calendar date whose day number is the time's day |
| CivilTime.LocalTimeParts | components/CalendarGrid.tsx:19-21 | the Date constructor on a valid date and an in-range clock time reads back that date and time |
| CivilTime.MakeDayOfDate | components/CalendarGrid.tsx:19-21 | for an in-range date, the constructor's day computation gives that date's day number |
| CivilTime.SetFullYearOfDate | components/EventFormModal.tsx:117-118 | setFullYear with a valid date lands on that date and keeps the time of day |
| CivilTime.MakeDayShift | components/CalendarGrid.tsx:26-27 | rebuilding a time's day with its date of the month plus k lands exactly k days later |
| CivilTime.EndOfDesiredMonth | App.tsx:119 | the setMonth step of addMonths lands on the last day of the target month and keeps the time of day |
| CivilTime.SetHoursInRange | components/EventFormModal.tsx:137-150 | setting in-range hours and minutes keeps the day and sets the clock to exactly those values |
| CivilTime.SetDateShift | components/CalendarGrid.tsx:23-30 | setting the date of the month to today's date plus k moves the time by exactly k days, across month and year ends |
| CivilTime.AddDays | App.tsx:120 | adding k days moves by k whole days and keeps the time of day |
| CivilTime.AddMonthsCivil | App.tsx:119 | adding k months lands in the month k later, with the date of the month clamped to that month's length and the time of day kept |
| CivilTime.ShiftMonthNeighbours | App.tsx:119-125 | zero months on is the same month; one month on from December is January of the next year; one month back from January is December of the year before |
| CivilTime.NextMonthCivil | App.tsx:119 | adding one month moves to the following month, December to January of the next year, clamping the date of the month |
| CivilTime.PrevMonthCivil | App.tsx:125 | adding minus one month moves to the preceding month, January to December of the year before, clamping the date of the month |
| CivilTime.AddYearsCivil | App.tsx:121-127 | adding k years keeps the month and the date of the month, except that 29 February becomes 28 February in a common year, and keeps the time of day |
| Types.Merge | App.tsx:45 | object spread: the fields present in the patch win and the absent ones keep the event's values; an empty patch gives the event back |
| Types.EnumerationsComplete | types.ts:1-36 | the categories and the view modes are exactly the listed values, each listed once |
| Palette.CategoryColorsTotal | constants.ts:4-9 | every category has styling |
| Palette.EventColorKeys | constants.ts:19-26 | the palette has exactly six colours, including the form's default and both import colours |
| App.Initial | App.tsx:19-28 | the application starts on the current date in the month view, with no events, nothing selected and the form closed |
| App.OverlapOfOrderedIntervals | App.tsx:34-37 | for intervals whose start is not after their end, overlap means each starts before the other ends |
| App.OverlapSymmetric | App.tsx:34-37 | overlap does not depend on the order of the two intervals |
| App.OverlapTouchingAndSelf | App.tsx:34-37 | back-to-back intervals do not overlap; an interval of positive length overlaps itself |
| App.CheckOverlap | App.tsx:31-39 | true exactly when some stored event, other than one carrying the non-empty excluded id, overlaps the interval |
| App.ExcludeIsRemove | App.tsx:31-39 | excluding an id gives the same answer as querying the store with that id's events removed |
| App.EditedEventDoesNotConflictWithItself | App.tsx:283 | while editing, the form reports a conflict exactly when an event with a different id overlaps |
| App.RemoveId | App.tsx:76 | removes every event with the id and keeps every other event, counted with its multiplicity; a missing id leaves the store unchanged |
| App.RemoveIdAppend | App.tsx:76 | removal distributes over concatenation, so the survivors keep their order |
| App.MapId | App.tsx:45 | events with the id are replaced by the function's result and all other positions are unchanged |
| App.SaveEvent | App.tsx:42-64 | the form closes; a create appends exactly one event after the existing ones; an edit merges the payload into the events with the edited id and leaves the rest alone |
| App.SaveCreateDefaults | App.tsx:48-59 | the created event has the fresh id, source 'user', the given start and end, and the defaults for a missing or empty title, a missing category, description and location |
| App.SaveEditChangesOnlyEdited | App.tsx:43-45 | with unique ids and a payload that names no id or source, an edit changes only the edited event, and that event keeps its id and source |
| App.AddAIEvents | App.tsx:67-73 | the batch is appended after the existing events; the displayed date jumps to the first new event's start; an empty batch changes nothing |
| App.DeleteEvent | App.tsx:75-78 | afterwards no event has the id, every other event is kept with its multiplicity, and the selection is cleared |
| App.Reschedule | App.tsx:83-99 | only start and end change and the duration is kept; in the month view the event moves to the drop day at its own time of day, in the other views to the drop instant |
| App.MoveEvent | App.tsx:80-103 | the events with the id are rescheduled under the current view and everything else is untouched |
| App.MoveInMonthViewByDays | App.tsx:87-93 | dragging in the month view onto the day n days later moves the start and the end by exactly n days |
| App.NavigateNext | App.tsx:118-122 | only the displayed date changes, and its time of day is kept |
| App.NavigatePrev | App.tsx:124-128 | only the displayed date changes, and its time of day is kept |
| App.DayNavigationRoundTrip | App.tsx:118-128 | in the day view, next and previous undo each other |
| App.MonthNavigationNext | App.tsx:119 | in the month view, next moves to the following month (December rolls to January of the next year) and clamps the date of the month |
| App.MonthNavigationPrev | App.tsx:125 | in the month view, previous moves to the preceding month (January rolls to December of the year before) and clamps the date of the month |
| App.YearNavigationNext | App.tsx:121 | in the year view, next moves to the same month and day of the next year, except that 29 February becomes 28 February |
| App.YearNavigationPrev | App.tsx:127 | in the year view, previous moves to the same month and day of the year before, except that 29 February becomes 28 February |
| App.StepKeepsTimeOfDay | App.tsx:118-128 | a step of one day, month or year in either direction keeps the time of day |
| App.ViewChange | App.tsx:130-133 | the view mode is set, and the date moves only when a date is given |
| App.OpenCreateModal | App.tsx:105-109 | a create form opens for the given date or else the displayed one, with nothing under edit |
| App.OpenEditModal | App.tsx:111-115 | an edit form opens for the event, the details selection is cleared, and the store is unchanged |
| App.SavePreservesUniqueIds | App.tsx:42-64 | a create with a fresh id, or an edit whose payload names no id, keeps the store's ids unique |
| App.AddAIEventsPreservesUniqueIds | App.tsx:67-73 | appending a batch of distinct fresh ids keeps the store's ids unique |
| App.RemoveIdPreservesUniqueIds | App.tsx:76 | removal keeps ids unique |
| App.DeleteAndMovePreserveUniqueIds | App.tsx:75-103 | deleting and moving keep the store's ids unique |
| App.OverlapScenario | App.tsx:31-39 | with one event from 10:00 to 11:00, the interval 10:30 to 10:45 conflicts and 11:00 to 12:00 does not |
| AIAssistant.TrimStart | components/AIAssistant.tsx:85 | the result is a suffix of the input, what is dropped is all white space, and the result does not start with white space |
| AIAssistant.TrimEnd | components/AIAssistant.tsx:85 | the result is a prefix of the input, what is dropped is all white space, and the result does not end with white space |
| AIAssistant.TrimEmptyIffBlank | components/AIAssistant.tsx:85 | trimming leaves nothing exactly when the text is all ECMAScript white space or line terminators |
| AIAssistant.BeginSubmit | components/AIAssistant.tsx:83-89 | a request is made exactly when the text has a non-white-space character or a file is attached; otherwise nothing changes; a request clears the error and the drafts and starts processing |
| AIAssistant.Submit | components/AIAssistant.tsx:83-109 | a blank submission without a file changes nothing; any other ends not processing, without the file, the text kept, with drafts exactly when the service answered and an error exactly when it failed |
| AIAssistant.CompleteSubmit | components/AIAssistant.tsx:91-108 | success stores the result and failure shows the one failure message; either way processing stops, the file is dropped and the text is kept |
| AIAssistant.SubmitTransitions | components/AIAssistant.tsx:83-109 | a blank submission without a file is a no-op; any other ends with the drafts and no error, or with no drafts and the failure message |
| AIAssistant.DraftToEvent | components/AIAssistant.tsx:113-123 | a committed event has its fresh id, source 'ai' and the draft's times, always a non-empty title and colour and a description and location, and keeps every non-empty value the draft carries |
| AIAssistant.ConfirmAll | components/AIAssistant.tsx:111-128 | with drafts present, hands over one event per draft and clears the drafts and the text; without drafts it does nothing and hands over nothing |
| AIAssistant.ConfirmAllDefaults | components/AIAssistant.tsx:113-123 | each committed event has its fresh id, source 'ai', the draft's start and end, and the draft's title, description, location and colour unless absent or empty, when 'Untitled Event', '', '' and 'blue' are used; a missing category becomes Personal |
| AIAssistant.ConfirmAllIntoStore | components/AIAssistant.tsx:111-128 | confirming k drafts into the store adds exactly k AI events with the fresh ids after the existing ones, keeps ids unique, and leaves no drafts |
| AIAssistant.SpliceOne | components/AIAssistant.tsx:133 | splice(index, 1) removes exactly the element at an index in range, counts a negative index from the end, clamps one before the start to the first element, and removes nothing past the end |
| AIAssistant.RemoveDraft | components/AIAssistant.tsx:130-139 | the draft at the index is removed and the judgement kept; when none remain the draft result is cleared; nothing else in the session changes |
| AIAssistant.RemoveDraftCases | components/AIAssistant.tsx:130-139 | removing the only draft clears the result; removing one of several keeps the others in order |
| AIAssistant.DraftExtensional | components/AIAssistant.tsx:144 | two drafts that agree on every field are equal, so the field-wise contract of SetField determines its result |
| AIAssistant.SetField | components/AIAssistant.tsx:144 | the named field takes the value and every other field is unchanged |
| AIAssistant.UpdateDraft | components/AIAssistant.tsx:141-146 | only the draft at the index changes, in only the named field; the other drafts, the judgement and the rest of the session are kept |
| AIAssistant.DraftConflicts | components/AIAssistant.tsx:298 | a draft is flagged exactly when it has a start and an end and some stored event overlaps them |
| AIAssistant.ClassroomBatch | components/AIAssistant.tsx:54-75 | the import has exactly two events, with the two fresh ids, both student events from the classroom without a location |
| AIAssistant.LocalTimeDaysAfter | components/AIAssistant.tsx:59-70 | building a time from today's year, month and the date of the month plus k lands exactly k days after today |
| AIAssistant.ClassroomBatchContents | components/AIAssistant.tsx:54-76 | the import has two student classroom events in palette colours, at 23:59 two days on (for one minute) and 17:00 to 18:00 five days on |
| AIAssistant.SyncClassroom | components/AIAssistant.tsx:50-81 | the import ends not syncing and marked as synced, handing over two events with the fresh ids |
| EventForm.Refresh | components/EventFormModal.tsx:84-89 | the conflict flag is true exactly when a stored event other than the edited one overlaps the form's interval |
| EventForm.OneHourLater | components/EventFormModal.tsx:58-59 | setHours(getHours() + 1) adds exactly sixty minutes, across midnight too |
| EventForm.InitForm | components/EventFormModal.tsx:38-82 | an edit form takes the event's fields, with defaults for what is absent; a new form is empty, personal and blue and lasts one hour; its start comes from the selected day when one was given (the rule of EventForm.SelectedDateStart), else from now (the rule of EventForm.StartForNowIsNextHour); the flag is consistent |
| EventForm.SelectedDateStart | components/EventFormModal.tsx:50-54 | a clicked time other than midnight is kept; a midnight becomes the hour after the current one on that day |
| EventForm.StartForNowIsNextHour | components/EventFormModal.tsx:66-68 | a generic new form starts at a full hour, later than now by at most one hour |
| EventForm.FormFor | App.tsx:277-284 | the form the application opens keeps its conflict flag consistent with the store, excluding the edited event |
| EventForm.Submit | components/EventFormModal.tsx:93-108 | there is no payload exactly when the title is empty; a payload never carries an id or a source and always has a start and an end |
| EventForm.SubmitCreates | components/EventFormModal.tsx:96-107 | submitting a new form stores exactly one event, last, with the form's fields, the fresh id and source 'user' |
| EventForm.EditRoundTrip | components/EventFormModal.tsx:40-47 | opening an event for edit and saving it untouched changes only its absent description, location and colour into the defaults; the other events are kept |
| EventForm.MoveToDayParts | components/EventFormModal.tsx:117-118 | moving a time to a picked day keeps its clock time |
| EventForm.MoveToDayDate | components/EventFormModal.tsx:117-118 | moving a time to a picked day gives it that day's calendar date |
| EventForm.DatePartChangeAsWritten | components/EventFormModal.tsx:111-130 | the date edit as written: an empty field changes nothing; otherwise the conflict flag is refreshed, and a start edit never leaves the start after the end |
| EventForm.DatePartChangeAgreesOutsideTwoDigitYears | components/EventFormModal.tsx:111-130 | for every year outside 0 to 99 the date edit as written and the corrected one give the same form |
| EventForm.AsWrittenYear | components/EventFormModal.tsx:113-114 | the Date constructor turns a picked year from 0 to 99 into 1900 plus that year |
| EventForm.TwoDigitYearCounterexample | components/EventFormModal.tsx:113-119 | as written, picking 1 February of a year from 0 to 99 for the start puts the start 1900 years later |
| EventForm.DatePartChange | components/EventFormModal.tsx:111-130 | an empty field changes nothing; a picked date keeps the text fields and refreshes the flag |
| EventForm.DatePartChangeSetsDate | components/EventFormModal.tsx:116-129 | the start moves to the picked date at the same clock time; the end stays unless the start would pass it, and then it is one hour after the start; an end edit moves only the end |
| EventForm.TimePartChange | components/EventFormModal.tsx:133-151 | an empty field changes nothing; a picked time keeps the text fields and refreshes the flag |
| EventForm.TimePartChangeSetsClock | components/EventFormModal.tsx:137-150 | the start takes the picked clock time on its own day; the end stays unless the start would pass it, and then it is one hour after; an end edit moves only the end |
| EventForm.EndEditCanPrecedeStart | components/EventFormModal.tsx:146-149 | an end time edit is not checked against the start: on a one-day event an end time before the start's leaves the end before the start |
| EventForm.EditsKeepFlagConsistent | components/EventFormModal.tsx:84-89 | date and time edits keep the conflict flag in step with the store |
| CalendarGrid.StartOfDay | components/CalendarGrid.tsx:36-40 | midnight of the same day, at or before the time and less than a day before it |
| CalendarGrid.StartOfDayUnique | components/CalendarGrid.tsx:36-40 | it is the only midnight within the day up to the time |
| CalendarGrid.StartOfDayIdempotent | components/CalendarGrid.tsx:36-40 | applying it twice is the same as applying it once |
| CalendarGrid.StartOfWeek | components/CalendarGrid.tsx:23-30 | a Sunday midnight, weekday-many days back, at or before the time and less than a week before it |
| CalendarGrid.StartOfWeekUnique | components/CalendarGrid.tsx:23-30 | it is the only Sunday midnight within the week up to the time |
| CalendarGrid.StartOfWeekIdempotent | components/CalendarGrid.tsx:23-30 | applying it twice is the same as applying it once |
| CalendarGrid.StartOfMonth | components/CalendarGrid.tsx:19-21 | the first of the same month at midnight, in the same year or in 1900 plus the year for years 0 to 99 |
| CalendarGrid.StartOfMonthContains | components/CalendarGrid.tsx:19-21 | for other years, the time lies in the month that starts there |
| CalendarGrid.StartOfYear | components/CalendarGrid.tsx:32-34 | 1 January at midnight, with the same reading of years 0 to 99 |
| CalendarGrid.StartOfYearContains | components/CalendarGrid.tsx:32-34 | for other years, the time lies in the year that starts there |
| CalendarGrid.EndOfMonth | components/CalendarGrid.tsx:154 | lands on the last day of the same month |
| CalendarGrid.EndOfWeek | components/CalendarGrid.tsx:156 | lands on the Saturday on or after the day |
| CalendarGrid.DaysBetween | components/CalendarGrid.tsx:157 | one midnight per day from the first day through the last, in order |
| CalendarGrid.SundayUnique | components/CalendarGrid.tsx:23-30 | only one Sunday lies in the seven days up to a day |
| CalendarGrid.WeekStartDay | components/CalendarGrid.tsx:155 | the Sunday on or before a day, at most six days before it |
| CalendarGrid.WeekEndDay | components/CalendarGrid.tsx:156 | the Saturday on or after a day, at most six days after it |
| CalendarGrid.StartOfWeekDay | components/CalendarGrid.tsx:155 | the grid starts on the Sunday on or before the first of the month |
| CalendarGrid.EndOfMonthDay | components/CalendarGrid.tsx:154 | the end of a month that starts on a given day is the month's length, less one, days later |
| CalendarGrid.EndOfWeekDay | components/CalendarGrid.tsx:156 | the grid ends on the Saturday on or after the month's last day |
| CalendarGrid.WeekRows | components/CalendarGrid.tsx:157 | the midnights from a Sunday through a Saturday are whole weeks, each day after the one before and in the column of its weekday |
| CalendarGrid.WeekSpan | components/CalendarGrid.tsx:155-157 | Sunday through Saturday is a whole number of weeks, and each day's weekday follows from its position |
| CalendarGrid.SpanBounds | components/CalendarGrid.tsx:155-157 | whole weeks covering a month with at most six days either side are four to six weeks |
| CalendarGrid.GridOfMonth | components/CalendarGrid.tsx:153-157 | for a month of 28 to 31 days, the grid is 4 to 6 whole weeks of consecutive midnights, Sunday first, starting at most six days before the first and reaching the month's last day |
| CalendarGrid.MonthDaysIsGrid | components/CalendarGrid.tsx:153-157 | the source's chain of start-of-week, end-of-month, end-of-week and each-day gives exactly that grid |
| CalendarGrid.GridCoversMonth | components/CalendarGrid.tsx:153-157 | every day of the month appears in the grid at midnight |
| CalendarGrid.MonthGridCoversMonth | components/CalendarGrid.tsx:153-157 | every day of the displayed month appears in its grid |
| CalendarGrid.YearMonths | components/CalendarGrid.tsx:92-94 | the twelve firsts of a year's months, at midnight and in order |
| CalendarGrid.LastOfYear | components/CalendarGrid.tsx:93 | the day before 1 January of the next year is 31 December |
| CalendarGrid.EndOfYear | components/CalendarGrid.tsx:93 | lands on 31 December of the same year |
| CalendarGrid.EachMonthOfInterval | components/CalendarGrid.tsx:94 | for an interval in order, the first of every month from the start's month through the end's, at midnight; nothing for a reversed interval |
| CalendarGrid.PlainYearBounds | components/CalendarGrid.tsx:92-93 | outside years 0 to 99, the year view's interval runs in order from 1 January to 31 December of the displayed year |
| CalendarGrid.YearViewIsYearMonths | components/CalendarGrid.tsx:91-94 | outside years 0 to 99, the year view shows the twelve firsts of the displayed year's months |
| CalendarGrid.TwoDigitYearOrder | components/CalendarGrid.tsx:32-34 | 31 December of a year from 0 to 99 comes before 1 January of 1900 plus that year |
| CalendarGrid.YearViewTwoDigitYear | components/CalendarGrid.tsx:91-94 | for a year from 0 to 99, getStartOfYear is after endOfYear, so the interval is reversed and the year's months are not shown |
| CalendarGrid.SameDateSameTime | components/CalendarGrid.tsx:94 | two times with the same date and the same time of day are equal |
| CalendarGrid.FilterSpec | components/CalendarGrid.tsx:174 | filtering keeps exactly the events that pass, each with its multiplicity, and nothing else |
| CalendarGrid.FilterAppend | components/CalendarGrid.tsx:174 | filtering distributes over concatenation, so the store's order is kept |
| CalendarGrid.DayEvents | components/CalendarGrid.tsx:174 | a day cell lists exactly the events starting on that day, each with its multiplicity |
| CalendarGrid.MonthCell | components/CalendarGrid.tsx:202-225 | at most four chips, a prefix of the day's events; a "more" count exactly when there are over four, and chips plus more equal the day's events |
| CalendarGrid.HourSlot | components/CalendarGrid.tsx:257-259 | an hour slot lists exactly the displayed day's events whose start hour is that hour |
| CalendarGrid.DaySlots | components/CalendarGrid.tsx:236 | the day view has 24 slots, one per hour |
| CalendarGrid.SlotsPrefix | components/CalendarGrid.tsx:236-259 | the first n slots hold exactly the day's events that start before hour n |
| CalendarGrid.SlotsPartitionDay | components/CalendarGrid.tsx:236-259 | together the 24 slots list every event of the day exactly once |
| CalendarGrid.ColorClasses | components/CalendarGrid.tsx:82-87 | a palette colour's classes when the event names one, otherwise its category's |
| CalendarGrid.ColorClassesKnown | components/CalendarGrid.tsx:82-87 | every event is styled with one of the palette's class strings |
| CalendarGrid.ColorMatchesCategory | components/CalendarGrid.tsx:82-87 | blue business, emerald student and purple personal events look the same as uncoloured ones |
| CalendarGrid.HandleDrop | components/CalendarGrid.tsx:73-79 | a drop that carries an id moves that event; a drop that carries nothing changes nothing |
| CalendarGrid.DropOnMonthCell | components/CalendarGrid.tsx:184 | dropping onto a month cell moves the event to that day at its own time of day and keeps its duration |
| CalendarGrid.DropOnHourSlot | components/CalendarGrid.tsx:254 | dropping onto an hour slot moves the event to that hour of the displayed day and keeps its duration |
| CalendarGrid.ClickMonthCell | components/CalendarGrid.tsx:182 | clicking a month cell opens a one-hour form on that day, starting at the hour after the current one |
| CalendarGrid.ClickHourSlot | components/CalendarGrid.tsx:252 | clicking a slot after midnight opens a one-hour form at that hour; the midnight slot opens one at the hour after the current one |

## Left out

- The extraction service (`services/geminiService.ts`) and its prompt are not part of this model. Its answer is a parameter: any parse result, or a failure.
- Reading the attached file into base64 is not modelled. A read failure is one of the `Failed` outcomes.
- The 1.5-second delay of the simulated classroom import is not modelled. The import is modelled as its completed step.
- The event details modal, headers, rendering, the current-time indicator and every class string other than the palette's are presentation and are not modelled.
- React's state batching and effect scheduling are not modelled. Each handler is one atomic step, and the form's conflict effect runs after every start or end change.
- The plain text and select setters of the form and of the assistant's input have no logic beyond storing the value.
- ISO-8601 strings, time zones and daylight saving are not modelled: times are local minutes.
- Seconds and milliseconds are not modelled: every time is a whole minute. The source does not always zero them. A create from the toolbar starts at the current time with its seconds (App.tsx:19 and App.tsx:208, kept by components/EventFormModal.tsx:50), and `setHours(h, m)` keeps the seconds.
- Because of this, an overlap decided by less than a minute is not modelled. An event ending at 15:37:25 and one starting at 15:37:00 conflict in the source; the model sees two touching intervals at 15:37 and reports no conflict.
- Because of this too, the truncation of a fractional minute by `differenceInMinutes` when an event with seconds is rescheduled (App.tsx:85) is not modelled.
- Lookups of `Object.prototype` names in the palette map (such as "constructor") are not modelled. The colour map is taken to contain only its six keys.
- A draft or payload whose start or end is an empty or unparsable string is not modelled. Such a field is modelled as absent.
- App.SaveEvent: the model's precondition asks a create for a start and an end. The source's `!` on them is only a type assertion and checks nothing at run time, so a create without them is not modelled. The form never sends one: `EventForm.Submit` always supplies both times.
- AIAssistant.ConfirmAll: the model's precondition asks every draft for a start and an end. The source's `!` is only a type assertion and checks nothing at run time. The response schema in services/geminiService.ts lists both fields as required, but the parsed reply is not validated against it, so a draft without them is not modelled.
- AIAssistant.UpdateDraft: the index must be one of the drafts shown, as the list only offers those. An out-of-range index, which would add a sparse entry, is not modelled.
- AIAssistant.ClassroomBatchContents: proved only for years outside 0 to 99. For those years the Date constructor reads the year as 1900 plus the year, as `CalendarGrid.StartOfMonth` states.
- CalendarGrid.MonthGridCoversMonth, CalendarGrid.StartOfMonthContains and CalendarGrid.StartOfYearContains: proved only for years outside 0 to 99, for the same reason. For those years the start helpers return the month or year in 1900 plus the year.
- CalendarGrid.YearMonths: the twelve month cards hold only for years outside 0 to 99 (`CalendarGrid.YearViewIsYearMonths`). For a year from 0 to 99 the interval from getStartOfYear to endOfYear is reversed (`CalendarGrid.YearViewTwoDigitYear`). What eachMonthOfInterval then shows depends on the library version (it throws or lists the months backwards), so the model gives no months for it.
- The date-fns helpers follow the library's published algorithms, including the ordering of interval ends before the overlap test that current versions perform. The library's code is not part of this model.

## Findings

| source | as written | input that shows it | evidently intended | confidence | as-written member | corrected member |
|---|---|---|---|---|---|---|
| components/EventFormModal.tsx:113-114 | the date field's value goes through `new Date(y, m - 1, d)`, which reads years 0 to 99 as 1900 to 1999 | picking 0050-02-01 for the start moves the start to 1 February 1950 | the start moves to the picked date, in the picked year | medium, not executed | EventForm.TwoDigitYearCounterexample | EventForm.DatePartChangeSetsDate |

The rest of the model uses the corrected `EventForm.DatePartChange`, which reads the field's year as given. `EventForm.DatePartChangeAsWritten` keeps the constructor's behaviour. It still keeps the conflict flag consistent and a start edit still keeps the start at or before the end. `EventForm.DatePartChangeAgreesOutsideTwoDigitYears` shows the two give the same form for every year outside 0 to 99.
