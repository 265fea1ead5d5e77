/**
 The AI assistant's draft reconciliation: a session that submits text or a
 file to the extraction service, holds the returned drafts for review, lets
 the user edit or drop single drafts, flags drafts that overlap stored
 events, and commits all drafts in one batch. Also the simulated classroom
 import, which hands a fixed batch of two events to the store.

 The extraction service is not modelled: its answer is a parameter of the
 step that completes a submission. Fresh ids are parameters too.
 */
module AIAssistant {
  import opened CivilTime
  import opened Types
  import opened Palette
  import App

  // ---------------------------------------------------------------------------
  // String.prototype.trim

  /** The code points ECMAScript counts as WhiteSpace or LineTerminator:
      tab, vertical tab, form feed, no-break space, zero-width no-break space,
      the space separators of Unicode category Zs, LF, CR, LS and PS. */
  predicate IsWhitespace(c: char)
  {
    || c == '\U{0009}' || c == '\U{000B}' || c == '\U{000C}' || c == '\U{FEFF}'
    || c == '\U{0020}' || c == '\U{00A0}' || c == '\U{1680}'
    || ('\U{2000}' <= c <= '\U{200A}') || c == '\U{202F}' || c == '\U{205F}' || c == '\U{3000}'
    || c == '\U{000A}' || c == '\U{000D}' || c == '\U{2028}' || c == '\U{2029}'
  }

  predicate Blank(s: string)
  {
    forall i :: 0 <= i < |s| ==> IsWhitespace(s[i])
  }

  lemma BlankConcat(a: string, b: string)
    requires Blank(a) && Blank(b)
    ensures Blank(a + b)
  {
    forall i | 0 <= i < |a + b| ensures IsWhitespace((a + b)[i]) {
      if i >= |a| {
        assert (a + b)[i] == b[i - |a|];
      }
    }
  }

  /** The string with its leading white space removed. */
  function TrimStart(s: string): (r: string)
    ensures |r| <= |s| && r == s[|s| - |r|..]
    ensures Blank(s[..|s| - |r|])
    ensures |r| > 0 ==> !IsWhitespace(r[0])
  {
    if |s| > 0 && IsWhitespace(s[0]) then
      var r := TrimStart(s[1..]);
      TrimStartStep(s, r);
      r
    else s
  }

  /** Dropping a leading white-space character before trimming the rest
      drops only white space. */
  lemma TrimStartStep(s: string, r: string)
    requires |s| > 0 && IsWhitespace(s[0])
    requires |r| <= |s| - 1 && r == s[1..][|s| - 1 - |r|..] && Blank(s[1..][..|s| - 1 - |r|])
    ensures r == s[|s| - |r|..] && Blank(s[..|s| - |r|])
  {
    var k := |s| - 1 - |r|;
    assert s[..|s| - |r|] == [s[0]] + s[1..][..k];
    BlankConcat([s[0]], s[1..][..k]);
  }

  /** The string with its trailing white space removed. */
  function TrimEnd(s: string): (r: string)
    ensures |r| <= |s| && r == s[..|r|]
    ensures Blank(s[|r|..])
    ensures |r| > 0 ==> !IsWhitespace(r[|r| - 1])
  {
    if |s| > 0 && IsWhitespace(s[|s| - 1]) then
      var r := TrimEnd(s[..|s| - 1]);
      assert s[|r|..] == s[..|s| - 1][|r|..] + [s[|s| - 1]];
      BlankConcat(s[..|s| - 1][|r|..], [s[|s| - 1]]);
      r
    else s
  }

  function Trim(s: string): string
  {
    TrimEnd(TrimStart(s))
  }

  /** Trimming leaves nothing exactly when the string is all white space. */
  lemma TrimEmptyIffBlank(s: string)
    ensures Trim(s) == "" <==> Blank(s)
  {
    var a := TrimStart(s);
    assert a[0..] == a;
    assert |a| > 0 ==> a[0] == s[|s| - |a|];
    assert s == s[..|s| - |a|] + a;
  }

  // ---------------------------------------------------------------------------
  // The session

  /** The attached file, as far as the session is concerned. */
  datatype FileRef = FileRef(name: string, mimeType: string)

  datatype Session = Session(
    input: string,
    selectedFile: Option<FileRef>,
    isProcessing: bool,
    draftResult: Option<ParseResult>,
    error: Option<string>,
    isSyncing: bool,
    hasSynced: bool)

  const Initial: Session := Session("", None, false, None, None, false, false)

  /** The one message every failed submission shows. */
  const FailureMessage: string :=
    "Failed to process request. Please ensure the file is an image/PDF or try again."

  /** What is handed to the extraction service: the raw text, the file and
      the reference date for resolving relative dates. */
  datatype Request = Request(text: string, file: Option<FileRef>, referenceDate: Time)

  /** How a call to the extraction service ends: a parse result, or any
      failure (file unreadable, service error, no or malformed answer). */
  datatype Outcome = Parsed(result: ParseResult) | Failed

  /** A submission goes ahead when the text has a non-white-space character
      or a file is attached. */
  predicate CanSubmit(s: Session)
  {
    !Blank(s.input) || s.selectedFile.Some?
  }

  /** handleSubmit up to the service call: the guard, then the processing
      state with error and drafts cleared, and the request to make. */
  function BeginSubmit(s: Session, currentDate: Time): (r: (Session, Option<Request>))
    ensures r.1.Some? <==> CanSubmit(s)
    ensures !CanSubmit(s) ==> r.0 == s
    ensures CanSubmit(s) ==>
      && r.1.value == Request(s.input, s.selectedFile, currentDate)
      && r.0.isProcessing && r.0.error.None? && r.0.draftResult.None?
      && r.0.input == s.input && r.0.selectedFile == s.selectedFile
  {
    TrimEmptyIffBlank(s.input);
    if Trim(s.input) == "" && s.selectedFile.None? then (s, None)
    else
      (s.(isProcessing := true, error := None, draftResult := None),
       Some(Request(s.input, s.selectedFile, currentDate)))
  }

  /** handleSubmit after the service call: keep the result or show the
      failure message; then stop processing and drop the file. */
  function CompleteSubmit(s: Session, outcome: Outcome): (r: Session)
    ensures !r.isProcessing && r.selectedFile.None? && r.input == s.input
    ensures outcome.Parsed? ==> r.draftResult == Some(outcome.result) && r.error == s.error
    ensures outcome.Failed? ==> r.draftResult == s.draftResult && r.error == Some(FailureMessage)
  {
    var s' := match outcome
      case Parsed(result) => s.(draftResult := Some(result))
      case Failed => s.(error := Some(FailureMessage));
    s'.(isProcessing := false, selectedFile := None)
  }

  /** A whole submission as one step, the service's answer given. */
  function Submit(s: Session, currentDate: Time, outcome: Outcome): (r: Session)
    ensures !CanSubmit(s) ==> r == s
    ensures CanSubmit(s) ==> !r.isProcessing && r.selectedFile.None? && r.input == s.input
    ensures CanSubmit(s) ==> (r.draftResult.Some? <==> outcome.Parsed?) && (r.error.Some? <==> outcome.Failed?)
    ensures r.isSyncing == s.isSyncing && r.hasSynced == s.hasSynced
  {
    var (s', request) := BeginSubmit(s, currentDate);
    if request.None? then s else CompleteSubmit(s', outcome)
  }

  /** An empty or white-space-only submission without a file changes
      nothing; otherwise the session ends with the drafts and no error, or
      with no drafts and the failure message, never processing and without
      the file, the text kept. */
  lemma SubmitTransitions(s: Session, currentDate: Time, outcome: Outcome)
    ensures Blank(s.input) && s.selectedFile.None? ==> Submit(s, currentDate, outcome) == s
    ensures CanSubmit(s) ==>
      var r := Submit(s, currentDate, outcome);
      && !r.isProcessing && r.selectedFile.None? && r.input == s.input
      && (outcome.Parsed? ==> r.draftResult == Some(outcome.result) && r.error.None?)
      && (outcome.Failed? ==> r.draftResult.None? && r.error == Some(FailureMessage))
  {
  }

  // ---------------------------------------------------------------------------
  // Committing drafts

  /** Every draft carries a start and an end (the source asserts both). */
  predicate Committable(drafts: seq<Partial>)
  {
    forall i :: 0 <= i < |drafts| ==> drafts[i].start.Some? && drafts[i].end.Some?
  }

  /** The event a draft becomes: a fresh id, source 'ai', start and end as
      drafted, and defaults for a missing or empty title, description,
      location and colour and a missing category. */
  function DraftToEvent(d: Partial, id: string): (e: Event)
    requires d.start.Some? && d.end.Some?
    ensures e.id == id && e.source == Some(AI) && e.start == d.start.value && e.end == d.end.value
    ensures e.title != "" && e.description.Some? && e.location.Some?
    ensures e.color.Some? && e.color.value != ""
    ensures d.title.Some? && d.title.value != "" ==> e.title == d.title.value
    ensures d.color.Some? && d.color.value != "" ==> e.color == d.color
    ensures d.category.Some? ==> e.category == d.category.value
  {
    Event(
      id,
      OrString(d.title, "Untitled Event"),
      d.start.value,
      d.end.value,
      Some(OrString(d.description, "")),
      Some(OrString(d.location, "")),
      GetOr(d.category, Personal),
      Some(AI),
      Some(OrString(d.color, DefaultColor)))
  }

  /** confirmAllEvents: with drafts under review, turn each into an event
      with the next fresh id, hand the batch over, clear the drafts and the
      text; without drafts, do nothing and hand nothing over. */
  function ConfirmAll(s: Session, ids: seq<string>): (r: (Session, Option<seq<Event>>))
    requires s.draftResult.Some? ==>
      Committable(s.draftResult.value.events) && |ids| == |s.draftResult.value.events|
    ensures s.draftResult.None? ==> r == (s, None)
    ensures s.draftResult.Some? ==>
      && r.0 == s.(draftResult := None, input := "")
      && r.1.Some? && |r.1.value| == |s.draftResult.value.events|
  {
    match s.draftResult
    case None => (s, None)
    case Some(result) =>
      var drafts := result.events;
      var batch := seq(|drafts|, i requires 0 <= i < |drafts| => DraftToEvent(drafts[i], ids[i]));
      (s.(draftResult := None, input := ""), Some(batch))
  }

  /** Each committed event takes its fresh id, source 'ai', start and end
      verbatim from its draft, and the defaults for what the draft lacks. */
  lemma ConfirmAllDefaults(s: Session, ids: seq<string>, i: int)
    requires s.draftResult.Some?
    requires Committable(s.draftResult.value.events) && |ids| == |s.draftResult.value.events|
    requires 0 <= i < |ids|
    ensures var d := s.draftResult.value.events[i];
      var e := ConfirmAll(s, ids).1.value[i];
      && e.id == ids[i] && e.source == Some(AI)
      && e.start == d.start.value && e.end == d.end.value
      && e.title == OrString(d.title, "Untitled Event")
      && e.description == Some(OrString(d.description, ""))
      && e.location == Some(OrString(d.location, ""))
      && e.category == GetOr(d.category, Personal)
      && e.color == Some(OrString(d.color, DefaultColor))
  {
  }

  /** Confirming k drafts into the store adds exactly k events, all from
      the AI with the fresh ids, after the existing ones; with fresh
      distinct ids the store's ids stay unique; the session returns to
      having no drafts. */
  lemma ConfirmAllIntoStore(s: Session, ids: seq<string>, st: App.AppState)
    requires s.draftResult.Some?
    requires Committable(s.draftResult.value.events) && |ids| == |s.draftResult.value.events|
    requires App.UniqueIds(st.events)
    requires forall i, j :: 0 <= i < j < |ids| ==> ids[i] != ids[j]
    requires forall i :: 0 <= i < |ids| ==> !App.HasId(st.events, ids[i])
    ensures var (s', batch) := ConfirmAll(s, ids);
      var st' := App.AddAIEvents(st, batch.value);
      && s'.draftResult.None? && s'.input == ""
      && |st'.events| == |st.events| + |ids|
      && st'.events[..|st.events|] == st.events
      && (forall i :: |st.events| <= i < |st'.events| ==>
            st'.events[i].source == Some(AI) && st'.events[i].id == ids[i - |st.events|])
      && App.UniqueIds(st'.events)
  {
    var batch := ConfirmAll(s, ids).1.value;
    forall i | 0 <= i < |batch| ensures batch[i].id == ids[i] && batch[i].source == Some(AI) {
      ConfirmAllDefaults(s, ids, i);
    }
    assert App.UniqueIds(batch);
    forall e | e in batch ensures !App.HasId(st.events, e.id) {
      var i :| 0 <= i < |batch| && batch[i] == e;
    }
    App.AddAIEventsPreservesUniqueIds(st, batch);
    var st' := App.AddAIEvents(st, batch);
    assert st'.events[..|st.events|] == st.events;
    forall i | |st.events| <= i < |st'.events|
      ensures st'.events[i].source == Some(AI) && st'.events[i].id == ids[i - |st.events|]
    {
      assert st'.events[i] == batch[i - |st.events|];
    }
  }

  // ---------------------------------------------------------------------------
  // Editing drafts

  /** Array.prototype.splice(index, 1): a negative index counts from the
      end and one before the start is clamped to the first element; an
      index past the end removes nothing. */
  function SpliceOne<T>(xs: seq<T>, index: int): (r: seq<T>)
    ensures 0 <= index < |xs| ==>
      && |r| == |xs| - 1
      && (forall j :: 0 <= j < index ==> r[j] == xs[j])
      && (forall j :: index <= j < |r| ==> r[j] == xs[j + 1])
    ensures -|xs| <= index < 0 ==> |r| == |xs| - 1 && r == xs[..|xs| + index] + xs[|xs| + index + 1..]
    ensures index >= |xs| ==> r == xs
    ensures index < -|xs| ==> r == (if |xs| > 0 then xs[1..] else xs)
  {
    var start := if index < 0 then App.Max(|xs| + index, 0) else Min(index, |xs|);
    if start < |xs| then xs[..start] + xs[start + 1..] else xs
  }

  /** removeDraftEvent: drop the draft at `index`; dropping the last one
      leaves no drafts (and no judgement) at all. */
  function RemoveDraft(s: Session, index: int): (r: Session)
    ensures s.draftResult.None? ==> r == s
    ensures r == s.(draftResult := r.draftResult)
    ensures s.draftResult.Some? ==>
      var rest := SpliceOne(s.draftResult.value.events, index);
      && (rest == [] ==> r.draftResult.None?)
      && (rest != [] ==> r.draftResult == Some(ParseResult(rest, s.draftResult.value.judgement)))
  {
    match s.draftResult
    case None => s
    case Some(result) =>
      var rest := SpliceOne(result.events, index);
      if |rest| == 0 then s.(draftResult := None)
      else s.(draftResult := Some(result.(events := rest)))
  }

  /** Removing the only draft returns the session to having no drafts;
      removing one of several keeps the judgement and the order of the
      others. */
  lemma RemoveDraftCases(s: Session, index: int)
    requires s.draftResult.Some? && 0 <= index < |s.draftResult.value.events|
    ensures |s.draftResult.value.events| == 1 ==> RemoveDraft(s, index).draftResult.None?
    ensures |s.draftResult.value.events| > 1 ==>
      var r := RemoveDraft(s, index).draftResult;
      var drafts := s.draftResult.value.events;
      && r.Some? && r.value.judgement == s.draftResult.value.judgement
      && r.value.events == drafts[..index] + drafts[index + 1..]
  {
    var drafts := s.draftResult.value.events;
    var rest := SpliceOne(drafts, index);
    assert rest == drafts[..index] + drafts[index + 1..];
  }

  /** The fields of an event, by name. */
  datatype Field = IdField | TitleField | StartField | EndField | DescriptionField
    | LocationField | CategoryField | SourceField | ColorField

  /** A value for one field. */
  datatype FieldValue =
    | IdValue(id: string)
    | TitleValue(title: string)
    | StartValue(start: Time)
    | EndValue(end: Time)
    | DescriptionValue(description: string)
    | LocationValue(location: string)
    | CategoryValue(category: Category)
    | SourceValue(source: Source)
    | ColorValue(color: string)

  function FieldOf(v: FieldValue): Field
  {
    match v
    case IdValue(_) => IdField
    case TitleValue(_) => TitleField
    case StartValue(_) => StartField
    case EndValue(_) => EndField
    case DescriptionValue(_) => DescriptionField
    case LocationValue(_) => LocationField
    case CategoryValue(_) => CategoryField
    case SourceValue(_) => SourceField
    case ColorValue(_) => ColorField
  }

  /** Reading one field of a draft. */
  function Get(d: Partial, f: Field): Option<FieldValue>
  {
    match f
    case IdField => if d.id.Some? then Some(IdValue(d.id.value)) else None
    case TitleField => if d.title.Some? then Some(TitleValue(d.title.value)) else None
    case StartField => if d.start.Some? then Some(StartValue(d.start.value)) else None
    case EndField => if d.end.Some? then Some(EndValue(d.end.value)) else None
    case DescriptionField => if d.description.Some? then Some(DescriptionValue(d.description.value)) else None
    case LocationField => if d.location.Some? then Some(LocationValue(d.location.value)) else None
    case CategoryField => if d.category.Some? then Some(CategoryValue(d.category.value)) else None
    case SourceField => if d.source.Some? then Some(SourceValue(d.source.value)) else None
    case ColorField => if d.color.Some? then Some(ColorValue(d.color.value)) else None
  }

  /** Two drafts that agree on every field are the same draft. */
  lemma DraftExtensional(a: Partial, b: Partial)
    requires forall f: Field :: Get(a, f) == Get(b, f)
    ensures a == b
  {
    assert Get(a, IdField) == Get(b, IdField);
    assert Get(a, TitleField) == Get(b, TitleField);
    assert Get(a, StartField) == Get(b, StartField);
    assert Get(a, EndField) == Get(b, EndField);
    assert Get(a, DescriptionField) == Get(b, DescriptionField);
    assert Get(a, LocationField) == Get(b, LocationField);
    assert Get(a, CategoryField) == Get(b, CategoryField);
    assert Get(a, SourceField) == Get(b, SourceField);
    assert Get(a, ColorField) == Get(b, ColorField);
  }

  /** `{ ...d, [field]: value }`: the named field set, every other kept. */
  function SetField(d: Partial, v: FieldValue): (r: Partial)
    ensures Get(r, FieldOf(v)) == Some(v)
    ensures forall f: Field :: f != FieldOf(v) ==> Get(r, f) == Get(d, f)
  {
    match v
    case IdValue(x) => d.(id := Some(x))
    case TitleValue(x) => d.(title := Some(x))
    case StartValue(x) => d.(start := Some(x))
    case EndValue(x) => d.(end := Some(x))
    case DescriptionValue(x) => d.(description := Some(x))
    case LocationValue(x) => d.(location := Some(x))
    case CategoryValue(x) => d.(category := Some(x))
    case SourceValue(x) => d.(source := Some(x))
    case ColorValue(x) => d.(color := Some(x))
  }

  /** updateDraftEvent: replace one field of the draft at `index`. The list
      only ever offers indices of drafts it shows. */
  function UpdateDraft(s: Session, index: int, v: FieldValue): (r: Session)
    requires s.draftResult.Some? ==> 0 <= index < |s.draftResult.value.events|
    ensures s.draftResult.None? ==> r == s
    ensures r == s.(draftResult := r.draftResult)
    ensures s.draftResult.Some? ==>
      var old_ := s.draftResult.value;
      && r.draftResult.Some?
      && r.draftResult.value.judgement == old_.judgement
      && |r.draftResult.value.events| == |old_.events|
      && (forall j :: 0 <= j < |old_.events| && j != index ==> r.draftResult.value.events[j] == old_.events[j])
      && Get(r.draftResult.value.events[index], FieldOf(v)) == Some(v)
      && (forall f: Field :: f != FieldOf(v) ==>
            Get(r.draftResult.value.events[index], f) == Get(old_.events[index], f))
  {
    match s.draftResult
    case None => s
    case Some(result) =>
      var events := result.events[index := SetField(result.events[index], v)];
      s.(draftResult := Some(result.(events := events)))
  }

  // ---------------------------------------------------------------------------
  // Conflict flags and the classroom import

  /** The overlap warning on a draft: it has both a start and an end and
      some stored event overlaps them (no event is excluded). */
  function DraftConflicts(store: seq<Event>, d: Partial): (r: bool)
    ensures r <==> (d.start.Some? && d.end.Some? &&
      exists i :: 0 <= i < |store| && IntervalsOverlapAt(store[i], d.start.value, d.end.value))
  {
    d.start.Some? && d.end.Some? && App.CheckOverlap(store, d.start.value, d.end.value, None)
  }

  predicate IntervalsOverlapAt(e: Event, start: Time, end: Time)
  {
    App.IntervalsOverlap(e.start, e.end, start, end)
  }

  /** The fixed classroom batch relative to today's date: an assignment due
      from 23:59 two days on to midnight after it, and an essay draft from
      17:00 to 18:00 five days on, each built with the Date constructor from
      today's year, month and a shifted date of the month. */
  function ClassroomBatch(today: Time, ids: seq<string>): (b: seq<Event>)
    requires |ids| == 2
    ensures |b| == 2 && b[0].id == ids[0] && b[1].id == ids[1]
    ensures forall e :: e in b ==> e.category == Student && e.source == Some(Classroom) && e.location.None?
  {
    var y, m, d := FullYear(today), MonthIndex(today), DateOfMonth(today);
    [ Event(ids[0], "Calculus Assignment Due", NewDateAsWritten(y, m, d + 2, 23, 59), NewDateAsWritten(y, m, d + 3, 0, 0),
            Some("Chapter 5 problem set"), None, Student, Some(Classroom), Some("emerald")),
      Event(ids[1], "History Essay Draft", NewDateAsWritten(y, m, d + 5, 17, 0), NewDateAsWritten(y, m, d + 5, 18, 0),
            Some("Submit draft to Google Classroom"), None, Student, Some(Classroom), Some("blue")) ]
  }

  /** Constructing a local time from today's own year, month and a shifted
      date of the month lands `k` days after today. */
  lemma LocalTimeDaysAfter(today: Time, k: int, hour: int, minute: int)
    requires PlainYear(FullYear(today)) && 0 <= hour < 24 && 0 <= minute < 60
    ensures NewDateAsWritten(FullYear(today), MonthIndex(today), DateOfMonth(today) + k, hour, minute)
         == AtMinute(DayOf(today) + k, hour * MinutesPerHour + minute)
  {
    MakeDayShift(today, k);
  }

  /** handleGoogleSync: the batch has exactly two student events from the
      classroom, at the fixed offsets from today, in palette colours (for a
      year the Date constructor reads as given). */
  lemma ClassroomBatchContents(today: Time, ids: seq<string>)
    requires |ids| == 2 && PlainYear(FullYear(today))
    ensures var b := ClassroomBatch(today, ids);
      && |b| == 2
      && (forall e :: e in b ==> e.category == Student && e.source == Some(Classroom))
      && (forall e :: e in b ==> e.color.Some? && e.color.value in EventColors)
      && b[0].start == AtMinute(DayOf(today) + 2, 23 * 60 + 59)
      && b[0].end == AtMinute(DayOf(today) + 3, 0)
      && b[1].start == AtMinute(DayOf(today) + 5, 17 * 60)
      && b[1].end == AtMinute(DayOf(today) + 5, 18 * 60)
      && b[0].end - b[0].start == 1 && b[1].end - b[1].start == 60
  {
    var b := ClassroomBatch(today, ids);
    var day := DayOf(today);
    EventColorKeys();
    LocalTimeDaysAfter(today, 2, 23, 59);
    LocalTimeDaysAfter(today, 3, 0, 0);
    assert b[0].end - b[0].start == 1;
    LocalTimeDaysAfter(today, 5, 17, 0);
    LocalTimeDaysAfter(today, 5, 18, 0);
    assert b[1].end - b[1].start == 60;
  }

  /** The simulated import once its delay has passed: the batch goes to the
      store and the session records that it has synced. */
  function SyncClassroom(s: Session, today: Time, ids: seq<string>): (r: (Session, seq<Event>))
    requires |ids| == 2
    ensures r.0 == s.(isSyncing := false, hasSynced := true)
    ensures |r.1| == 2 && r.1[0].id == ids[0] && r.1[1].id == ids[1]
  {
    (s.(isSyncing := false, hasSynced := true), ClassroomBatch(today, ids))
  }
}
