/**
 The record shapes of the calendar: events, partial events (form payloads and
 AI drafts), the AI's judgement and parse result, and the view modes.
 Timestamps, which the application keeps as ISO-8601 strings, are local
 minutes here (see CivilTime).
 */
module Types {
  import opened CivilTime

  datatype Option<+T> = None | Some(value: T)

  /** The value carried, or `default` when absent. */
  function GetOr<T>(o: Option<T>, default: T): T
  {
    match o
    case Some(v) => v
    case None => default
  }

  /** JavaScript's `s || default` on an optional string: an absent or empty
      string is falsy and gives way to the default. */
  function OrString(o: Option<string>, default: string): (r: string)
    ensures o.Some? && o.value != "" ==> r == o.value
    ensures o.None? || o == Some("") ==> r == default
  {
    if o.Some? && o.value != "" then o.value else default
  }

  datatype Category = Business | Student | Personal | Other

  const AllCategories: seq<Category> := [Business, Student, Personal, Other]

  /** Provenance of an event. */
  datatype Source = Classroom | User | AI

  datatype ViewMode = Year | Month | Day

  const AllViewModes: seq<ViewMode> := [Year, Month, Day]

  /** A stored calendar event: id, title, start, end and category are
      required; the rest may be absent. */
  datatype Event = Event(
    id: string,
    title: string,
    start: Time,
    end: Time,
    description: Option<string>,
    location: Option<string>,
    category: Category,
    source: Option<Source>,
    color: Option<string>)

  /** A partial event: every field may be absent. Form submissions, edits
      and AI drafts all have this shape. */
  datatype Partial = Partial(
    id: Option<string>,
    title: Option<string>,
    start: Option<Time>,
    end: Option<Time>,
    description: Option<string>,
    location: Option<string>,
    category: Option<Category>,
    source: Option<Source>,
    color: Option<string>)

  const EmptyPartial: Partial := Partial(None, None, None, None, None, None, None, None, None)

  /** The AI's assessment of its own extraction. */
  datatype Judgement = Judgement(
    confidenceScore: int,
    reasoning: string,
    ambiguityDetected: bool,
    suggestions: seq<string>)

  /** What the extraction service returns: candidate events and a judgement. */
  datatype ParseResult = ParseResult(events: seq<Partial>, judgement: Judgement)

  /** Object spread `{ ...e, ...p }`: every field present in `p` overrides
      the event's, every absent one is kept. */
  function Merge(e: Event, p: Partial): (r: Event)
    ensures p.id.Some? ==> r.id == p.id.value
    ensures p.id.None? ==> r.id == e.id
    ensures p.title.Some? ==> r.title == p.title.value
    ensures p.title.None? ==> r.title == e.title
    ensures p.start.Some? ==> r.start == p.start.value
    ensures p.start.None? ==> r.start == e.start
    ensures p.end.Some? ==> r.end == p.end.value
    ensures p.end.None? ==> r.end == e.end
    ensures p.category.Some? ==> r.category == p.category.value
    ensures p.category.None? ==> r.category == e.category
    ensures r.description == (if p.description.Some? then p.description else e.description)
    ensures r.location == (if p.location.Some? then p.location else e.location)
    ensures r.source == (if p.source.Some? then p.source else e.source)
    ensures r.color == (if p.color.Some? then p.color else e.color)
    ensures p == EmptyPartial ==> r == e
  {
    Event(
      GetOr(p.id, e.id),
      GetOr(p.title, e.title),
      GetOr(p.start, e.start),
      GetOr(p.end, e.end),
      if p.description.Some? then p.description else e.description,
      if p.location.Some? then p.location else e.location,
      GetOr(p.category, e.category),
      if p.source.Some? then p.source else e.source,
      if p.color.Some? then p.color else e.color)
  }

  /** The enumerations have exactly the values listed, each once. */
  lemma EnumerationsComplete()
    ensures forall c: Category :: c in AllCategories
    ensures |AllCategories| == 4
    ensures forall i, j :: 0 <= i < j < |AllCategories| ==> AllCategories[i] != AllCategories[j]
    ensures forall v: ViewMode :: v in AllViewModes
    ensures |AllViewModes| == 3
    ensures forall i, j :: 0 <= i < j < |AllViewModes| ==> AllViewModes[i] != AllViewModes[j]
  {
    forall c: Category ensures c in AllCategories {
      match c
      case Business => assert AllCategories[0] == c;
      case Student => assert AllCategories[1] == c;
      case Personal => assert AllCategories[2] == c;
      case Other => assert AllCategories[3] == c;
    }
    forall v: ViewMode ensures v in AllViewModes {
      match v
      case Year => assert AllViewModes[0] == v;
      case Month => assert AllViewModes[1] == v;
      case Day => assert AllViewModes[2] == v;
    }
  }
}
