/** The task records the project-file parser produces and the mapper reads and
    writes back: associative arrays in the source, datatypes here. A field the
    mapper reads with a default (`?? x`) is an `Option`, `None` standing for a
    missing key. */
module Records {
  import opened Wrappers
  import opened WorkCalendar
  import opened LegacyCalendar

  /** The (days, hours, minutes, seconds) components of a parsed ISO 8601
      period such as `PT8H0M0S`. */
  datatype Interval = Interval(d: int, h: int, i: int, s: int)

  /** Parsing a period string is a library call: it is a parameter, returning
      `None` where the library throws. */
  type IntervalParser = string -> Option<Interval>

  /** A duration field: a number of days (a number, or a numeric string), any
      other string, or nothing. */
  datatype RawDuration = DaysValue(days: real) | Text(text: string) | NoValue

  /** A predecessor link of a record. */
  datatype Link = Link(predecessorUid: int, linkType: int, linkLag: Option<int>, lagFormat: Option<int>)

  /** An entry of a record's successor list: the successor and the link's
      type, lag and lag format. */
  datatype SuccessorEntry = SuccessorEntry(id: int, linkType: int, linkLag: Option<int>, lagFormat: Option<int>)

  /** The computed fields the mapper writes back into a record. */
  datatype CalcFields = CalcFields(
    earlyStart: Option<Stamp>, earlyFinish: Option<Stamp>,
    lateStart: Option<Stamp>, lateFinish: Option<Stamp>,
    totalFloat: int, isCritical: bool)

  /** A task record. A date that is `None` is the empty string. */
  datatype TaskRecord = TaskRecord(
    id: int,
    name: string,
    duration: RawDuration,
    start: Option<Stamp>,
    finish: Option<Stamp>,
    isMilestone: Option<bool>,
    isSummary: Option<bool>,
    outlineLevel: Option<int>,
    links: seq<Link>,
    predecessors: seq<int>,
    successors: seq<SuccessorEntry>,
    computed: Option<CalcFields>)

  /** The string begins with `PT`, the mark of an ISO 8601 period. */
  predicate StartsWithPeriod(s: string) {
    |s| >= 2 && s[0] == 'P' && s[1] == 'T'
  }
}
