/** The mapper between task records and the scheduling domain: records become
    tasks and dependencies, and computed tasks are merged back into the
    records. */
module TaskMapper {
  import opened Wrappers
  import opened Numeric
  import opened WorkCalendar
  import opened LegacyCalendar
  import opened Dependencies
  import opened Tasks
  import opened Records
  import opened Seqs
  import Cpm

  // ---------------------------------------------------------------------------
  // Durations

  /** `parseDuration`: a number of days becomes minutes of an 8-hour day,
      rounded; a period string becomes its days, hours and minutes in minutes,
      seconds dropped; anything else, and a period the library rejects, is 0.
      The days term follows the source, but it is always 0 on the parser's
      path: a period that begins with `PT` has only time parts, since days
      would come before the `T`. */
  function ParseDuration(value: RawDuration, parse: IntervalParser): (minutes: int)
    ensures value.DaysValue? ==>
      value.days * 480.0 - 0.5 <= minutes as real <= value.days * 480.0 + 0.5
    ensures value.DaysValue? && value.days >= 0.0 ==> minutes as real > value.days * 480.0 - 0.5
    ensures value.DaysValue? && value.days <= 0.0 ==> (minutes as real) < value.days * 480.0 + 0.5
    ensures value.Text? && StartsWithPeriod(value.text) && parse(value.text).Some? ==>
      var iv := parse(value.text).value;
      minutes == iv.d * MinutesPerDay + iv.h * 60 + iv.i
    ensures value.NoValue? || (value.Text? && (!StartsWithPeriod(value.text) || parse(value.text).None?)) ==>
      minutes == 0
  {
    match value
    case DaysValue(days) => RoundHalfAway(days * 480.0)
    case Text(text) =>
      if StartsWithPeriod(text) then
        match parse(text)
        case None => 0
        case Some(iv) => iv.d * MinutesPerDay + iv.h * 60 + iv.i
      else 0
    case NoValue => 0
  }

  /** The duration written back by the merge, minutes over 480 as days, reads
      back as the same minutes. */
  lemma ParseDurationOfDays(minutes: int, parse: IntervalParser)
    ensures ParseDuration(DaysValue(minutes as real / 480.0), parse) == minutes
  {
    var x := minutes as real / 480.0 * 480.0;
    assert x == minutes as real;
    if minutes >= 0 {
      assert (x + 0.5).Floor == minutes;
    } else {
      assert (-x + 0.5).Floor == -minutes;
    }
  }

  // ---------------------------------------------------------------------------
  // Dependencies

  /** The lag format code for a percentage lag; every other format counts
      tenths of a minute. */
  const PercentFormat: int := 57

  /** One predecessor link of the record `owner` as a dependency: the link
      names the predecessor, the owner is the successor, the type comes from
      the project-file code, and the lag is a percentage for format 57 and
      tenths of a minute (truncated to minutes) otherwise. A missing lag is 0
      and a missing format is 0. */
  function LinkDependency(l: Link, owner: TaskId): (d: Dependency)
    ensures d.predecessorId == l.predecessorUid && d.successorId == owner
    ensures d.depType == FromMppType(l.linkType)
    ensures d.isPercentage <==> l.lagFormat == Some(PercentFormat)
    ensures d.isPercentage ==> d.lag == l.linkLag.GetOr(0)
    ensures !d.isPercentage ==>
      Abs(d.lag) * 10 <= Abs(l.linkLag.GetOr(0)) < (Abs(d.lag) + 1) * 10
      && (d.lag > 0 ==> l.linkLag.GetOr(0) > 0) && (d.lag < 0 ==> l.linkLag.GetOr(0) < 0)
  {
    var raw := l.linkLag.GetOr(0);
    if l.lagFormat.GetOr(0) == PercentFormat then
      Dependency(l.predecessorUid, owner, FromMppType(l.linkType), raw, true)
    else
      Dependency(l.predecessorUid, owner, FromMppType(l.linkType), TruncDiv(raw, 10), false)
  }

  /** A link that a dependency reads back from: its type code, and its lag as a
      percentage or in tenths of a minute (format 7, days). */
  function LinkOf(d: Dependency): (l: Link)
    ensures l.predecessorUid == d.predecessorId
    ensures 1 <= l.linkType <= 4
  {
    if d.isPercentage then Link(d.predecessorId, MppCode(d.depType), Some(d.lag), Some(PercentFormat))
    else Link(d.predecessorId, MppCode(d.depType), Some(d.lag * 10), Some(7))
  }

  /** Every dependency survives the trip through a link unchanged. */
  lemma LinkRoundTrip(d: Dependency)
    ensures LinkDependency(LinkOf(d), d.successorId) == d
  {
    FromMppTypeOfCode(d.depType);
    if !d.isPercentage {
      assert TruncDiv(d.lag * 10, 10) == d.lag;
    }
  }

  /** The dependencies of one record, in link order. */
  function LinkDependencies(links: seq<Link>, owner: TaskId): (ds: seq<Dependency>)
    ensures |ds| == |links|
    ensures forall j | 0 <= j < |links| :: ds[j] == LinkDependency(links[j], owner)
    decreases |links|
  {
    if links == [] then []
    else [LinkDependency(links[0], owner)] + LinkDependencies(links[1..], owner)
  }

  // ---------------------------------------------------------------------------
  // Records to the domain

  /** The task of one record: nothing computed, a missing milestone or summary
      flag is false, a missing level is 0, and the start becomes the manual
      start only when present. Only the start's day is kept: the parser
      writes every date at midnight, and a merged record's start is a
      computed day, itself written at midnight (see `MergeRecord`). */
  function RecordTask(r: TaskRecord, parse: IntervalParser): (t: Task)
    ensures t.Unscheduled()
    ensures t.Identity() == TaskIdentity(
      r.id, r.name, ParseDuration(r.duration, parse), r.isMilestone.GetOr(false),
      r.outlineLevel.GetOr(0), r.isSummary.GetOr(false),
      if r.start.Some? then Some(r.start.value.day) else None)
  {
    Task(r.id, r.name, ParseDuration(r.duration, parse), None, 0, false,
         r.isMilestone.GetOr(false), r.outlineLevel.GetOr(0), r.isSummary.GetOr(false),
         if r.start.Some? then Some(r.start.value.day) else None)
  }

  datatype DomainData = DomainData(tasks: seq<Task>, dependencies: seq<Dependency>)

  /** Number of links over all records. */
  function LinkCount(records: seq<TaskRecord>): nat
    decreases |records|
  {
    if records == [] then 0 else LinkCount(records[..|records| - 1]) + |records[|records| - 1].links|
  }

  /** Each record's dependencies, in record order. */
  function RecordDependencies(records: seq<TaskRecord>): seq<seq<Dependency>> {
    seq(|records|, i requires 0 <= i < |records| => LinkDependencies(records[i].links, records[i].id))
  }

  /** `toDomain`: one task per record in record order, and one dependency per
      link, records in order and links in order within each. */
  function ToDomain(records: seq<TaskRecord>, parse: IntervalParser): (data: DomainData)
    ensures |data.tasks| == |records|
    ensures forall i | 0 <= i < |records| :: data.tasks[i] == RecordTask(records[i], parse)
    ensures data.dependencies == Flatten(RecordDependencies(records))
    ensures |data.dependencies| == LinkCount(records)
    ensures forall d :: d in data.dependencies <==>
      exists i, j | 0 <= i < |records| && 0 <= j < |records[i].links| ::
        d == LinkDependency(records[i].links[j], records[i].id)
    decreases |records|
  {
    if records == [] then DomainData([], [])
    else
      var n := |records| - 1;
      var r := records[n];
      var prefix := ToDomain(records[..n], parse);
      var ds := LinkDependencies(r.links, r.id);
      assert forall i | 0 <= i < n :: records[..n][i] == records[i];
      LinkDependenciesSnoc(records, records[..n], prefix.dependencies, ds);
      assert RecordDependencies(records) == RecordDependencies(records[..n]) + [ds];
      FlattenSnoc(RecordDependencies(records[..n]), ds);
      DomainData(prefix.tasks + [RecordTask(r, parse)], prefix.dependencies + ds)
  }

  /** The dependencies of the records before the last, followed by those of
      the last record, are the dependencies of all the records. */
  lemma LinkDependenciesSnoc(records: seq<TaskRecord>, front: seq<TaskRecord>, pre: seq<Dependency>, ds: seq<Dependency>)
    requires records != [] && front == records[..|records| - 1]
    requires forall d :: d in pre <==>
      exists i, j | 0 <= i < |front| && 0 <= j < |front[i].links| ::
        d == LinkDependency(front[i].links[j], front[i].id)
    requires ds == LinkDependencies(records[|records| - 1].links, records[|records| - 1].id)
    ensures forall d :: d in pre + ds <==>
      exists i, j | 0 <= i < |records| && 0 <= j < |records[i].links| ::
        d == LinkDependency(records[i].links[j], records[i].id)
  {
    var n := |records| - 1;
    forall d | d in pre + ds
      ensures exists i, j | 0 <= i < |records| && 0 <= j < |records[i].links| ::
        d == LinkDependency(records[i].links[j], records[i].id)
    {
      if d in pre {
        var i, j :| 0 <= i < n && 0 <= j < |front[i].links| &&
          d == LinkDependency(front[i].links[j], front[i].id);
        assert front[i] == records[i];
      } else {
        var j :| 0 <= j < |ds| && ds[j] == d;
        assert d == LinkDependency(records[n].links[j], records[n].id);
      }
    }
    forall i, j | 0 <= i < |records| && 0 <= j < |records[i].links|
      ensures LinkDependency(records[i].links[j], records[i].id) in pre + ds
    {
      if i < n {
        assert front[i] == records[i];
      } else {
        assert ds[j] in ds;
      }
    }
  }

  // ---------------------------------------------------------------------------
  // Merging results back

  /** A computed day as the record writes it: at midnight. */
  function Midnight(d: Day): Stamp {
    Stamp(d, 0)
  }

  /** One record merged with its computed task: the computed fields are
      written, start and finish take the early dates when there are any, and
      the duration becomes the task's minutes in days. */
  function MergeRecord(r: TaskRecord, t: Task): (m: TaskRecord)
    ensures m.id == r.id && m.name == r.name && m.links == r.links
    ensures m.isMilestone == r.isMilestone && m.isSummary == r.isSummary && m.outlineLevel == r.outlineLevel
    ensures m.predecessors == r.predecessors && m.successors == r.successors
    ensures m.computed.Some? && m.computed.value.totalFloat == t.totalFloat && m.computed.value.isCritical == t.isCritical
    ensures t.dates.None? ==>
      && m.computed.value.earlyStart.None? && m.computed.value.earlyFinish.None?
      && m.computed.value.lateStart.None? && m.computed.value.lateFinish.None?
    ensures t.dates.Some? ==>
      && m.computed.value.earlyStart == Some(Midnight(t.dates.value.earlyStart))
      && m.computed.value.earlyFinish == Some(Midnight(t.dates.value.earlyFinish))
      && m.computed.value.lateStart == Some(Midnight(t.dates.value.lateStart))
      && m.computed.value.lateFinish == Some(Midnight(t.dates.value.lateFinish))
    ensures t.dates.None? ==> m.start == r.start && m.finish == r.finish
    ensures t.dates.Some? ==>
      m.start == Some(Midnight(t.dates.value.earlyStart)) && m.finish == Some(Midnight(t.dates.value.earlyFinish))
    ensures m.duration == DaysValue(t.durationMinutes as real / 480.0)
  {
    match t.dates
    case None =>
      r.(computed := Some(CalcFields(None, None, None, None, t.totalFloat, t.isCritical)),
         duration := DaysValue(t.durationMinutes as real / 480.0))
    case Some(e) =>
      r.(computed := Some(CalcFields(Some(Midnight(e.earlyStart)), Some(Midnight(e.earlyFinish)),
                                 Some(Midnight(e.lateStart)), Some(Midnight(e.lateFinish)),
                                 t.totalFloat, t.isCritical)),
         start := Some(Midnight(e.earlyStart)),
         finish := Some(Midnight(e.earlyFinish)),
         duration := DaysValue(t.durationMinutes as real / 480.0))
  }

  /** `mergeCalculation`: the computed tasks keyed by identifier (a later one
      replacing an earlier one), then every record whose identifier has a
      computed task is merged with it; the others are untouched. */
  function MergeCalculation(records: seq<TaskRecord>, calculated: seq<Task>): (out: seq<TaskRecord>)
    ensures |out| == |records|
    ensures forall i | 0 <= i < |records| && records[i].id !in Cpm.TaskMapOf(calculated) :: out[i] == records[i]
    ensures forall i | 0 <= i < |records| && records[i].id in Cpm.TaskMapOf(calculated) ::
      out[i] == MergeRecord(records[i], Cpm.TaskMapOf(calculated)[records[i].id])
  {
    var results := Cpm.TaskMapOf(calculated);
    seq(|records|, i requires 0 <= i < |records| =>
      if records[i].id in results then MergeRecord(records[i], results[records[i].id]) else records[i])
  }

  /** Merging the same results twice is merging them once. */
  lemma MergeIdempotent(records: seq<TaskRecord>, calculated: seq<Task>)
    ensures MergeCalculation(MergeCalculation(records, calculated), calculated)
         == MergeCalculation(records, calculated)
  {
    var once := MergeCalculation(records, calculated);
    var twice := MergeCalculation(once, calculated);
    var results := Cpm.TaskMapOf(calculated);
    forall i | 0 <= i < |records|
      ensures twice[i] == once[i]
    {
      if records[i].id in results {
        var t := results[records[i].id];
        assert MergeRecord(MergeRecord(records[i], t), t) == MergeRecord(records[i], t);
      }
    }
  }

  /** Reading merged records back gives tasks with the computed durations, and
      with the computed early starts as their manual starts. */
  lemma MergeThenToDomain(records: seq<TaskRecord>, calculated: seq<Task>, parse: IntervalParser)
    ensures var results := Cpm.TaskMapOf(calculated);
      var tasks := ToDomain(MergeCalculation(records, calculated), parse).tasks;
      forall i | 0 <= i < |records| && records[i].id in results ::
        && tasks[i].id == records[i].id
        && tasks[i].durationMinutes == results[records[i].id].durationMinutes
        && (results[records[i].id].dates.Some? ==>
              tasks[i].manualStart == Some(results[records[i].id].dates.value.earlyStart))
  {
    var results := Cpm.TaskMapOf(calculated);
    forall i | 0 <= i < |records| && records[i].id in results
      ensures ParseDuration(DaysValue(results[records[i].id].durationMinutes as real / 480.0), parse)
           == results[records[i].id].durationMinutes
    {
      ParseDurationOfDays(results[records[i].id].durationMinutes, parse);
    }
  }
}
