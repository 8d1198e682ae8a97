/** The project-file parser: the task nodes of a project XML document become
    task records. Each record gets normalised identifier, name, dates, a
    duration in working days, a finish recomputed from start and duration,
    milestone and summary flags, its predecessor links with defaults filled in,
    and the successor list obtained by inverting every record's links. The
    project's start and finish are then recomputed from the records.

    The XML layer itself (reading the file, typing node text as numbers,
    parsing date strings) is not modelled: a task node arrives as an `XmlTask`
    whose fields are already typed, a missing node being `None`. */
module ProjectParser {
  import opened Wrappers
  import opened Numeric
  import opened WorkCalendar
  import opened LegacyCalendar
  import opened Dependencies
  import opened Records
  import NumericText
  import opened Seqs
  import TaskMapper

  // ---------------------------------------------------------------------------
  // Input

  /** A `PredecessorLink` node: the predecessor's UID and the optional `Type`,
      `LinkLag` and `LagFormat` children. */
  datatype XmlLink = XmlLink(predecessorUid: int, linkType: Option<int>, linkLag: Option<int>, lagFormat: Option<int>)

  /** The trimmed text of a `Duration` node: a number, or any other text
      (usually an ISO 8601 period). */
  datatype XmlDuration = NodeText(text: string) | Number(value: real)

  /** A `Task` node. Dates are the days named by the `Start` and `Finish`
      nodes; a missing or unreadable date is `None`. */
  datatype XmlTask = XmlTask(
    uid: Option<int>,
    name: Option<string>,
    start: Option<Day>,
    finish: Option<Day>,
    duration: Option<XmlDuration>,
    durationFormat: Option<int>,
    summary: Option<int>,
    milestone: Option<int>,
    outlineLevel: Option<int>,
    links: seq<XmlLink>)

  /** The document: the header's start and finish dates and the task nodes in
      document order. */
  datatype XmlProject = XmlProject(startDate: Option<Day>, finishDate: Option<Day>, tasks: seq<XmlTask>)

  /** The parser's result: project start and finish, and the task records. */
  datatype ProjectData = ProjectData(startDate: Option<Stamp>, finishDate: Option<Stamp>, tasks: seq<TaskRecord>)

  // ---------------------------------------------------------------------------
  // Durations

  /** The duration used when a node has none: an empty period. */
  const EmptyPeriod: string := "PT0H0M0S"

  /** The duration format used when a node has none: days. */
  const DaysFormat: int := 7

  /** Working days per unit of a duration format, for the formats the parser
      converts: minutes (3, 35) of an 8-hour day, hours (5, 37), days (7, 39),
      weeks (9, 41) of five days, months (11, 43) of twenty days. Any other
      format is read as days. */
  function DaysPerUnit(format: int): (k: real)
    ensures k > 0.0
  {
    if format == 3 || format == 35 then 1.0 / 480.0
    else if format == 5 || format == 37 then 1.0 / 8.0
    else if format == 9 || format == 41 then 5.0
    else if format == 11 || format == 43 then 20.0
    else 1.0
  }

  /** Minutes and hours are rounded to two decimals; the other formats are
      exact. */
  predicate RoundedFormat(format: int) {
    format in {3, 35, 5, 37}
  }

  /** The hours of a period: days of 24 hours, hours, minutes and seconds. */
  function PeriodHours(iv: Interval): real {
    (iv.d * 24 + iv.h) as real + iv.i as real / 60.0 + iv.s as real / 3600.0
  }

  /** The number the format switch reads: a typed number as it is, and any
      other text through PHP's `(float)` cast, which takes the number at its
      head (`"8h"` reads as 8) and 0 when there is none. */
  function NumberOf(value: XmlDuration): real {
    match value
    case Number(v) => v
    case NodeText(text) => NumericText.ToFloat(text)
  }

  /** The node holds a period string, which is read as an interval. */
  predicate IsPeriod(value: XmlDuration) {
    value.NodeText? && StartsWithPeriod(value.text)
  }

  /** `parseDuration` of the parser, in working days: a period string becomes
      its hours over 8, rounded to two decimals, or 0 when the period does not
      parse. Anything else is read as a number and scaled to days by its
      format, rounded to two decimals for minutes and hours. */
  function ParserDuration(value: XmlDuration, format: int, parse: IntervalParser): (days: real)
    ensures IsPeriod(value) ==>
      if parse(value.text).Some? then RoundedTo2(days, PeriodHours(parse(value.text).value) / 8.0)
      else days == 0.0
    ensures !IsPeriod(value) && RoundedFormat(format) ==>
      RoundedTo2(days, NumberOf(value) * DaysPerUnit(format))
    ensures !IsPeriod(value) && !RoundedFormat(format) ==> days == NumberOf(value) * DaysPerUnit(format)
  {
    if IsPeriod(value) then
      match parse(value.text)
      case None => 0.0
      case Some(iv) => Round2(PeriodHours(iv) / 8.0)
    else
      var v := NumberOf(value);
      if format == 3 || format == 35 then Round2(v / 480.0)
      else if format == 5 || format == 37 then Round2(v / 8.0)
      else if format == 7 || format == 39 then v
      else if format == 9 || format == 41 then v * 5.0
      else if format == 11 || format == 43 then v * 20.0
      else v
  }

  /** For minutes and hours, the days are exactly PHP's `round(…, 2)` of the
      scaled number, since two-place rounding has one answer. */
  lemma RoundedFormatIsRound2(value: XmlDuration, format: int, parse: IntervalParser)
    requires !IsPeriod(value) && RoundedFormat(format)
    ensures ParserDuration(value, format, parse) == Round2(NumberOf(value) * DaysPerUnit(format))
  {
    Round2Unique(ParserDuration(value, format, parse), NumberOf(value) * DaysPerUnit(format));
  }

  /** Text with a number at its head is read as that number in its format:
      `"8h"` in days is 8 days. */
  lemma LeadingNumberText(n: nat, rest: string, parse: IntervalParser)
    requires rest == [] || !(NumericText.IsDigit(rest[0]) || rest[0] in ".eE")
    ensures ParserDuration(NodeText(NumericText.NatText(n) + rest), DaysFormat, parse) == n as real
  {
    var text := NumericText.NatText(n) + rest;
    NumericText.NatTextThenWord(n, rest);
    assert NumericText.IsDigit(text[0]);
  }

  /** A whole number of days written in days reads back, through the mapper,
      as exactly that many 480-minute days. */
  lemma WholeDaysReadBack(n: int, parse: IntervalParser)
    ensures TaskMapper.ParseDuration(DaysValue(ParserDuration(Number(n as real), DaysFormat, parse)), parse) == n * 480
  {
    TaskMapper.ParseDurationOfDays(n * 480, parse);
    assert (n * 480) as real / 480.0 == n as real;
  }

  /** A duration written in minutes reads back, through the mapper, within
      three minutes of itself: the parser keeps two decimals of a day, which
      is 4.8 minutes. */
  lemma MinutesReadBack(m: int, parse: IntervalParser)
    ensures var back := TaskMapper.ParseDuration(DaysValue(ParserDuration(Number(m as real), 3, parse)), parse);
      m - 3 <= back <= m + 3
  {
    var days := ParserDuration(Number(m as real), 3, parse);
    assert -0.005 <= days - m as real / 480.0 <= 0.005;
    assert -2.4 <= days * 480.0 - m as real <= 2.4;
  }

  // ---------------------------------------------------------------------------
  // One task

  /** The root task of the document has UID 0 and no name; it is skipped. */
  predicate IsEmptyRoot(x: XmlTask) {
    x.uid.GetOr(0) == 0 && x.name.GetOr("") == ""
  }

  /** A link of a record: type 1 (finish-to-start), a lag of 0 and format 7
      (days) unless the node says otherwise. */
  function RecordLink(l: XmlLink): (r: Link)
    ensures r.predecessorUid == l.predecessorUid
    ensures l.linkType.None? ==> TaskMapper.LinkDependency(r, 0).depType == FinishToStart
    ensures l.linkLag.None? ==> TaskMapper.LinkDependency(r, 0).lag == 0
    ensures l.lagFormat.None? ==> !TaskMapper.LinkDependency(r, 0).isPercentage
  {
    Link(l.predecessorUid, l.linkType.GetOr(1), Some(l.linkLag.GetOr(0)), Some(l.lagFormat.GetOr(7)))
  }

  /** A link with nothing but a predecessor becomes a plain finish-to-start
      dependency without lag. */
  lemma BareLinkIsPlain(uid: int, owner: int)
    ensures TaskMapper.LinkDependency(RecordLink(XmlLink(uid, None, None, None)), owner)
         == PlainDependency(uid, owner, FinishToStart)
  {
  }

  /** A node date as the record holds it: that day at midnight. */
  function AtMidnight(d: Option<Day>): (s: Option<Stamp>)
    ensures s.Some? <==> d.Some?
    ensures s.Some? ==> s.value.day == d.value && s.value.minute == 0
  {
    if d.Some? then Some(Stamp(d.value, 0)) else None
  }

  /** The links of a node, each with defaults filled in. */
  function RecordLinks(ls: seq<XmlLink>): (rs: seq<Link>)
    ensures |rs| == |ls|
    ensures forall j | 0 <= j < |ls| :: rs[j] == RecordLink(ls[j])
  {
    seq(|ls|, j requires 0 <= j < |ls| => RecordLink(ls[j]))
  }

  /** The record's plain predecessor list: the UIDs of its links, in order. */
  function PredecessorUids(ls: seq<XmlLink>): (ps: seq<int>)
    ensures |ps| == |ls|
    ensures forall j | 0 <= j < |ls| :: ps[j] == ls[j].predecessorUid
  {
    seq(|ls|, j requires 0 <= j < |ls| => ls[j].predecessorUid)
  }

  /** The days of a node's duration, with the defaults for a missing duration
      or format. */
  function NodeDays(x: XmlTask, parse: IntervalParser): real {
    ParserDuration(x.duration.GetOr(NodeText(EmptyPeriod)), x.durationFormat.GetOr(DaysFormat), parse)
  }

  /** The record of one task node. The finish is recomputed from the start
      and the duration whenever the node has a start and a positive duration:
      the summary exception the code intends reads the summary flag before it
      is set, so it never applies. Otherwise the finish is the node's own. A
      task is a milestone when flagged so or when it starts and finishes on the
      same day. The successor list starts empty. */
  function ParseTask(holidays: set<Day>, x: XmlTask, parse: IntervalParser): (r: TaskRecord)
    ensures r.id == x.uid.GetOr(0) && r.name == x.name.GetOr("")
    ensures r.duration == DaysValue(NodeDays(x, parse))
    ensures r.start == AtMidnight(x.start)
    ensures x.start.Some? && NodeDays(x, parse) > 0.0 ==>
      && r.finish.Some?
      && r.finish.value.minute == EndOfDay
      && x.start.value <= r.finish.value.day
      && LegacyCalendar.IsWorkingDay(holidays, r.finish.value.day)
      && CountLegacy(holidays, x.start.value, r.finish.value.day + 1) == Max(1, NodeDays(x, parse).Floor)
    ensures !(x.start.Some? && NodeDays(x, parse) > 0.0) ==> r.finish == AtMidnight(x.finish)
    ensures r.isSummary == Some(x.summary == Some(1))
    ensures r.isMilestone.Some?
    ensures r.isMilestone.value <==>
      x.milestone == Some(1) || (r.start.Some? && r.finish.Some? && r.start.value.day == r.finish.value.day)
    ensures r.outlineLevel == Some(x.outlineLevel.GetOr(0))
    ensures r.links == RecordLinks(x.links) && r.predecessors == PredecessorUids(x.links)
    ensures r.successors == [] && r.computed.None?
  {
    var start := AtMidnight(x.start);
    var days := NodeDays(x, parse);
    var finish := if start.Some? && days > 0.0 then Some(AddWorkingDays(holidays, start.value, days))
                  else AtMidnight(x.finish);
    var milestone := x.milestone == Some(1)
      || (start.Some? && finish.Some? && start.value.day == finish.value.day);
    TaskRecord(x.uid.GetOr(0), x.name.GetOr(""), DaysValue(days), start, finish,
               Some(milestone), Some(x.summary == Some(1)), Some(x.outlineLevel.GetOr(0)),
               RecordLinks(x.links), PredecessorUids(x.links), [], None)
  }

  /** A task shorter than two days that starts on a working day finishes that
      same day, so the parser marks it a milestone. */
  lemma ShortTaskIsMilestone(holidays: set<Day>, x: XmlTask, parse: IntervalParser)
    requires x.start.Some? && LegacyCalendar.IsWorkingDay(holidays, x.start.value)
    requires 0.0 < NodeDays(x, parse) < 2.0
    ensures ParseTask(holidays, x, parse).isMilestone == Some(true)
  {
  }

  /** A task that starts on a non-working day and lasts at least a day
      finishes on a later day, so it is a milestone only when flagged. */
  lemma StartOnRestDayNotMilestone(holidays: set<Day>, x: XmlTask, parse: IntervalParser)
    requires x.start.Some? && !LegacyCalendar.IsWorkingDay(holidays, x.start.value)
    requires NodeDays(x, parse) > 0.0
    ensures ParseTask(holidays, x, parse).isMilestone == Some(x.milestone == Some(1))
  {
    var r := ParseTask(holidays, x, parse);
    assert r.finish.value.day != x.start.value;
  }

  // ---------------------------------------------------------------------------
  // All tasks

  /** The task nodes that are not the empty root, in document order. */
  function Kept(xs: seq<XmlTask>): (ks: seq<XmlTask>)
    ensures |ks| <= |xs|
    ensures forall x :: x in ks <==> x in xs && !IsEmptyRoot(x)
    decreases |xs|
  {
    if xs == [] then []
    else (if IsEmptyRoot(xs[0]) then [] else [xs[0]]) + Kept(xs[1..])
  }

  /** A record per kept node, in order. */
  function ParseTasks(holidays: set<Day>, xs: seq<XmlTask>, parse: IntervalParser): (rs: seq<TaskRecord>)
    ensures |rs| == |xs|
    ensures forall i | 0 <= i < |xs| :: rs[i] == ParseTask(holidays, xs[i], parse)
  {
    seq(|xs|, i requires 0 <= i < |xs| => ParseTask(holidays, xs[i], parse))
  }

  // ---------------------------------------------------------------------------
  // Successors

  /** The successor entry a link of `owner` gives its predecessor. */
  function EntryOf(l: Link, owner: int): SuccessorEntry {
    SuccessorEntry(owner, l.linkType, l.linkLag, l.lagFormat)
  }

  /** The entries that the links of one record give the task `p`, in link
      order. */
  function LinkSuccessors(links: seq<Link>, owner: int, p: int): (s: seq<SuccessorEntry>)
    ensures forall e :: e in s <==>
      exists j | 0 <= j < |links| :: links[j].predecessorUid == p && e == EntryOf(links[j], owner)
    ensures s == Flatten(LinkEntries(links, owner, p))
    decreases |links|
  {
    if links == [] then []
    else
      var rest := LinkSuccessors(links[1..], owner, p);
      assert forall j | 0 <= j < |links| - 1 :: links[1..][j] == links[j + 1];
      assert LinkEntries(links, owner, p)[1..] == LinkEntries(links[1..], owner, p);
      (if links[0].predecessorUid == p then [EntryOf(links[0], owner)] else []) + rest
  }

  /** Per link of `owner`, the successor entry it gives `p`: one entry when it
      names `p` as predecessor, none otherwise. */
  function LinkEntries(links: seq<Link>, owner: int, p: int): seq<seq<SuccessorEntry>> {
    seq(|links|, j requires 0 <= j < |links| =>
      if links[j].predecessorUid == p then [EntryOf(links[j], owner)] else [])
  }

  /** Per record, the successor entries its links give `p`, in record order. */
  function RecordEntries(rs: seq<TaskRecord>, p: int): seq<seq<SuccessorEntry>> {
    seq(|rs|, i requires 0 <= i < |rs| => Flatten(LinkEntries(rs[i].links, rs[i].id, p)))
  }

  /** Whether record `i`'s link `j` names `p` as predecessor and gives the
      entry `e`. */
  predicate LinkGives(rs: seq<TaskRecord>, p: int, e: SuccessorEntry, i: int, j: int)
    requires 0 <= i < |rs|
  {
    0 <= j < |rs[i].links| && rs[i].links[j].predecessorUid == p && e == EntryOf(rs[i].links[j], rs[i].id)
  }

  /** The successors of `p`: one entry per link naming `p` as predecessor,
      records in order and links in order within each. */
  function SuccessorsOf(rs: seq<TaskRecord>, p: int): (s: seq<SuccessorEntry>)
    ensures forall e :: e in s <==> exists i, j | 0 <= i < |rs| :: LinkGives(rs, p, e, i, j)
    ensures s == Flatten(RecordEntries(rs, p))
    decreases |rs|
  {
    if rs == [] then []
    else
      var n := |rs| - 1;
      var s := SuccessorsOf(rs[..n], p) + LinkSuccessors(rs[n].links, rs[n].id, p);
      assert rs == rs[..n] + [rs[n]];
      assert RecordEntries(rs, p) == RecordEntries(rs[..n], p) + [LinkSuccessors(rs[n].links, rs[n].id, p)];
      FlattenSnoc(RecordEntries(rs[..n], p), LinkSuccessors(rs[n].links, rs[n].id, p));
      SuccessorsOfSnoc(rs, rs[..n], rs[n], p, s);
      s
  }

  lemma SuccessorsOfSnoc(rs: seq<TaskRecord>, pre: seq<TaskRecord>, last: TaskRecord, p: int, s: seq<SuccessorEntry>)
    requires rs == pre + [last]
    requires forall e :: e in s <==>
      (exists i, j | 0 <= i < |pre| :: LinkGives(pre, p, e, i, j))
      || (exists j | 0 <= j < |last.links| :: last.links[j].predecessorUid == p && e == EntryOf(last.links[j], last.id))
    ensures forall e :: e in s <==> exists i, j | 0 <= i < |rs| :: LinkGives(rs, p, e, i, j)
  {
    var n := |pre|;
    forall e | e in s
      ensures exists i, j | 0 <= i < |rs| :: LinkGives(rs, p, e, i, j)
    {
      if exists i, j | 0 <= i < n :: LinkGives(pre, p, e, i, j) {
        var i, j :| 0 <= i < n && LinkGives(pre, p, e, i, j);
        assert rs[i] == pre[i];
        assert LinkGives(rs, p, e, i, j);
      } else {
        var j :| 0 <= j < |last.links| && last.links[j].predecessorUid == p && e == EntryOf(last.links[j], last.id);
        assert LinkGives(rs, p, e, n, j);
      }
    }
    forall e, i, j | 0 <= i < |rs| && LinkGives(rs, p, e, i, j)
      ensures e in s
    {
      if i < n {
        assert rs[i] == pre[i];
        assert LinkGives(pre, p, e, i, j);
      } else {
        assert 0 <= j < |last.links| && last.links[j].predecessorUid == p && e == EntryOf(last.links[j], last.id);
      }
    }
  }

  /** `rs` with every record's successor list set to its successors, when it
      has any. */
  function WithSuccessors(rs: seq<TaskRecord>): (out: seq<TaskRecord>)
    ensures |out| == |rs|
    ensures forall i | 0 <= i < |rs| ::
      out[i].(successors := rs[i].successors) == rs[i]
      && (SuccessorsOf(rs, rs[i].id) != [] ==> out[i].successors == SuccessorsOf(rs, rs[i].id))
      && (SuccessorsOf(rs, rs[i].id) == [] ==> out[i].successors == rs[i].successors)
  {
    seq(|rs|, i requires 0 <= i < |rs| =>
      var s := SuccessorsOf(rs, rs[i].id);
      if s == [] then rs[i] else rs[i].(successors := s))
  }

  /** Successor lists only read identifiers and links. */
  lemma {:induction false} SuccessorsOfFrame(a: seq<TaskRecord>, b: seq<TaskRecord>, p: int)
    requires |a| == |b|
    requires forall i | 0 <= i < |a| :: a[i].id == b[i].id && a[i].links == b[i].links
    ensures SuccessorsOf(a, p) == SuccessorsOf(b, p)
    decreases |a|
  {
    if a != [] {
      var n := |a| - 1;
      SuccessorsOfFrame(a[..n], b[..n], p);
    }
  }

  /** After inversion, `q` is among `p`'s successors exactly when a record
      with identifier `q` has a link naming `p`, with that link's type, lag
      and format. */
  lemma SuccessorsAreConverse(rs: seq<TaskRecord>, k: int, e: SuccessorEntry)
    requires 0 <= k < |rs|
    requires forall i | 0 <= i < |rs| :: rs[i].successors == []
    ensures var out := WithSuccessors(rs);
      e in out[k].successors <==>
        exists i, j | 0 <= i < |out| :: LinkGives(out, out[k].id, e, i, j)
  {
    var out := WithSuccessors(rs);
    SuccessorsOfFrame(rs, out, rs[k].id);
    forall i | 0 <= i < |rs|
      ensures out[i].successors == SuccessorsOf(out, out[i].id)
    {
      SuccessorsOfFrame(rs, out, rs[i].id);
    }
  }

  // ---------------------------------------------------------------------------
  // Project bounds

  /** Chronological order of stamps; for the four-digit-year date strings the
      parser compares, it is their string order. */
  predicate Before(a: Stamp, b: Stamp) {
    a.day < b.day || (a.day == b.day && a.minute < b.minute)
  }

  /** The earliest start among the records, the first one on ties. */
  function EarliestStart(rs: seq<TaskRecord>): (m: Option<Stamp>)
    ensures m.None? <==> forall i | 0 <= i < |rs| :: rs[i].start.None?
    ensures m.Some? ==> exists i | 0 <= i < |rs| :: rs[i].start == m
    ensures m.Some? ==> forall i | 0 <= i < |rs| && rs[i].start.Some? :: !Before(rs[i].start.value, m.value)
    decreases |rs|
  {
    if rs == [] then None
    else
      var n := |rs| - 1;
      var m := EarliestStart(rs[..n]);
      assert forall i | 0 <= i < n :: rs[..n][i] == rs[i];
      Earlier(m, rs[n].start)
  }

  /** The earlier of a bound so far and one more start, the bound on ties. */
  function Earlier(m: Option<Stamp>, s: Option<Stamp>): Option<Stamp> {
    if s.Some? && (m.None? || Before(s.value, m.value)) then s else m
  }

  /** The latest finish among the records, the first one on ties. */
  function LatestFinish(rs: seq<TaskRecord>): (m: Option<Stamp>)
    ensures m.None? <==> forall i | 0 <= i < |rs| :: rs[i].finish.None?
    ensures m.Some? ==> exists i | 0 <= i < |rs| :: rs[i].finish == m
    ensures m.Some? ==> forall i | 0 <= i < |rs| && rs[i].finish.Some? :: !Before(m.value, rs[i].finish.value)
    decreases |rs|
  {
    if rs == [] then None
    else
      var n := |rs| - 1;
      var m := LatestFinish(rs[..n]);
      assert forall i | 0 <= i < n :: rs[..n][i] == rs[i];
      Later(m, rs[n].finish)
  }

  /** The later of a bound so far and one more finish, the bound on ties. */
  function Later(m: Option<Stamp>, f: Option<Stamp>): Option<Stamp> {
    if f.Some? && (m.None? || Before(m.value, f.value)) then f else m
  }

  /** `parse`: the kept nodes become records, successors are filled in by
      inverting the links, and the project's start and finish become the
      earliest record start and the latest record finish, the header's dates
      (at midnight) standing when no record has one. */
  function Parse(holidays: set<Day>, x: XmlProject, parse: IntervalParser): (d: ProjectData)
    ensures |d.tasks| == |Kept(x.tasks)|
    ensures forall i | 0 <= i < |d.tasks| ::
      d.tasks[i].(successors := []) == ParseTask(holidays, Kept(x.tasks)[i], parse)
    ensures d.startDate == if EarliestStart(d.tasks).Some? then EarliestStart(d.tasks) else AtMidnight(x.startDate)
    ensures d.finishDate == if LatestFinish(d.tasks).Some? then LatestFinish(d.tasks) else AtMidnight(x.finishDate)
  {
    var rs := ParseTasks(holidays, Kept(x.tasks), parse);
    var out := WithSuccessors(rs);
    ParsedRecords(holidays, Kept(x.tasks), parse, rs, out);
    BoundsFrame(rs, out);
    var s := EarliestStart(rs);
    var f := LatestFinish(rs);
    ProjectData(if s.Some? then s else AtMidnight(x.startDate),
                if f.Some? then f else AtMidnight(x.finishDate),
                out)
  }

  /** Inversion leaves everything but the successor lists as parsed. */
  lemma ParsedRecords(holidays: set<Day>, ks: seq<XmlTask>, parse: IntervalParser,
                      rs: seq<TaskRecord>, out: seq<TaskRecord>)
    requires rs == ParseTasks(holidays, ks, parse) && out == WithSuccessors(rs)
    ensures |out| == |ks|
    ensures forall i | 0 <= i < |out| :: out[i].(successors := []) == ParseTask(holidays, ks[i], parse)
  {
    forall i | 0 <= i < |out|
      ensures out[i].(successors := []) == ParseTask(holidays, ks[i], parse)
    {
      assert rs[i] == ParseTask(holidays, ks[i], parse);
      assert rs[i].successors == [];
      assert out[i].(successors := rs[i].successors) == rs[i];
    }
  }

  /** Bounds only read starts and finishes. */
  lemma {:induction false} BoundsFrame(a: seq<TaskRecord>, b: seq<TaskRecord>)
    requires |a| == |b|
    requires forall i | 0 <= i < |a| :: a[i].start == b[i].start && a[i].finish == b[i].finish
    ensures EarliestStart(a) == EarliestStart(b) && LatestFinish(a) == LatestFinish(b)
    decreases |a|
  {
    if a != [] {
      var n := |a| - 1;
      BoundsFrame(a[..n], b[..n]);
      assert EarliestStart(a) == Earlier(EarliestStart(a[..n]), a[n].start);
      assert EarliestStart(b) == Earlier(EarliestStart(b[..n]), b[n].start);
      assert LatestFinish(a) == Later(LatestFinish(a[..n]), a[n].finish);
      assert LatestFinish(b) == Later(LatestFinish(b[..n]), b[n].finish);
    }
  }

  /** In the parsed project every record's successor list is the converse of
      the links: an entry for `q` sits in `p`'s list exactly when a record
      `q` has a link naming `p`. */
  lemma ParsedSuccessors(holidays: set<Day>, x: XmlProject, parse: IntervalParser, k: int, e: SuccessorEntry)
    requires 0 <= k < |Parse(holidays, x, parse).tasks|
    ensures var ts := Parse(holidays, x, parse).tasks;
      e in ts[k].successors <==> exists i, j | 0 <= i < |ts| :: LinkGives(ts, ts[k].id, e, i, j)
  {
    var rs := ParseTasks(holidays, Kept(x.tasks), parse);
    SuccessorsAreConverse(rs, k, e);
  }

  /** The project start is no later than any record's start, and the project
      finish no earlier than any record's finish. */
  lemma ParsedBounds(holidays: set<Day>, x: XmlProject, parse: IntervalParser)
    ensures var d := Parse(holidays, x, parse);
      forall i | 0 <= i < |d.tasks| ::
        && (d.tasks[i].start.Some? ==> d.startDate.Some? && !Before(d.tasks[i].start.value, d.startDate.value))
        && (d.tasks[i].finish.Some? ==> d.finishDate.Some? && !Before(d.finishDate.value, d.tasks[i].finish.value))
  {
  }
}
