# Critical-path scheduling core of visor-gantt, in Dafny

This project models the scheduling backend of visor-gantt, a Gantt viewer
for Microsoft Project XML files. It covers:

- **Project-file parser**: turns the XML task list into task records.
- **Task mapper**: turns the records into domain `Task` and `Dependency`
  values, and writes computed dates back into the records.
- **CPM calculator** (critical path method). It:
  - builds the dependency graph;
  - orders the tasks with Kahn's algorithm;
  - runs the forward pass (early dates) and the backward pass (late dates);
  - derives each task's total float and critical flag;
  - rolls summary dates up from children to parents.
- **Domain calendar** used by the calculator: configurable rest weekdays
  plus holidays.
- **Legacy calendar** used by the parser: Sunday plus holidays.

Dates are whole day numbers (`Day`, an `int`; day 0 is a Thursday). The
legacy calendar also carries a minute of the day (`Stamp`). Holidays are a
set of days. Everything is pure functions over immutable datatypes except
Kahn's sort, which is a method with loop invariants. The modules follow the
source:

- `WorkCalendar`, `LegacyCalendar`
- `Dependencies`, `Tasks`
- `Graph`, `TopoSort`, `CpmPasses`, `Rollup`, `Cpm`
- `Records`, `TaskMapper`, `ProjectParser`
- `Numeric`, `NumericText`, `Seqs` and `Wrappers` are helpers.

The main results:

- **Whole calculation**: `Cpm.Calculate`, on every acyclic input, returns a
  map that satisfies `Cpm.Scheduled`. That predicate says:
  - the early dates solve the forward recurrence at every task;
  - the late dates solve the backward recurrence against the latest early
    finish;
  - floats and critical flags follow from the two;
  - every parent carries the span of its children;
  - every leaf keeps its own dates.
- **Kahn's sort**: it places every task exactly when the kept dependencies
  admit a topological order (a cycle rules one out),
  and it places each task after its predecessors.
- **Calendar round trips**: adding and then subtracting a duration or a lag
  returns the starting working day, and the reverse also holds.
- **Mapper and parser**: links round-trip through the mapper's type codes,
  and the parser's successor lists are exactly the converse of the
  predecessor links.

## Model

| member | source | states |
|---|---|---|
| WorkCalendar.WithHolidays | backend/src/Domain/Scheduling/Service/CalendarService.php:19-23 | a fresh domain calendar rests on Sunday (ISO 7) and on the given holidays, and on no other day |
| WorkCalendar.SkipForward | backend/src/Domain/Scheduling/Service/CalendarService.php:131-139 | the result is the first working day on or after the given day: it is working and every day before it from the start is not |
| WorkCalendar.SkipBackward | backend/src/Domain/Scheduling/Service/CalendarService.php:141-147 | the result is the last working day on or before the given day |
| WorkCalendar.NextWorkingDay | backend/src/Domain/Scheduling/Service/CalendarService.php:64-73 | the result is the first working day strictly after the given day |
| WorkCalendar.PreviousWorkingDay | backend/src/Domain/Scheduling/Service/CalendarService.php:75-84 | the result is the last working day strictly before the given day |
| WorkCalendar.AddLag | backend/src/Domain/Scheduling/Service/CalendarService.php:86-99 | a lag of at most zero days (minutes rounded up to 8-hour days) leaves the day alone; otherwise the result is the working day such that exactly that many working days lie after the start, up to and including the result |
| WorkCalendar.SubtractLag | backend/src/Domain/Scheduling/Service/CalendarService.php:101-111 | mirror image of AddLag: exactly that many working days lie from the result up to, but not including, the given day |
| WorkCalendar.AddDuration | backend/src/Domain/Scheduling/Service/CalendarService.php:32-62 | a duration of at most one day finishes on the start day. Otherwise the finish is the working day reached after (days - 1) further working days. From a working start, exactly the duration's day count of working days lies from start to finish inclusive |
| WorkCalendar.SubtractDuration | backend/src/Domain/Scheduling/Service/CalendarService.php:116-129 | mirror image of AddDuration: from a working finish, the start is the working day that makes the inclusive count equal to the duration's day count |
| WorkCalendar.PreviousAfterNext | backend/src/Domain/Scheduling/Service/CalendarService.php:64-84 | from a working day, going to the next working day and back returns it |
| WorkCalendar.NextAfterPrevious | backend/src/Domain/Scheduling/Service/CalendarService.php:64-84 | from a working day, going to the previous working day and forward returns it |
| WorkCalendar.AdvanceUnique | backend/src/Domain/Scheduling/Service/CalendarService.php:86-99 | the n-th working day after a day is the only working day with that count, so the day-by-day walk is fully specified by the count |
| WorkCalendar.RetreatUnique | backend/src/Domain/Scheduling/Service/CalendarService.php:101-111 | the n-th working day before a day is unique in the same way |
| WorkCalendar.RetreatAfterAdvance | backend/src/Domain/Scheduling/Service/CalendarService.php:86-111 | from a working day, walking n working days forward and then n back returns it |
| WorkCalendar.AdvanceAfterRetreat | backend/src/Domain/Scheduling/Service/CalendarService.php:86-111 | from a working day, walking n working days back and then n forward returns it |
| WorkCalendar.SubtractDurationAfterAddDuration | backend/src/Domain/Scheduling/Service/CalendarService.php:32-62 | the start of a task that finishes at AddDuration of a working start is that start again: the backward pass undoes the forward pass |
| WorkCalendar.AddDurationAfterSubtractDuration | backend/src/Domain/Scheduling/Service/CalendarService.php:116-129 | the finish computed from SubtractDuration of a working finish is that finish again |
| WorkCalendar.SubtractLagAfterAddLag | backend/src/Domain/Scheduling/Service/CalendarService.php:86-111 | from a working day, adding and then subtracting the same lag returns it |
| WorkCalendar.AddLagAfterSubtractLag | backend/src/Domain/Scheduling/Service/CalendarService.php:86-111 | from a working day, subtracting and then adding the same lag returns it |
| WorkCalendar.NoWorkingDayWithoutWorkingWeekday | backend/src/Domain/Scheduling/Service/CalendarService.php:185-198 | a calendar that rests on all seven weekdays has no working day at all, which is why the skip loops need a working weekday to stop |
| WorkCalendar.IsoToXmlDay | backend/src/Domain/Scheduling/Service/CalendarService.php:157-183 | the mapping from Project's day numbering (1 = Sunday) to ISO weekdays is onto, with the given inverse |
| WorkCalendar.SetWeekDays | backend/src/Domain/Scheduling/Service/CalendarService.php:157-183 | fails exactly when some day marked as rest is outside 1..7 (the source's unhandled match). Otherwise the rest weekdays are exactly the ISO images of the days marked false, and the holidays are untouched |
| LegacyCalendar.SundayCalendar | backend/src/Services/CalendarService.php:39-56 | the legacy calendar is a domain calendar that rests on Sunday and the holidays; it agrees with the legacy working-day test on every day |
| LegacyCalendar.AddWorkingDays | backend/src/Services/CalendarService.php:58-116 | the finish is at 17:00 on a working day no earlier than the start. From the start to the finish inclusive there are exactly max(1, floor(days)) working days. A duration under two days finishes on the first working day from the start |
| LegacyCalendar.AddDuration | backend/src/Services/CalendarService.php:117-123 | the same count with the duration given in minutes, floored to 8-hour days |
| LegacyCalendar.SubtractDuration | backend/src/Services/CalendarService.php:125-141 | the start is at 08:00. Up to one day it is the end's own day. Otherwise it is a working day with exactly days-1 working days from it up to, not including, the end's day |
| LegacyCalendar.SubtractAfterAdd | backend/src/Services/CalendarService.php:117-141 | subtracting a duration from the finish AddDuration computed lands on 08:00 of the first working day on or after the start |
| Dependencies.ValuesDistinct | backend/src/Domain/Scheduling/ValueObject/DependencyType.php:7-12 | the four dependency types have four distinct string values |
| Dependencies.FromMppType | backend/src/Domain/Scheduling/ValueObject/DependencyType.php:21-30 | code 2 is start-to-start, 3 finish-to-finish, 4 start-to-finish, and each only for that code; every other code, 1 included, is finish-to-start |
| Dependencies.FromMppTypeOfCode | backend/src/Domain/Scheduling/ValueObject/DependencyType.php:21-30 | every type has a code that FromMppType maps back to it |
| Dependencies.PlainDependency | backend/src/Domain/Scheduling/ValueObject/Dependency.php:9-15 | a dependency built with the constructor's defaults has zero lag and is not a percentage |
| Tasks.NewTask | backend/src/Domain/Scheduling/Entity/Task.php:11-25 | a task built with the constructor's defaults has no dates, zero float, is not critical, milestone or summary, has outline level 0 and no manual start |
| Tasks.Task.WithCalculation | backend/src/Domain/Scheduling/Entity/Task.php:30-53 | the new task has the given early and late dates, float and critical flag, and every other field of the original |
| Tasks.WithCalculationOverwrites | backend/src/Domain/Scheduling/Entity/Task.php:30-53 | a second calculation replaces the first completely |
| Tasks.WithCalculationDependsOnIdentity | backend/src/Domain/Scheduling/Entity/Task.php:30-53 | the result depends only on the task's non-calculated fields, never on earlier calculated values |
| Graph.IdSet | backend/src/Domain/Scheduling/Service/CPMCalculatorService.php:29-34 | an id is in the set exactly when some task has it |
| Graph.Kept | backend/src/Domain/Scheduling/Service/CPMCalculatorService.php:212-214 | a dependency survives exactly when both its ends are known tasks |
| Graph.From | backend/src/Domain/Scheduling/Service/CPMCalculatorService.php:197-226 | exactly the dependencies leaving a task |
| Graph.Into | backend/src/Domain/Scheduling/Service/CPMCalculatorService.php:197-226 | exactly the dependencies entering a task |
| Graph.BuildGraph | backend/src/Domain/Scheduling/Service/CPMCalculatorService.php:197-226 | the successor lists, predecessor lists and in-degrees describe exactly the dependencies whose ends are both known tasks, in input order |
| Graph.AddDependencyExtends | backend/src/Domain/Scheduling/Service/CPMCalculatorService.php:210-219 | adding one dependency to a graph that describes k describes k extended by it if both ends are known, and k otherwise |
| TopoSort.TopologicalSort | backend/src/Domain/Scheduling/Service/CPMCalculatorService.php:231-268 | the order is duplicate-free and lists only known tasks. It starts with the tasks of in-degree 0 in input order and puts every predecessor before its successor. Tasks leave in the order they were released (FIFO queue). It lists every task exactly when the kept dependencies admit a topological order (`Acyclic`); CycleIsNotAcyclic shows that a cycle rules such an order out |
| TopoSort.CycleIsNotAcyclic | backend/src/Domain/Scheduling/Service/CPMCalculatorService.php:258-265 | a graph with a dependency cycle has no topological order, so the sort necessarily drops the tasks on a cycle |
| TopoSort.PathMovesForwardInEveryOrder | backend/src/Domain/Scheduling/Service/CPMCalculatorService.php:243-256 | in every topological order, the start of a dependency path comes before its end |
| TopoSort.EdgeGoesForward | backend/src/Domain/Scheduling/Service/CPMCalculatorService.php:243-256 | in a topological order, every dependency's predecessor is placed before its successor |
| TopoSort.Seeds | backend/src/Domain/Scheduling/Service/CPMCalculatorService.php:237-241 | the initial queue holds exactly the tasks of in-degree 0, once each |
| TopoSort.KahnStep | backend/src/Domain/Scheduling/Service/CPMCalculatorService.php:243-256 | dequeuing one task and releasing its successors keeps the sort's invariant and places exactly one more task |
| TopoSort.ReleaseSuccessors | backend/src/Domain/Scheduling/Service/CPMCalculatorService.php:248-255 | decrementing the in-degree of every successor and enqueueing those that reach zero keeps the invariant and only appends to the queue |
| TopoSort.Complete | backend/src/Domain/Scheduling/Service/CPMCalculatorService.php:258-265 | once the queue is empty, every task has been placed exactly when the graph is acyclic |
| TopoSort.AcyclicLeavesNoneStuck | backend/src/Domain/Scheduling/Service/CPMCalculatorService.php:258-265 | in an acyclic graph, no task can be left waiting on an unplaced predecessor |
| CpmPasses.ActualLag | backend/src/Domain/Scheduling/Service/CPMCalculatorService.php:300-306 | a fixed lag is used as is. A percentage lag is that percentage of the predecessor's duration, truncated toward zero, with the sign of the product |
| CpmPasses.ForwardCandidate | backend/src/Domain/Scheduling/Service/CPMCalculatorService.php:308-338 | finish-to-start lands on the working day that is the (lag + 1)-th counted from the day after the predecessor's finish (the next working day for no positive lag). Start-to-start starts with the predecessor for no positive lag, otherwise on the lag-th working day after its start. Finish-to-finish and start-to-finish start on the lagged target for at most one day of work, otherwise on the working day that leaves duration - 1 working days before the target; a task started there finishes exactly on a working target |
| CpmPasses.StartFloor | backend/src/Domain/Scheduling/Service/CPMCalculatorService.php:278-287 | the floor is the project start or the manual start, whichever is later |
| CpmPasses.EarlyStartFrom | backend/src/Domain/Scheduling/Service/CPMCalculatorService.php:290-343 | the early start is the largest of the floor and every scheduled predecessor's candidate, and it equals one of them |
| CpmPasses.ForwardTask | backend/src/Domain/Scheduling/Service/CPMCalculatorService.php:270-361 | the task keeps its identity. Its early start is the maximum of the floor and the predecessor candidates. Its early finish is AddDuration of the early start. Its late dates are placeholders set to `now` |
| CpmPasses.ForwardFixpoint | backend/src/Domain/Scheduling/Service/CPMCalculatorService.php:270-361 | when every dependency goes forward in the order, each task's result equals its forward step read against the final map. The pass therefore solves the forward recurrence |
| CpmPasses.ProjectFinish | backend/src/Domain/Scheduling/Service/CPMCalculatorService.php:459-469 | the latest early finish among the dated tasks; none when no task is dated |
| CpmPasses.BackwardCandidate | backend/src/Domain/Scheduling/Service/CPMCalculatorService.php:404-427 | finish-to-start ends on the last working day before the successor's lagged late start, which makes lag + 1 working days up to the late start. Finish-to-finish ends with the successor for no positive lag, otherwise on the working day lag working days before its late finish. Start-to-start and start-to-finish finish on the lagged successor date for at most one day of work, otherwise on the working day duration - 1 working days after it; a task finishing there starts exactly on a working lagged date |
| CpmPasses.LateFinishFrom | backend/src/Domain/Scheduling/Service/CPMCalculatorService.php:377-436 | the late finish is the smallest candidate among the dated successors and equals one of them. With no dated successor there is none |
| CpmPasses.BackwardTask | backend/src/Domain/Scheduling/Service/CPMCalculatorService.php:363-457 | the task keeps its identity and early dates. Its late finish is the project finish when no successor is dated, and otherwise the minimum successor candidate. Its late start is SubtractDuration of the late finish |
| CpmPasses.BackwardFixpoint | backend/src/Domain/Scheduling/Service/CPMCalculatorService.php:363-457 | walking the order in reverse, each task's result equals its backward step read against the final map, so the pass solves the backward recurrence |
| CpmPasses.WithFloat | backend/src/Domain/Scheduling/Service/CPMCalculatorService.php:53-85 | float is (late start - early start) in minutes of calendar days. The task is critical exactly when the late start is not after the early start: the 15-minute tolerance is below one day |
| CpmPasses.FloatPass | backend/src/Domain/Scheduling/Service/CPMCalculatorService.php:53-85 | every task of the map gets its float and critical flag, and nothing else changes |
| Rollup.BuildHierarchyCorrect | backend/src/Domain/Scheduling/Service/CPMCalculatorService.php:115-137 | after the stack walk, the stack holds the last task seen at each outline level. Each task's children list is exactly the tasks whose nearest preceding task one level up is that task, in document order |
| Rollup.ChildrenOfMembers | backend/src/Domain/Scheduling/Service/CPMCalculatorService.php:115-137 | every child appears after its parent in the document, one outline level deeper |
| Rollup.OrderedTasks | backend/src/Domain/Scheduling/Service/CPMCalculatorService.php:108-113 | the original order, restricted to known tasks, each read from the map: the result is the per-identifier lookups (one task or none) joined in order, so repeated identifiers repeat their task |
| Rollup.ParentsOf | backend/src/Domain/Scheduling/Service/CPMCalculatorService.php:142-147 | exactly the tasks that have children |
| Rollup.SortByLevel | backend/src/Domain/Scheduling/Service/CPMCalculatorService.php:150 | the parents are a permutation of the input, with outline levels non-increasing (deepest first) |
| Rollup.ChildSpan | backend/src/Domain/Scheduling/Service/CPMCalculatorService.php:152-171 | the span's start is the earliest child early start and its finish the latest child early finish, each attained by some dated child. There is no span when no child is dated |
| Rollup.RollupStep | backend/src/Domain/Scheduling/Service/CPMCalculatorService.php:173-191 | a parent whose children are all undated is unchanged. Otherwise its early and late dates equal the children's span, its float is zero and its critical flag is kept |
| Rollup.RollupFixpoint | backend/src/Domain/Scheduling/Service/CPMCalculatorService.php:150-193 | when parents are processed deepest first, each parent's result equals its roll-up step read against the final map, so a parent sees its children's rolled-up dates |
| Rollup.RollupSummariesCorrect | backend/src/Domain/Scheduling/Service/CPMCalculatorService.php:104-195 | the whole roll-up gives every task with children exactly the span of its children's final dates, and leaves every other task untouched |
| Rollup.RolledUpKeeps | backend/src/Domain/Scheduling/Service/CPMCalculatorService.php:173-191 | the roll-up never changes a task's identity and never removes dates |
| Cpm.TaskMapOf | backend/src/Domain/Scheduling/Service/CPMCalculatorService.php:29-31 | the map is keyed by id over exactly the tasks' ids, and each entry is one of the input tasks |
| Cpm.TaskMapOfLast | backend/src/Domain/Scheduling/Service/CPMCalculatorService.php:29-31 | when ids repeat, the map keeps the last task with that id |
| Cpm.TaskOrder | backend/src/Domain/Scheduling/Service/CPMCalculatorService.php:32-34 | the order lists every task id exactly once |
| Cpm.ForwardSolved | backend/src/Domain/Scheduling/Service/CPMCalculatorService.php:46 | the forward pass over a topological order dates every task and satisfies the forward recurrence at every task |
| Cpm.BackwardSolved | backend/src/Domain/Scheduling/Service/CPMCalculatorService.php:49-50 | the backward pass over the same order satisfies the backward recurrence at every task and keeps identities |
| Cpm.NonSummariesScheduled | backend/src/Domain/Scheduling/Service/CPMCalculatorService.php:53-90 | every task without children ends with an early start no earlier than its floor and an early finish one duration later. Its late start is one duration before its late finish, and its float and critical flag follow from the late and early starts |
| Cpm.PassesSolved | backend/src/Domain/Scheduling/Service/CPMCalculatorService.php:39-50 | for any order in which the kept dependencies go forward, the two passes solve both recurrences against the latest early finish |
| Cpm.ScheduleFromCorrect | backend/src/Domain/Scheduling/Service/CPMCalculatorService.php:25-93 | the full pipeline of passes, float and roll-up over such an order yields a schedule of the input |
| Cpm.Calculate | backend/src/Domain/Scheduling/Service/CPMCalculatorService.php:25-93 | on an acyclic input, the result has one entry per task id. Each entry is dated and keeps its task's identity. It is a schedule: both recurrences, floats and roll-up hold, and every leaf task meets its duration and float laws |
| TaskMapper.ParseDuration | backend/src/Domain/Scheduling/Mapper/TaskDataMapper.php:160-182 | a number of days becomes days x 480 minutes, rounded to the nearest minute. A `PT…` period becomes days x 480 + hours x 60 + minutes (a day of the period counts as one 8-hour working day). Anything else, or a period that does not parse, gives 0. The minutes are within half a minute of days x 480, and an exact .5 tie goes away from zero, as PHP `round` does |
| TaskMapper.ParseDurationOfDays | backend/src/Domain/Scheduling/Mapper/TaskDataMapper.php:160-182 | a minute count written as days (minutes / 480) reads back as exactly that minute count |
| TaskMapper.LinkDependency | backend/src/Domain/Scheduling/Mapper/TaskDataMapper.php:56-97 | a link becomes a dependency from its predecessor to the owner, with FromMppType of its type. Lag format 57 makes it a percentage with the raw lag. Otherwise the lag is the raw tenths-of-minutes value truncated toward zero |
| TaskMapper.LinkRoundTrip | backend/src/Domain/Scheduling/Mapper/TaskDataMapper.php:56-97 | every dependency has a link that maps back to it exactly |
| TaskMapper.RecordTask | backend/src/Domain/Scheduling/Mapper/TaskDataMapper.php:25-52 | a record becomes an unscheduled task with its id, name, parsed duration and flags. Missing flags default to false and a missing level to 0. Its start date becomes the manual start |
| TaskMapper.ToDomain | backend/src/Domain/Scheduling/Mapper/TaskDataMapper.php:20-104 | one task per record, in order. The dependencies are the mapped links of each record joined in record order, links in order within each, so their count is the total number of links |
| TaskMapper.MergeRecord | backend/src/Domain/Scheduling/Mapper/TaskDataMapper.php:117-150 | every non-computed field is kept. The computed float and critical flag are written, and so are the four computed dates at midnight (all empty for an undated result). A dated result overwrites start and finish with its early dates at midnight. The duration becomes minutes / 480 days |
| TaskMapper.MergeCalculation | backend/src/Domain/Scheduling/Mapper/TaskDataMapper.php:109-153 | records with a computed counterpart (the last with that id) are merged with it and the rest are returned unchanged, in order |
| TaskMapper.MergeIdempotent | backend/src/Domain/Scheduling/Mapper/TaskDataMapper.php:109-153 | merging the same results twice equals merging them once |
| TaskMapper.MergeThenToDomain | backend/src/Domain/Scheduling/Mapper/TaskDataMapper.php:20-153 | reading merged records back gives each task its computed duration, and a dated task its early start as manual start |
| ProjectParser.ParserDuration | backend/src/ProjectParser.php:228-277 | a `PT…` period becomes its hours / 8 rounded to two places, halves away from zero (0 when it does not parse). Anything else is read as a number, other text through PHP's `(float)` cast, and scaled by its unit's days, rounded the same way for minutes and hours |
| ProjectParser.RoundedFormatIsRound2 | backend/src/ProjectParser.php:252-260 | for minutes and hours, the days equal PHP's `round(…, 2)` of the scaled number |
| ProjectParser.LeadingNumberText | backend/src/ProjectParser.php:250-263 | text with a number at its head, such as `8h`, in days format is that many days |
| Numeric.Round2 | backend/src/ProjectParser.php:239 | a whole number of hundredths within half a hundredth of the input, halves away from zero |
| Numeric.Round2Unique | backend/src/ProjectParser.php:239 | any value meeting that description is the rounded value |
| NumericText.ToFloat | backend/src/ProjectParser.php:250 | text without a number at its head (after an optional sign) reads as 0, and text without a leading minus reads as a non-negative value |
| NumericText.NatTextThenWord | backend/src/ProjectParser.php:250 | a decimal natural followed by text that cannot continue a number reads as that natural |
| NumericText.NatTextWithExponent | backend/src/ProjectParser.php:250 | a decimal natural with an exponent `e` k, followed by a non-digit, reads as the natural times 10^k |
| NumericText.NegatedText | backend/src/ProjectParser.php:250 | a leading minus negates the value of the rest |
| ProjectParser.SuccessorsOf | backend/src/ProjectParser.php:160-179 | one entry per link naming the task as predecessor, records in order and links in order within each, duplicates kept |
| ProjectParser.WholeDaysReadBack | backend/src/ProjectParser.php:228-277 | n whole days written by the parser are read by the mapper as n x 480 minutes |
| ProjectParser.MinutesReadBack | backend/src/ProjectParser.php:228-277 | a minute count written by the parser comes back through the mapper within 3 minutes, the cost of two-place rounding |
| ProjectParser.RecordLink | backend/src/ProjectParser.php:95-111 | a link with missing type, lag or format maps to a finish-to-start, zero-lag, non-percentage dependency respectively |
| ProjectParser.BareLinkIsPlain | backend/src/ProjectParser.php:95-111 | a link carrying only a predecessor id becomes a plain finish-to-start dependency |
| ProjectParser.ParseTask | backend/src/ProjectParser.php:60-155 | the record keeps id, name, level and links. A dated task with positive duration finishes at 17:00 on a working day, with max(1, floor(days)) working days from start to finish; otherwise the file's finish is kept. It is a milestone exactly when flagged so or when it starts and finishes on the same day |
| ProjectParser.ShortTaskIsMilestone | backend/src/ProjectParser.php:124-148 | a task shorter than two days starting on a working day becomes a milestone |
| ProjectParser.StartOnRestDayNotMilestone | backend/src/ProjectParser.php:124-148 | a task of positive duration starting on a rest day is a milestone only when flagged so |
| ProjectParser.Kept | backend/src/ProjectParser.php:60 | exactly the tasks other than an empty root (UID 0 with no name) are kept |
| ProjectParser.WithSuccessors | backend/src/ProjectParser.php:157-188 | every record keeps all its other fields. A record named as predecessor by some link gets the list of those links' entries as its successors; any other record keeps its list |
| ProjectParser.SuccessorsAreConverse | backend/src/ProjectParser.php:157-188 | a record's successor list holds exactly the entries given by the links of all records, a record's own self-links included, that name it as predecessor |
| ProjectParser.ParsedSuccessors | backend/src/ProjectParser.php:17-225 | the parsed project's successor lists are exactly the converse of its predecessor links |
| ProjectParser.EarliestStart | backend/src/ProjectParser.php:190-215 | the earliest start among the records, attained by one of them, and none when no record has a start |
| ProjectParser.LatestFinish | backend/src/ProjectParser.php:190-215 | the latest finish among the records, attained by one of them, and none when no record has a finish |
| ProjectParser.Parse | backend/src/ProjectParser.php:17-225 | one record per kept task, in order. The project start and finish are the records' earliest start and latest finish, falling back to the file's header dates |
| ProjectParser.ParsedBounds | backend/src/ProjectParser.php:190-215 | every parsed task lies within the project's start and finish |

## Left out

- Input and output are not modelled: reading the XML file, the holidays database, `ProjectStorage` and the HTTP front end. Holidays are a parameter, a set of day numbers.
- SimpleXML typing is abstracted: an XML task is a datatype whose fields are already numbers, strings or absent.
- The internals of `parseDate` (ProjectParser.php:312-324) are abstracted: dates arrive as day numbers.
- `parseCalendar` (ProjectParser.php:297-310) is not modelled. It only copies calendar data into the project record.
- Resources, available columns, the project name, percent complete, constraint fields and WBS are only copied by the source. They do not reach the schedule.
- Time zones and daylight saving are not modelled. All dates are UTC calendar days.
- The time of day is not modelled in the domain calendar. Its durations only move whole days, because the source rounds minutes up to 8-hour days.
- String formatting of dates is not modelled. Equivalently, a date is assumed to have a 4-digit year: the parser compares `Y-m-d H:i` strings, which order like (day, minute) pairs.
- Parsing ISO 8601 periods (`DateInterval`) is a library call and becomes a parameter function.
- Floating-point arithmetic is modelled with exact reals. This covers the parser's days, the mapper's `/ 480` and PHP `round`.
- NumericText.ToFloat: reads the decimal head of the text exactly. PHP's rounding to the nearest double, overflow to infinity for a huge exponent, and leading whitespace are not modelled; the parser trims node text before typing it (ProjectParser.php:79).
- `new DateTimeImmutable()` ("now") becomes a parameter `now`. It is what the passes write as placeholder dates and fall back to as the project finish.
- Cpm.Calculate: requires the kept dependencies to be acyclic. On a cycle the source leaves tasks off the sort, so they get no dates; its float step skips such a task (CPMCalculatorService.php:57) but then passes the null dates to `withCalculation`, whose date parameters are not nullable, so PHP raises a `TypeError`. That failure is not modelled.
- Cpm.Calculate: the project start is a whole day at midnight. The source copies the project start's time of day into the initial early start (CPMCalculatorService.php:278), while the calendar's walks reset their results to midnight. With a project start at 08:00, a task that no dependency or manual start moves keeps an 08:00 early start and a midnight late start, so the source's float is 480 minutes lower than the model's (-480 where the model has 0). The critical flag agrees unless the start time is later than 23:44: the source truncates the difference to whole minutes and tests `<= 15` (CPMCalculatorService.php:67-72), so a start after 23:44:00 leaves at most 959 seconds to the next midnight and marks the task critical where the model does not.
- TaskMapper.MergeRecord: writes every computed date at midnight. The source formats the date with its time, so an early start carrying the project start's time of day is written with that time.
- WorkCalendar.Valid is required by every calendar walk: at least one working weekday and finitely many holidays. With every weekday a rest day, the source's skip loop never ends (see WorkCalendar.NoWorkingDayWithoutWorkingWeekday).
- WorkCalendar.SetWeekDays: the source mutates the calendar before throwing on an invalid day number. The model returns an error and no partial calendar.
- Dates on a task are all present or all absent (`Option<Dates>`). The source keeps four nullable dates, but its passes always set them together.
- TopoSort.CycleIsNotAcyclic: only this direction is proved, that a cycle rules out a topological order. The converse is not stated as a separate lemma, though TopologicalSort's `|sorted| == |ids| <==> Acyclic` covers the sort's use of it.
- Rollup.SortByLevel: the ordering of parents with equal outline level is not stated. PHP 8's `usort` is stable, and so is the model's insertion sort, but no contract says so. The roll-up's result does not depend on it, because such parents never contain each other.
- CpmPasses.ForwardFixpoint and CpmPasses.BackwardFixpoint: they show the passes solve their recurrences. They do not state that the solution is unique.
- CpmPasses.WithFloat: the float is a multiple of 1440 minutes, since dates are whole days. The `<= 15` minute tolerance is therefore stated as "late start not after early start".
- ProjectParser.ParseTask: the source's guard against recomputing a summary's finish reads a key the record has not been given yet, so it never applies (ProjectParser.php:124-131). The model recomputes every dated task with positive duration, as the code does.
