/** `calculate`: the whole scheduling run, from the declared tasks and
    dependencies to the computed tasks keyed by identifier. */
module Cpm {
  import opened Wrappers
  import opened WorkCalendar
  import opened Dependencies
  import opened Tasks
  import opened Graph
  import opened TopoSort
  import opened CpmPasses
  import opened Rollup

  // ---------------------------------------------------------------------------
  // Step 0: keying the tasks

  /** The task map: a later task with an identifier already seen replaces the
      earlier one. */
  function TaskMapOf(tasks: seq<Task>): (m: TaskMap)
    ensures KeyedById(m)
    ensures m.Keys == IdSet(tasks)
    ensures forall id | id in m :: m[id] in tasks
    decreases |tasks|
  {
    if tasks == [] then map[]
    else
      var n := |tasks| - 1;
      var m := TaskMapOf(tasks[..n]);
      assert forall id :: id in IdSet(tasks) <==> id in IdSet(tasks[..n]) || id == tasks[n].id;
      assert forall t | t in tasks[..n] :: t in tasks;
      m[tasks[n].id := tasks[n]]
  }

  /** No task after position `i` carries the identifier `id`. */
  predicate NoneLater(tasks: seq<Task>, id: TaskId, i: nat) {
    forall j | i < j < |tasks| :: tasks[j].id != id
  }

  /** The task kept under an identifier is the last one declared with it. */
  lemma {:induction false} TaskMapOfLast(tasks: seq<Task>, id: TaskId)
    requires id in TaskMapOf(tasks)
    ensures exists i | 0 <= i < |tasks| :: tasks[i] == TaskMapOf(tasks)[id] && NoneLater(tasks, id, i)
    decreases |tasks|
  {
    var n := |tasks| - 1;
    var pre := tasks[..n];
    assert TaskMapOf(tasks) == TaskMapOf(pre)[tasks[n].id := tasks[n]];
    if tasks[n].id != id {
      assert id in TaskMapOf(pre);
      TaskMapOfLast(pre, id);
      var i :| 0 <= i < n && pre[i] == TaskMapOf(pre)[id] && NoneLater(pre, id, i);
      assert tasks[i] == TaskMapOf(tasks)[id];
      NoneLaterSnoc(tasks, id, i);
    } else {
      assert tasks[n] == TaskMapOf(tasks)[id];
      assert NoneLater(tasks, id, n);
    }
  }

  lemma NoneLaterSnoc(tasks: seq<Task>, id: TaskId, i: nat)
    requires 0 <= i < |tasks| - 1 && tasks[|tasks| - 1].id != id
    requires NoneLater(tasks[..|tasks| - 1], id, i)
    ensures NoneLater(tasks, id, i)
  {
    var n := |tasks| - 1;
    forall j | i < j < |tasks|
      ensures tasks[j].id != id
    {
      if j < n {
        assert tasks[..n][j] == tasks[j];
      }
    }
  }

  /** The key order of an array filled in declaration order: every identifier
      once, where it first appears. */
  function FirstOccurrences(xs: seq<TaskId>): (ys: seq<TaskId>)
    ensures Distinct(ys)
    ensures forall x :: x in ys <==> x in xs
    decreases |xs|
  {
    if xs == [] then []
    else
      var n := |xs| - 1;
      var ys := FirstOccurrences(xs[..n]);
      assert forall x :: x in xs <==> x in xs[..n] || x == xs[n];
      if xs[n] in xs[..n] then ys else ys + [xs[n]]
  }

  /** The task map's keys in order: the order in which the in-degree map is
      filled and hence the order of the initial queue. */
  function TaskOrder(tasks: seq<Task>): (ids: seq<TaskId>)
    ensures Distinct(ids)
    ensures Elems(ids) == IdSet(tasks)
  {
    var ids := FirstOccurrences(Ids(tasks));
    assert forall x :: x in Ids(tasks) <==> x in IdSet(tasks);
    ids
  }

  /** The document the roll-up reads: every declared task in declaration order,
      as the task map holds it. */
  ghost function Document(tasks: seq<Task>): seq<Task> {
    OrderedTasks(Ids(tasks), TaskMapOf(tasks))
  }

  /** A summary in the outline: some later task names it as its parent. */
  ghost predicate HasChildren(tasks: seq<Task>, id: TaskId) {
    ChildrenOf(Document(tasks), id) != []
  }

  // ---------------------------------------------------------------------------
  // The schedule, declaratively

  /** `f` satisfies the forward recurrence at every task of `s`. */
  ghost predicate ForwardSolution(cal: Calendar, s: seq<TaskId>, m: TaskMap, k: seq<Dependency>,
                                  projectStart: Day, now: Day, f: TaskMap)
    requires Valid(cal)
  {
    && f.Keys == m.Keys
    && (forall d | d in k :: d.predecessorId in f)
    && (forall id | id in s :: id in m && f[id] == ForwardTask(cal, m[id], Into(k, id), f, projectStart, now))
  }

  /** `b` satisfies the backward recurrence, against `finish`, at every task of
      `s`, each starting from its forward result in `f`. */
  ghost predicate BackwardSolution(cal: Calendar, s: seq<TaskId>, f: TaskMap, k: seq<Dependency>,
                                   finish: Day, b: TaskMap)
    requires Valid(cal)
  {
    && b.Keys == f.Keys
    && (forall d | d in k :: d.successorId in b)
    && (forall id | id in s ::
          id in f && f[id].dates.Some? && b[id] == BackwardTask(cal, f[id], From(k, id), b, finish))
  }

  /** `r` is a schedule of the input: the forward recurrence holds for some
      dates, the backward recurrence holds for some late dates against the
      latest early finish, the floats follow, and the summaries are rolled up
      over the result. */
  ghost predicate IsSchedule(cal: Calendar, tasks: seq<Task>, deps: seq<Dependency>,
                             projectStart: Day, now: Day, r: TaskMap)
    requires Valid(cal)
  {
    exists f: TaskMap, b: TaskMap ::
      ScheduleWitness(cal, tasks, deps, projectStart, now, f, b, r)
  }

  ghost predicate ScheduleWitness(cal: Calendar, tasks: seq<Task>, deps: seq<Dependency>,
                                  projectStart: Day, now: Day, f: TaskMap, b: TaskMap, r: TaskMap)
    requires Valid(cal)
  {
    var m := TaskMapOf(tasks);
    var ids := TaskOrder(tasks);
    var k := Kept(deps, IdSet(tasks));
    && ForwardSolution(cal, ids, m, k, projectStart, now, f)
    && BackwardSolution(cal, ids, f, k, ProjectFinish(ids, f).GetOr(now), b)
    && KeyedById(b)
    && (forall id | id in b :: b[id].dates.Some?)
    && RolledUp(OrderedTasks(Ids(tasks), FloatPass(b)), FloatPass(b), r)
  }

  // ---------------------------------------------------------------------------
  // The passes meet the declarative schedule

  /** The forward pass over a topological order solves the forward recurrence
      at every task. */
  lemma ForwardSolved(cal: Calendar, s: seq<TaskId>, ids: seq<TaskId>, m: TaskMap, k: seq<Dependency>,
                      projectStart: Day, now: Day)
    requires Valid(cal)
    requires forall id :: id in s <==> id in m
    requires forall id | id in ids :: id in m
    requires forall d | d in k :: d.predecessorId in m
    requires Distinct(s) && EdgesForward(s, k)
    ensures var f := ForwardPass(cal, s, m, k, projectStart, now);
      && ForwardSolution(cal, ids, m, k, projectStart, now, f)
      && forall id | id in m :: f[id].dates.Some? && f[id].Identity() == m[id].Identity()
  {
    ForwardFixpoint(cal, s, m, k, projectStart, now);
  }

  /** The backward pass over a topological order solves the backward
      recurrence at every task. */
  lemma BackwardSolved(cal: Calendar, s: seq<TaskId>, ids: seq<TaskId>, f: TaskMap, k: seq<Dependency>, finish: Day)
    requires Valid(cal)
    requires forall id :: id in s <==> id in f
    requires forall id | id in f :: f[id].dates.Some?
    requires forall id | id in ids :: id in f
    requires forall d | d in k :: d.successorId in f
    requires Distinct(s) && EdgesForward(s, k)
    ensures var b := BackwardPass(cal, s, f, k, finish);
      && BackwardSolution(cal, ids, f, k, finish, b)
      && forall id | id in f :: b[id].dates.Some? && b[id].Identity() == f[id].Identity()
  {
    BackwardFixpoint(cal, s, f, k, finish);
  }

  /** What a task that is no summary ends up with: its forward step, then its
      backward step, then its float. */
  lemma TaskFacts(cal: Calendar, t: Task, preds: seq<Dependency>, succs: seq<Dependency>,
                  fm: TaskMap, bm: TaskMap, projectStart: Day, now: Day, finish: Day, ft: Task, bt: Task, rt: Task)
    requires Valid(cal)
    requires forall d | d in preds :: d.predecessorId in fm
    requires forall d | d in succs :: d.successorId in bm
    requires ft == ForwardTask(cal, t, preds, fm, projectStart, now)
    requires bt == BackwardTask(cal, ft, succs, bm, finish)
    requires rt == WithFloat(bt)
    ensures rt.dates.Some?
    ensures var e := rt.dates.value;
      && rt.Identity() == t.Identity()
      && StartFloor(t, projectStart) <= e.earlyStart
      && e.earlyFinish == AddDuration(cal, e.earlyStart, rt.durationMinutes)
      && e.lateStart == SubtractDuration(cal, e.lateFinish, rt.durationMinutes)
      && rt.totalFloat == FloatOf(e)
      && (rt.isCritical <==> e.lateStart <= e.earlyStart)
  {
    var fe := ft.dates.value;
    assert StartFloor(t, projectStart) <= fe.earlyStart;
    assert fe.earlyFinish == AddDuration(cal, fe.earlyStart, t.durationMinutes);
    var be := bt.dates.value;
    assert be.earlyStart == fe.earlyStart && be.earlyFinish == fe.earlyFinish;
    assert be.lateStart == SubtractDuration(cal, be.lateFinish, ft.durationMinutes);
    SameDuration(t, ft, bt, rt);
    assert rt.dates == bt.dates;
  }

  /** Tasks with one identity have one duration. */
  lemma SameDuration(t: Task, ft: Task, bt: Task, rt: Task)
    requires ft.Identity() == t.Identity() && bt.Identity() == ft.Identity() && rt.Identity() == bt.Identity()
    ensures rt.durationMinutes == bt.durationMinutes == ft.durationMinutes == t.durationMinutes
  {
    assert rt.Identity().durationMinutes == rt.durationMinutes;
    assert bt.Identity().durationMinutes == bt.durationMinutes;
    assert ft.Identity().durationMinutes == ft.durationMinutes;
    assert t.Identity().durationMinutes == t.durationMinutes;
  }

  /** Every task that is no summary holds its forward, backward and float
      steps in any schedule. */
  lemma NonSummariesScheduled(cal: Calendar, tasks: seq<Task>, k: seq<Dependency>, projectStart: Day, now: Day,
                              finish: Day, f: TaskMap, b: TaskMap, r: TaskMap)
    requires Valid(cal)
    requires ForwardSolution(cal, TaskOrder(tasks), TaskMapOf(tasks), k, projectStart, now, f)
    requires BackwardSolution(cal, TaskOrder(tasks), f, k, finish, b)
    requires KeyedById(b) && forall id | id in b :: b[id].dates.Some? && b[id].Identity() == TaskMapOf(tasks)[id].Identity()
    requires RolledUp(OrderedTasks(Ids(tasks), FloatPass(b)), FloatPass(b), r)
    requires forall id | id in r :: r[id].dates.Some?
    ensures forall id | id in r && !HasChildren(tasks, id) ::
      var e := r[id].dates.value;
      && StartFloor(TaskMapOf(tasks)[id], projectStart) <= e.earlyStart
      && e.earlyFinish == AddDuration(cal, e.earlyStart, r[id].durationMinutes)
      && e.lateStart == SubtractDuration(cal, e.lateFinish, r[id].durationMinutes)
      && r[id].totalFloat == FloatOf(e)
      && (r[id].isCritical <==> e.lateStart <= e.earlyStart)
  {
    var m := TaskMapOf(tasks);
    var fl := FloatPass(b);
    OrderedTasksSameOutline(Ids(tasks), m, fl);
    forall id | id in r && !HasChildren(tasks, id)
      ensures var e := r[id].dates.value;
        && StartFloor(m[id], projectStart) <= e.earlyStart
        && e.earlyFinish == AddDuration(cal, e.earlyStart, r[id].durationMinutes)
        && e.lateStart == SubtractDuration(cal, e.lateFinish, r[id].durationMinutes)
        && r[id].totalFloat == FloatOf(e)
        && (r[id].isCritical <==> e.lateStart <= e.earlyStart)
    {
      ChildrenOfSameOutline(Document(tasks), OrderedTasks(Ids(tasks), fl), id);
      assert r[id] == fl[id] == WithFloat(b[id]);
      assert id in TaskOrder(tasks) by {
        assert id in Elems(TaskOrder(tasks));
      }
      assert f[id] == ForwardTask(cal, m[id], Into(k, id), f, projectStart, now);
      assert b[id] == BackwardTask(cal, f[id], From(k, id), b, finish);
      TaskFacts(cal, m[id], Into(k, id), From(k, id), f, b, projectStart, now, finish, f[id], b[id], r[id]);
    }
  }

  // ---------------------------------------------------------------------------
  // The run

  /** Steps 3 to 6 of `calculate` over a topological order `sorted`. */
  function ScheduleFrom(cal: Calendar, tasks: seq<Task>, deps: seq<Dependency>, sorted: seq<TaskId>,
                        projectStart: Day, now: Day): (r: TaskMap)
    requires Valid(cal)
    requires forall id :: id in sorted <==> id in IdSet(tasks)
    ensures r.Keys == IdSet(tasks)
  {
    var b := SolvePasses(cal, tasks, deps, sorted, projectStart, now).backward;
    assert KeyedById(b);
    RollupSummaries(FloatPass(b), Ids(tasks))
  }

  /** The maps after the forward pass and after the backward pass, and the
      project finish the backward pass starts from. */
  datatype Passes = Passes(forward: TaskMap, finish: Day, backward: TaskMap)

  /** Steps 3 to 5 of `calculate`: the forward pass, the project finish (`now`
      when no task is dated) and the backward pass. */
  function SolvePasses(cal: Calendar, tasks: seq<Task>, deps: seq<Dependency>, sorted: seq<TaskId>,
                       projectStart: Day, now: Day): (p: Passes)
    requires Valid(cal)
    requires forall id :: id in sorted <==> id in IdSet(tasks)
    ensures p.forward.Keys == IdSet(tasks) && p.backward.Keys == IdSet(tasks)
  {
    var m := TaskMapOf(tasks);
    var k := Kept(deps, IdSet(tasks));
    var f := ForwardPass(cal, sorted, m, k, projectStart, now);
    var finish := ProjectFinish(TaskOrder(tasks), f).GetOr(now);
    Passes(f, finish, BackwardPass(cal, sorted, f, k, finish))
  }

  /** The forward and backward passes over a topological order solve their
      recurrences, keep every task's identity and date every task. */
  lemma PassesSolved(cal: Calendar, tasks: seq<Task>, deps: seq<Dependency>, sorted: seq<TaskId>,
                     projectStart: Day, now: Day)
    requires Valid(cal)
    requires forall id :: id in sorted <==> id in IdSet(tasks)
    requires Distinct(sorted) && EdgesForward(sorted, Kept(deps, IdSet(tasks)))
    ensures var p := SolvePasses(cal, tasks, deps, sorted, projectStart, now);
      && ForwardSolution(cal, TaskOrder(tasks), TaskMapOf(tasks), Kept(deps, IdSet(tasks)), projectStart, now, p.forward)
      && BackwardSolution(cal, TaskOrder(tasks), p.forward, Kept(deps, IdSet(tasks)), p.finish, p.backward)
      && KeyedById(p.backward)
      && forall id | id in p.backward ::
           p.backward[id].dates.Some? && p.backward[id].Identity() == TaskMapOf(tasks)[id].Identity()
  {
    var m := TaskMapOf(tasks);
    var ids := TaskOrder(tasks);
    var k := Kept(deps, IdSet(tasks));
    assert forall id | id in ids :: id in m by {
      assert forall id | id in ids :: id in Elems(ids);
    }
    var f := ForwardPass(cal, sorted, m, k, projectStart, now);
    ForwardSolved(cal, sorted, ids, m, k, projectStart, now);
    var finish := ProjectFinish(ids, f).GetOr(now);
    BackwardSolved(cal, sorted, ids, f, k, finish);
  }

  /** A schedule of the input in full: every task kept and dated, the
      recurrences and the roll-up hold, and every task that is no summary
      starts no earlier than its floor, finishes its duration after its start,
      and carries the float between its late and early start. */
  ghost predicate Scheduled(cal: Calendar, tasks: seq<Task>, deps: seq<Dependency>,
                            projectStart: Day, now: Day, r: TaskMap)
    requires Valid(cal)
  {
    && r.Keys == IdSet(tasks)
    && (forall id | id in r :: r[id].dates.Some? && r[id].Identity() == TaskMapOf(tasks)[id].Identity())
    && IsSchedule(cal, tasks, deps, projectStart, now, r)
    && forall id | id in r && !HasChildren(tasks, id) ::
      var e := r[id].dates.value;
      && StartFloor(TaskMapOf(tasks)[id], projectStart) <= e.earlyStart
      && e.earlyFinish == AddDuration(cal, e.earlyStart, r[id].durationMinutes)
      && e.lateStart == SubtractDuration(cal, e.lateFinish, r[id].durationMinutes)
      && r[id].totalFloat == FloatOf(e)
      && (r[id].isCritical <==> e.lateStart <= e.earlyStart)
  }

  /** Rolling up the floats of solved passes gives a schedule. */
  lemma RollupScheduled(cal: Calendar, tasks: seq<Task>, deps: seq<Dependency>, projectStart: Day, now: Day,
                        f: TaskMap, b: TaskMap)
    requires Valid(cal)
    requires ForwardSolution(cal, TaskOrder(tasks), TaskMapOf(tasks), Kept(deps, IdSet(tasks)), projectStart, now, f)
    requires BackwardSolution(cal, TaskOrder(tasks), f, Kept(deps, IdSet(tasks)),
                              ProjectFinish(TaskOrder(tasks), f).GetOr(now), b)
    requires KeyedById(b)
    requires forall id | id in b :: b[id].dates.Some? && b[id].Identity() == TaskMapOf(tasks)[id].Identity()
    ensures Scheduled(cal, tasks, deps, projectStart, now, RollupSummaries(FloatPass(b), Ids(tasks)))
  {
    var fl := FloatPass(b);
    var r := RollupSummaries(fl, Ids(tasks));
    RollupSummariesCorrect(fl, Ids(tasks));
    RolledUpKeeps(OrderedTasks(Ids(tasks), fl), fl, r);
    assert r.Keys == IdSet(tasks);
    forall id | id in r
      ensures r[id].dates.Some? && r[id].Identity() == TaskMapOf(tasks)[id].Identity()
    {
      assert fl[id] == WithFloat(b[id]);
    }
    assert ScheduleWitness(cal, tasks, deps, projectStart, now, f, b, r);
    NonSummariesScheduled(cal, tasks, Kept(deps, IdSet(tasks)), projectStart, now,
                          ProjectFinish(TaskOrder(tasks), f).GetOr(now), f, b, r);
  }

  /** Over any topological order the composed steps give a schedule. */
  lemma ScheduleFromCorrect(cal: Calendar, tasks: seq<Task>, deps: seq<Dependency>, sorted: seq<TaskId>,
                            projectStart: Day, now: Day)
    requires Valid(cal)
    requires forall id :: id in sorted <==> id in IdSet(tasks)
    requires Distinct(sorted) && EdgesForward(sorted, Kept(deps, IdSet(tasks)))
    ensures Scheduled(cal, tasks, deps, projectStart, now, ScheduleFrom(cal, tasks, deps, sorted, projectStart, now))
  {
    var p := SolvePasses(cal, tasks, deps, sorted, projectStart, now);
    PassesSolved(cal, tasks, deps, sorted, projectStart, now);
    assert p.finish == ProjectFinish(TaskOrder(tasks), p.forward).GetOr(now);
    RollupScheduled(cal, tasks, deps, projectStart, now, p.forward, p.backward);
  }

  /** `calculate`. A dependency cycle leaves some task without dates, and the
      float step then fails on it, so the input must be acyclic. */
  method Calculate(cal: Calendar, tasks: seq<Task>, deps: seq<Dependency>, projectStart: Day, now: Day)
    returns (r: TaskMap)
    requires Valid(cal)
    requires Acyclic(TaskOrder(tasks), Kept(deps, IdSet(tasks)))
    ensures r.Keys == IdSet(tasks)
    ensures Scheduled(cal, tasks, deps, projectStart, now, r)
  {
    var m := TaskMapOf(tasks);
    var ids := TaskOrder(tasks);
    var k := Kept(deps, IdSet(tasks));
    var g := BuildGraph(tasks, deps);
    var sorted := TopologicalSort(ids, g, k);
    DistinctSubsetCard(sorted, ids);
    TopologicalEdgesForward(sorted, k);
    assert forall id :: id in sorted <==> id in IdSet(tasks);
    r := ScheduleFrom(cal, tasks, deps, sorted, projectStart, now);
    ScheduleFromCorrect(cal, tasks, deps, sorted, projectStart, now);
  }
}
