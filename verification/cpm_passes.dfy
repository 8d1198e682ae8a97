/** The three passes of the critical-path calculation over a task map keyed by
    identifier: the forward pass (early dates, in topological order), the
    project finish, the backward pass (late dates, in reverse topological
    order), and total float with criticality. */
module CpmPasses {
  import opened Wrappers
  import opened Numeric
  import opened WorkCalendar
  import opened Dependencies
  import opened Tasks
  import opened Graph
  import opened TopoSort

  /** Every kept edge of `k` between two tasks of `s` points forward in `s`. */
  ghost predicate EdgesForward(s: seq<TaskId>, k: seq<Dependency>) {
    forall i, j, d | 0 <= i < |s| && 0 <= j < |s| && d in k && d.predecessorId == s[i] && d.successorId == s[j] :: i < j
  }

  lemma TopologicalEdgesForward(s: seq<TaskId>, k: seq<Dependency>)
    requires Distinct(s) && PredecessorsFirst(s, k)
    ensures EdgesForward(s, k)
  {
    forall i, j, d | 0 <= i < |s| && 0 <= j < |s| && d in k && d.predecessorId == s[i] && d.successorId == s[j]
      ensures i < j
    {
      assert d.predecessorId in s[..j];
      var a :| 0 <= a < j && s[..j][a] == s[i];
      assert s[a] == s[i];
    }
  }

  /** Dropping the first task keeps the order, and no task of the order has
      an edge into the first one. */
  lemma EdgesForwardTail(s: seq<TaskId>, k: seq<Dependency>)
    requires s != [] && Distinct(s) && EdgesForward(s, k)
    ensures Distinct(s[1..]) && EdgesForward(s[1..], k)
    ensures s[0] !in s[1..]
    ensures forall d | d in k && d.predecessorId in s :: d.successorId != s[0]
  {
    var t := s[1..];
    forall i, j, d | 0 <= i < |t| && 0 <= j < |t| && d in k && d.predecessorId == t[i] && d.successorId == t[j]
      ensures i < j
    {
      assert s[i + 1] == t[i] && s[j + 1] == t[j];
    }
    forall d | d in k && d.predecessorId in s
      ensures d.successorId != s[0]
    {
      var i :| 0 <= i < |s| && s[i] == d.predecessorId;
    }
  }

  /** Dropping the last task keeps the order, and the last task has no edge
      into any task of the order. */
  lemma EdgesForwardInit(s: seq<TaskId>, k: seq<Dependency>)
    requires s != [] && Distinct(s) && EdgesForward(s, k)
    ensures Distinct(s[..|s| - 1]) && EdgesForward(s[..|s| - 1], k)
    ensures s[|s| - 1] !in s[..|s| - 1]
    ensures forall d | d in k && d.successorId in s :: d.predecessorId != s[|s| - 1]
  {
    var t := s[..|s| - 1];
    forall i, j, d | 0 <= i < |t| && 0 <= j < |t| && d in k && d.predecessorId == t[i] && d.successorId == t[j]
      ensures i < j
    {
      assert s[i] == t[i] && s[j] == t[j];
    }
    forall d | d in k && d.successorId in s
      ensures d.predecessorId != s[|s| - 1]
    {
      var j :| 0 <= j < |s| && s[j] == d.successorId;
    }
  }

  // ---------------------------------------------------------------------------
  // Lags

  /** The lag of `d` in minutes: its own value, or for a percentage lag that
      share of `baseMinutes`, truncated toward zero as PHP's `(int)` cast does. */
  function ActualLag(d: Dependency, baseMinutes: int): (m: int)
    ensures !d.isPercentage ==> m == d.lag
    ensures d.isPercentage ==> Abs(m) * 100 <= Abs(baseMinutes * d.lag) < (Abs(m) + 1) * 100
    ensures d.isPercentage ==> (m > 0 ==> baseMinutes * d.lag > 0) && (m < 0 ==> baseMinutes * d.lag < 0)
  {
    if d.isPercentage then TruncDiv(baseMinutes * d.lag, 100) else d.lag
  }

  // ---------------------------------------------------------------------------
  // Forward pass

  /** The earliest start that one dependency allows its successor, given the
      predecessor's early dates. The lag is read against the predecessor's
      duration. Finish-to-start lands on the (lag + 1)-th working day after
      the predecessor's finish, start-to-start on the lag-th working day after
      its start; the two finish-based types start one duration before the
      lagged target. */
  function ForwardCandidate(cal: Calendar, d: Dependency, pred: Task, duration: int): (c: Day)
    requires Valid(cal) && pred.dates.Some?
    ensures var lag := ActualLag(d, pred.durationMinutes);
      var p := pred.dates.value;
      match d.depType
      case FinishToStart =>
        && p.earlyFinish < c && IsWorkingDay(cal, c)
        && CountWorking(cal, p.earlyFinish + 1, c + 1) == Max(DaysOf(lag), 0) + 1
        && (DaysOf(lag) <= 0 ==> c == NextWorkingDay(cal, p.earlyFinish))
      case StartToStart =>
        && (DaysOf(lag) <= 0 ==> c == p.earlyStart)
        && (DaysOf(lag) > 0 ==>
              p.earlyStart < c && IsWorkingDay(cal, c) && CountWorking(cal, p.earlyStart + 1, c + 1) == DaysOf(lag))
      case FinishToFinish =>
        var target := AddLag(cal, p.earlyFinish, lag);
        StartsBefore(cal, c, target, duration)
      case StartToFinish =>
        var target := AddLag(cal, p.earlyStart, lag);
        StartsBefore(cal, c, target, duration)
  {
    var lag := ActualLag(d, pred.durationMinutes);
    var p := pred.dates.value;
    match d.depType
    case FinishToStart =>
      var base := NextWorkingDay(cal, p.earlyFinish);
      FollowingCount(cal, p.earlyFinish, base, lag);
      AddLag(cal, base, lag)
    case StartToStart => AddLag(cal, p.earlyStart, lag)
    case FinishToFinish =>
      var target := AddLag(cal, p.earlyFinish, lag);
      FinishOnTarget(cal, target, duration);
      SubtractDuration(cal, target, duration)
    case StartToFinish =>
      var target := AddLag(cal, p.earlyStart, lag);
      FinishOnTarget(cal, target, duration);
      SubtractDuration(cal, target, duration)
  }

  /** `start` is where a task of `duration` must start to finish on `target`:
      the target itself for at most one day of work, otherwise the working day
      that leaves `duration` working days up to the target inclusive (or, when
      the target is a rest day, `duration - 1` before it). A task started there
      finishes exactly on a working target. */
  ghost predicate StartsBefore(cal: Calendar, start: Day, target: Day, duration: int)
    requires Valid(cal)
  {
    && (DaysOf(duration) <= 1 ==> start == target)
    && (DaysOf(duration) >= 2 ==>
          start < target && IsWorkingDay(cal, start) && CountWorking(cal, start, target) == DaysOf(duration) - 1)
    && (IsWorkingDay(cal, target) ==> AddDuration(cal, start, duration) == target)
  }

  /** Counting from the day after `d`, the next working day is the first, and
      `AddLag` from there adds the lag's days. */
  lemma FollowingCount(cal: Calendar, d: Day, base: Day, lag: int)
    requires Valid(cal) && base == NextWorkingDay(cal, d)
    ensures CountWorking(cal, d + 1, AddLag(cal, base, lag) + 1) == Max(DaysOf(lag), 0) + 1
  {
    var c := AddLag(cal, base, lag);
    CountStep(cal, d, base);
    CountSplit(cal, d + 1, base + 1, c + 1);
  }

  /** Starting a task at `SubtractDuration(target)` makes it finish on
      `target` when `target` is a working day. */
  lemma FinishOnTarget(cal: Calendar, target: Day, duration: int)
    requires Valid(cal)
    ensures IsWorkingDay(cal, target) ==>
      AddDuration(cal, SubtractDuration(cal, target, duration), duration) == target
  {
    if IsWorkingDay(cal, target) {
      AddDurationAfterSubtractDuration(cal, target, duration);
    }
  }

  /** The loop over a task's incoming dependencies: starting from `floor`, each
      predecessor that already has dates may push the start later. The result
      is the latest of `floor` and those candidates. */
  function EarlyStartFrom(cal: Calendar, preds: seq<Dependency>, m: TaskMap, duration: int, floor: Day): (es: Day)
    requires Valid(cal)
    requires forall d | d in preds :: d.predecessorId in m
    ensures floor <= es
    ensures forall d | d in preds && m[d.predecessorId].dates.Some? ::
      ForwardCandidate(cal, d, m[d.predecessorId], duration) <= es
    ensures es == floor || exists d | d in preds && m[d.predecessorId].dates.Some? ::
      es == ForwardCandidate(cal, d, m[d.predecessorId], duration)
    decreases |preds|
  {
    if preds == [] then floor
    else
      var n := |preds| - 1;
      var d := preds[n];
      assert forall x | x in preds[..n] :: x in preds;
      assert forall x | x in preds :: x in preds[..n] || x == d;
      var es := EarlyStartFrom(cal, preds[..n], m, duration, floor);
      var pred := m[d.predecessorId];
      if pred.dates.Some? && ForwardCandidate(cal, d, pred, duration) > es
      then ForwardCandidate(cal, d, pred, duration)
      else es
  }

  /** The start no task may precede: the project start, or the task's manual
      start when that is later. */
  function StartFloor(t: Task, projectStart: Day): (floor: Day)
    ensures projectStart <= floor
    ensures t.manualStart.Some? ==> t.manualStart.value <= floor
    ensures floor == projectStart || t.manualStart == Some(floor)
  {
    if t.manualStart.Some? && t.manualStart.value > projectStart then t.manualStart.value else projectStart
  }

  /** One step of the forward pass: the early start is the latest of the floor
      and every dated predecessor's candidate, the early finish follows from the
      duration, and the late dates hold the placeholder `now`. */
  function ForwardTask(cal: Calendar, t: Task, preds: seq<Dependency>, m: TaskMap, projectStart: Day, now: Day): (r: Task)
    requires Valid(cal)
    requires forall d | d in preds :: d.predecessorId in m
    ensures r.Identity() == t.Identity() && r.dates.Some?
    ensures var e := r.dates.value;
      && StartFloor(t, projectStart) <= e.earlyStart
      && (forall d | d in preds && m[d.predecessorId].dates.Some? ::
            ForwardCandidate(cal, d, m[d.predecessorId], t.durationMinutes) <= e.earlyStart)
      && (e.earlyStart == StartFloor(t, projectStart)
          || exists d | d in preds && m[d.predecessorId].dates.Some? ::
               e.earlyStart == ForwardCandidate(cal, d, m[d.predecessorId], t.durationMinutes))
      && e.earlyFinish == AddDuration(cal, e.earlyStart, t.durationMinutes)
      && e.lateStart == now && e.lateFinish == now
    ensures r.totalFloat == 0 && !r.isCritical
  {
    var es := EarlyStartFrom(cal, preds, m, t.durationMinutes, StartFloor(t, projectStart));
    t.WithCalculation(es, AddDuration(cal, es, t.durationMinutes), now, now, 0, false)
  }

  /** One step of a pass: the last task of `s` gets dated and keeps its
      identity; every other task is as before. */
  lemma PassStep(m: TaskMap, r: TaskMap, s: seq<TaskId>, t: Task)
    requires s != [] && r.Keys == m.Keys && s[|s| - 1] in m && forall id | id in s :: id in m
    requires forall id | id in m && id !in s[..|s| - 1] :: r[id] == m[id]
    requires forall id | id in s[..|s| - 1] :: r[id].dates.Some? && r[id].Identity() == m[id].Identity()
    requires t.dates.Some? && t.Identity() == r[s[|s| - 1]].Identity()
    ensures var r' := r[s[|s| - 1] := t];
      && r'.Keys == m.Keys
      && (forall id | id in m && id !in s :: r'[id] == m[id])
      && (forall id | id in s :: r'[id].dates.Some? && r'[id].Identity() == m[id].Identity())
  {
    assert forall id | id in s :: id in s[..|s| - 1] || id == s[|s| - 1];
    assert forall id | id in s[..|s| - 1] :: id in s;
  }

  /** `forwardPass`: visits `s` in order, replacing each task by its forward
      step computed against the map as it stands. */
  function ForwardPass(cal: Calendar, s: seq<TaskId>, m: TaskMap, k: seq<Dependency>, projectStart: Day, now: Day): (r: TaskMap)
    requires Valid(cal)
    requires forall id | id in s :: id in m
    requires forall d | d in k :: d.predecessorId in m
    ensures r.Keys == m.Keys
    ensures forall id | id in m && id !in s :: r[id] == m[id]
    ensures forall id | id in s :: r[id].dates.Some? && r[id].Identity() == m[id].Identity()
    decreases |s|
  {
    if s == [] then m
    else
      var u := s[|s| - 1];
      var r := ForwardPass(cal, s[..|s| - 1], m, k, projectStart, now);
      assert forall id | id in s[..|s| - 1] :: id in s;
      var t := ForwardTask(cal, r[u], Into(k, u), r, projectStart, now);
      PassStep(m, r, s, t);
      r[u := t]
  }

  /** Only the predecessors' entries of the map matter to a forward step. */
  lemma {:induction false} EarlyStartFrame(cal: Calendar, preds: seq<Dependency>, a: TaskMap, b: TaskMap, duration: int, floor: Day)
    requires Valid(cal)
    requires forall d | d in preds :: d.predecessorId in a && d.predecessorId in b && a[d.predecessorId] == b[d.predecessorId]
    ensures EarlyStartFrom(cal, preds, a, duration, floor) == EarlyStartFrom(cal, preds, b, duration, floor)
    decreases |preds|
  {
    if preds != [] {
      EarlyStartFrame(cal, preds[..|preds| - 1], a, b, duration, floor);
    }
  }

  lemma ForwardTaskFrame(cal: Calendar, t: Task, preds: seq<Dependency>, a: TaskMap, b: TaskMap, projectStart: Day, now: Day)
    requires Valid(cal)
    requires forall d | d in preds :: d.predecessorId in a && d.predecessorId in b && a[d.predecessorId] == b[d.predecessorId]
    ensures ForwardTask(cal, t, preds, a, projectStart, now) == ForwardTask(cal, t, preds, b, projectStart, now)
  {
    EarlyStartFrame(cal, preds, a, b, t.durationMinutes, StartFloor(t, projectStart));
  }

  /** The forward pass over a topological order is the critical-path
      recurrence: every visited task holds the forward step of its original
      self against the final map, so its early start is the latest of its floor
      and its predecessors' final candidates. */
  lemma {:induction false} ForwardFixpoint(cal: Calendar, s: seq<TaskId>, m: TaskMap, k: seq<Dependency>, projectStart: Day, now: Day)
    requires Valid(cal)
    requires forall id | id in s :: id in m
    requires forall d | d in k :: d.predecessorId in m
    requires Distinct(s) && EdgesForward(s, k)
    ensures var r := ForwardPass(cal, s, m, k, projectStart, now);
      forall id | id in s :: r[id] == ForwardTask(cal, m[id], Into(k, id), r, projectStart, now)
    decreases |s|
  {
    if s != [] {
      var n := |s| - 1;
      var u := s[n];
      var s' := s[..n];
      SplitLast(s);
      var r' := ForwardPass(cal, s', m, k, projectStart, now);
      var r := ForwardPass(cal, s, m, k, projectStart, now);
      EdgesForwardInit(s, k);
      ForwardFixpoint(cal, s', m, k, projectStart, now);
      ForwardPassSnoc(cal, s, m, k, projectStart, now);
      ForwardStepKeeps(cal, u, s', m, k, projectStart, now, r', r);
    }
  }

  lemma SplitLast(s: seq<TaskId>)
    requires s != []
    ensures s == s[..|s| - 1] + [s[|s| - 1]]
  {
  }

  /** The pass over `s` is the pass over all but its last task, then the
      forward step of that task, which the shorter pass has not touched. */
  lemma ForwardPassSnoc(cal: Calendar, s: seq<TaskId>, m: TaskMap, k: seq<Dependency>, projectStart: Day, now: Day)
    requires Valid(cal)
    requires s != [] && forall id | id in s :: id in m
    requires forall d | d in k :: d.predecessorId in m
    requires s[|s| - 1] !in s[..|s| - 1]
    ensures var u := s[|s| - 1];
      var r' := ForwardPass(cal, s[..|s| - 1], m, k, projectStart, now);
      ForwardPass(cal, s, m, k, projectStart, now)
        == r'[u := ForwardTask(cal, m[u], Into(k, u), r', projectStart, now)]
  {
    var u := s[|s| - 1];
    assert forall id | id in s[..|s| - 1] :: id in s;
    var r' := ForwardPass(cal, s[..|s| - 1], m, k, projectStart, now);
    assert r'[u] == m[u];
  }

  /** Placing the forward step of `u` into a map that already satisfies the
      recurrence on `s'` keeps it, since `u` has no edge into `u` nor into any
      task of `s'`. */
  lemma ForwardStepKeeps(cal: Calendar, u: TaskId, s': seq<TaskId>, m: TaskMap, k: seq<Dependency>,
                         projectStart: Day, now: Day, r': TaskMap, r: TaskMap)
    requires Valid(cal)
    requires forall id | id in s' + [u] :: id in m
    requires r'.Keys == m.Keys && forall d | d in k :: d.predecessorId in r'
    requires forall d | d in k && d.successorId in s' + [u] :: d.predecessorId != u
    requires forall id | id in s' :: r'[id] == ForwardTask(cal, m[id], Into(k, id), r', projectStart, now)
    requires u !in s'
    requires r == r'[u := ForwardTask(cal, m[u], Into(k, u), r', projectStart, now)]
    ensures forall id | id in s' + [u] :: r[id] == ForwardTask(cal, m[id], Into(k, id), r, projectStart, now)
  {
    forall id | id in s' + [u]
      ensures r[id] == ForwardTask(cal, m[id], Into(k, id), r, projectStart, now)
    {
      ForwardTaskFrame(cal, m[id], Into(k, id), r', r, projectStart, now);
    }
  }

  // ---------------------------------------------------------------------------
  // Project finish

  /** `getProjectFinishDate`: the latest early finish over the tasks that have
      one; `None` when none has, where the source falls back to the current
      time. */
  function ProjectFinish(ids: seq<TaskId>, m: TaskMap): (f: Option<Day>)
    requires forall id | id in ids :: id in m
    ensures f.None? <==> forall id | id in ids :: m[id].dates.None?
    ensures f.Some? ==> forall id | id in ids && m[id].dates.Some? :: m[id].dates.value.earlyFinish <= f.value
    ensures f.Some? ==> exists id | id in ids && m[id].dates.Some? :: m[id].dates.value.earlyFinish == f.value
    decreases |ids|
  {
    if ids == [] then None
    else
      var lastId := ids[|ids| - 1];
      assert lastId in ids;
      var last := m[lastId];
      var f := ProjectFinish(ids[..|ids| - 1], m);
      assert forall id | id in ids[..|ids| - 1] :: id in ids;
      assert forall id | id in ids :: id in ids[..|ids| - 1] || id == lastId;
      if last.dates.None? then f
      else if f.None? || last.dates.value.earlyFinish > f.value then Some(last.dates.value.earlyFinish)
      else f
  }

  // ---------------------------------------------------------------------------
  // Backward pass

  /** The latest finish that one dependency allows its predecessor `t`, given
      the successor's late dates. The lag is read against `t`'s own duration.
      Finish-to-start ends on the last working day before the lagged late
      start, finish-to-finish on the lag-th working day before the late finish;
      the two start-based types finish one duration after the lagged date, so
      that `t` starts on it. */
  function BackwardCandidate(cal: Calendar, d: Dependency, succ: Task, duration: int): (c: Day)
    requires Valid(cal) && succ.dates.Some?
    ensures var lag := ActualLag(d, duration);
      var q := succ.dates.value;
      match d.depType
      case FinishToStart =>
        var base := SubtractLag(cal, q.lateStart, lag);
        && c < base && IsWorkingDay(cal, c)
        && (forall k :: c < k < base ==> !IsWorkingDay(cal, k))
        && CountWorking(cal, c, q.lateStart) == Max(DaysOf(lag), 0) + 1
      case StartToStart => FinishesAfter(cal, SubtractLag(cal, q.lateStart, lag), c, duration)
      case FinishToFinish =>
        && (DaysOf(lag) <= 0 ==> c == q.lateFinish)
        && (DaysOf(lag) > 0 ==>
              c < q.lateFinish && IsWorkingDay(cal, c) && CountWorking(cal, c, q.lateFinish) == DaysOf(lag))
      case StartToFinish => FinishesAfter(cal, SubtractLag(cal, q.lateFinish, lag), c, duration)
  {
    var lag := ActualLag(d, duration);
    var q := succ.dates.value;
    match d.depType
    case FinishToStart =>
      var base := SubtractLag(cal, q.lateStart, lag);
      PrecedingCount(cal, q.lateStart, base, lag);
      PreviousWorkingDay(cal, base)
    case StartToStart =>
      var limit := SubtractLag(cal, q.lateStart, lag);
      StartOnLimit(cal, limit, duration);
      AddDuration(cal, limit, duration)
    case FinishToFinish => SubtractLag(cal, q.lateFinish, lag)
    case StartToFinish =>
      var limit := SubtractLag(cal, q.lateFinish, lag);
      StartOnLimit(cal, limit, duration);
      AddDuration(cal, limit, duration)
  }

  /** `finish` is where a task of `duration` started on `limit` finishes: the
      limit itself for at most one day of work, otherwise the working day that
      makes `duration - 1` further working days after it. A task finishing
      there starts exactly on a working limit. */
  ghost predicate FinishesAfter(cal: Calendar, limit: Day, finish: Day, duration: int)
    requires Valid(cal)
  {
    && (DaysOf(duration) <= 1 ==> finish == limit)
    && (DaysOf(duration) >= 2 ==>
          limit < finish && IsWorkingDay(cal, finish) && CountWorking(cal, limit + 1, finish + 1) == DaysOf(duration) - 1)
    && (IsWorkingDay(cal, limit) ==> SubtractDuration(cal, finish, duration) == limit)
  }

  /** Starting on a working `limit`, the backward step undoes the forward one. */
  lemma StartOnLimit(cal: Calendar, limit: Day, duration: int)
    requires Valid(cal)
    ensures IsWorkingDay(cal, limit) ==>
      SubtractDuration(cal, AddDuration(cal, limit, duration), duration) == limit
  {
    if IsWorkingDay(cal, limit) {
      SubtractDurationAfterAddDuration(cal, limit, duration);
    }
  }

  /** Counting up to, not including, `d`: the working day before `base` is one
      more than the lag's days. */
  lemma PrecedingCount(cal: Calendar, d: Day, base: Day, lag: int)
    requires Valid(cal) && base == SubtractLag(cal, d, lag)
    ensures CountWorking(cal, PreviousWorkingDay(cal, base), d) == Max(DaysOf(lag), 0) + 1
  {
    var c := PreviousWorkingDay(cal, base);
    CountStepBack(cal, c, base);
    CountSplit(cal, c, base, d);
  }

  /** The loop over a task's outgoing dependencies: the earliest candidate over
      the successors that have dates, `None` when none has. */
  function LateFinishFrom(cal: Calendar, succs: seq<Dependency>, m: TaskMap, duration: int): (lf: Option<Day>)
    requires Valid(cal)
    requires forall d | d in succs :: d.successorId in m
    ensures lf.None? <==> forall d | d in succs :: m[d.successorId].dates.None?
    ensures lf.Some? ==> forall d | d in succs && m[d.successorId].dates.Some? ::
      lf.value <= BackwardCandidate(cal, d, m[d.successorId], duration)
    ensures lf.Some? ==> exists d | d in succs && m[d.successorId].dates.Some? ::
      lf.value == BackwardCandidate(cal, d, m[d.successorId], duration)
    decreases |succs|
  {
    if succs == [] then None
    else
      var d := succs[|succs| - 1];
      var lf := LateFinishFrom(cal, succs[..|succs| - 1], m, duration);
      var succ := m[d.successorId];
      assert forall e | e in succs :: e in succs[..|succs| - 1] || e == d;
      if succ.dates.None? then lf
      else if lf.None? || BackwardCandidate(cal, d, succ, duration) < lf.value
      then Some(BackwardCandidate(cal, d, succ, duration))
      else lf
  }

  /** One step of the backward pass: the late finish is the earliest candidate
      of the dated successors, or the project finish when there is none; the
      late start follows from the duration; the early dates stay. */
  function BackwardTask(cal: Calendar, t: Task, succs: seq<Dependency>, m: TaskMap, finish: Day): (r: Task)
    requires Valid(cal) && t.dates.Some?
    requires forall d | d in succs :: d.successorId in m
    ensures r.Identity() == t.Identity() && r.dates.Some?
    ensures var e := r.dates.value;
      && e.earlyStart == t.dates.value.earlyStart && e.earlyFinish == t.dates.value.earlyFinish
      && ((forall d | d in succs :: m[d.successorId].dates.None?) ==> e.lateFinish == finish)
      && (forall d | d in succs && m[d.successorId].dates.Some? ::
            e.lateFinish <= BackwardCandidate(cal, d, m[d.successorId], t.durationMinutes))
      && ((exists d | d in succs :: m[d.successorId].dates.Some?) ==>
            exists d | d in succs && m[d.successorId].dates.Some? ::
              e.lateFinish == BackwardCandidate(cal, d, m[d.successorId], t.durationMinutes))
      && e.lateStart == SubtractDuration(cal, e.lateFinish, t.durationMinutes)
    ensures r.totalFloat == 0 && !r.isCritical
  {
    var lf := LateFinishFrom(cal, succs, m, t.durationMinutes).GetOr(finish);
    t.WithCalculation(t.dates.value.earlyStart, t.dates.value.earlyFinish,
                      SubtractDuration(cal, lf, t.durationMinutes), lf, 0, false)
  }

  /** `backwardPass`: visits `s` in reverse, replacing each task by its
      backward step computed against the map as it stands. */
  function BackwardPass(cal: Calendar, s: seq<TaskId>, m: TaskMap, k: seq<Dependency>, finish: Day): (r: TaskMap)
    requires Valid(cal)
    requires forall id | id in s :: id in m && m[id].dates.Some?
    requires forall d | d in k :: d.successorId in m
    ensures r.Keys == m.Keys
    ensures forall id | id in m && id !in s :: r[id] == m[id]
    ensures forall id | id in s ::
      (&& r[id].dates.Some? && r[id].Identity() == m[id].Identity()
       && r[id].dates.value.earlyStart == m[id].dates.value.earlyStart
       && r[id].dates.value.earlyFinish == m[id].dates.value.earlyFinish)
    decreases |s|
  {
    if s == [] then m
    else
      var u := s[0];
      var r := BackwardPass(cal, s[1..], m, k, finish);
      assert forall id | id in s[1..] :: id in s;
      assert r[u].dates.Some?;
      var t := BackwardTask(cal, r[u], From(k, u), r, finish);
      BackwardStep(m, r, s, t);
      r[u := t]
  }

  /** One step of the backward pass: the first task of `s` keeps its identity
      and early dates; every other task is as before. */
  lemma BackwardStep(m: TaskMap, r: TaskMap, s: seq<TaskId>, t: Task)
    requires s != [] && r.Keys == m.Keys && s[0] in m
    requires forall id | id in s :: id in m && m[id].dates.Some?
    requires forall id | id in m && id !in s[1..] :: r[id] == m[id]
    requires forall id | id in s[1..] ::
      (&& r[id].dates.Some? && r[id].Identity() == m[id].Identity()
       && r[id].dates.value.earlyStart == m[id].dates.value.earlyStart
       && r[id].dates.value.earlyFinish == m[id].dates.value.earlyFinish)
    requires r[s[0]].dates.Some? && t.dates.Some? && t.Identity() == r[s[0]].Identity()
    requires t.dates.value.earlyStart == r[s[0]].dates.value.earlyStart
    requires t.dates.value.earlyFinish == r[s[0]].dates.value.earlyFinish
    ensures var r' := r[s[0] := t];
      && r'.Keys == m.Keys
      && (forall id | id in m && id !in s :: r'[id] == m[id])
      && (forall id | id in s ::
            (&& r'[id].dates.Some? && r'[id].Identity() == m[id].Identity()
             && r'[id].dates.value.earlyStart == m[id].dates.value.earlyStart
             && r'[id].dates.value.earlyFinish == m[id].dates.value.earlyFinish))
  {
    assert forall id | id in s :: id in s[1..] || id == s[0];
    assert forall id | id in s[1..] :: id in s;
  }

  lemma {:induction false} LateFinishFrame(cal: Calendar, succs: seq<Dependency>, a: TaskMap, b: TaskMap, duration: int)
    requires Valid(cal)
    requires forall d | d in succs :: d.successorId in a && d.successorId in b && a[d.successorId] == b[d.successorId]
    ensures LateFinishFrom(cal, succs, a, duration) == LateFinishFrom(cal, succs, b, duration)
    decreases |succs|
  {
    if succs != [] {
      LateFinishFrame(cal, succs[..|succs| - 1], a, b, duration);
    }
  }

  /** Only the successors' entries of the map matter to a backward step. */
  lemma BackwardTaskFrame(cal: Calendar, t: Task, succs: seq<Dependency>, a: TaskMap, b: TaskMap, finish: Day)
    requires Valid(cal) && t.dates.Some?
    requires forall d | d in succs :: d.successorId in a && d.successorId in b && a[d.successorId] == b[d.successorId]
    ensures BackwardTask(cal, t, succs, a, finish) == BackwardTask(cal, t, succs, b, finish)
  {
    LateFinishFrame(cal, succs, a, b, t.durationMinutes);
  }

  /** The backward pass over a topological order is the critical-path
      recurrence: every visited task holds the backward step of its
      forward-pass self against the final map. */
  lemma {:induction false} BackwardFixpoint(cal: Calendar, s: seq<TaskId>, m: TaskMap, k: seq<Dependency>, finish: Day)
    requires Valid(cal)
    requires forall id | id in s :: id in m && m[id].dates.Some?
    requires forall d | d in k :: d.successorId in m
    requires Distinct(s) && EdgesForward(s, k)
    ensures var r := BackwardPass(cal, s, m, k, finish);
      forall id | id in s :: r[id] == BackwardTask(cal, m[id], From(k, id), r, finish)
    decreases |s|
  {
    if s != [] {
      var u := s[0];
      var s' := s[1..];
      var r' := BackwardPass(cal, s', m, k, finish);
      var r := BackwardPass(cal, s, m, k, finish);
      EdgesForwardTail(s, k);
      assert s == [u] + s';
      BackwardFixpoint(cal, s', m, k, finish);
      assert r'[u] == m[u];
      assert r == r'[u := BackwardTask(cal, m[u], From(k, u), r', finish)];
      BackwardStepKeeps(cal, u, s', m, k, finish, r', r);
    }
  }

  /** Placing the backward step of `u` into a map that already satisfies the
      recurrence on `s'` keeps it, since no task of `s'` nor `u` itself has an
      edge into `u`. */
  lemma BackwardStepKeeps(cal: Calendar, u: TaskId, s': seq<TaskId>, m: TaskMap, k: seq<Dependency>, finish: Day,
                          r': TaskMap, r: TaskMap)
    requires Valid(cal)
    requires forall id | id in [u] + s' :: id in m && m[id].dates.Some?
    requires r'.Keys == m.Keys && forall d | d in k :: d.successorId in r'
    requires forall d | d in k && d.predecessorId in [u] + s' :: d.successorId != u
    requires forall id | id in s' :: r'[id] == BackwardTask(cal, m[id], From(k, id), r', finish)
    requires u !in s'
    requires r == r'[u := BackwardTask(cal, m[u], From(k, u), r', finish)]
    ensures forall id | id in [u] + s' :: r[id] == BackwardTask(cal, m[id], From(k, id), r, finish)
  {
    forall id | id in [u] + s'
      ensures r[id] == BackwardTask(cal, m[id], From(k, id), r, finish)
    {
      BackwardTaskFrame(cal, m[id], From(k, id), r', r, finish);
    }
  }

  // ---------------------------------------------------------------------------
  // Float and criticality

  /** Calendar minutes in a day: the float is a plain timestamp difference. */
  const MinutesPerCalendarDay: int := 24 * 60

  /** The float of a task's dates: from the early to the late start, in
      calendar minutes. */
  function FloatOf(e: Dates): int {
    (e.lateStart - e.earlyStart) * MinutesPerCalendarDay
  }

  /** A float of at most this many minutes marks a task critical. */
  const CriticalTolerance: int := 15

  /** Step 5 of `calculate`: the float is the late start minus the early start
      in calendar minutes, and the task is critical exactly when it has no
      positive float, i.e. its late start is not after its early start. */
  function WithFloat(t: Task): (r: Task)
    requires t.dates.Some?
    ensures r.Identity() == t.Identity() && r.dates == t.dates
    ensures r.totalFloat == FloatOf(t.dates.value)
    ensures r.isCritical <==> t.dates.value.lateStart <= t.dates.value.earlyStart
  {
    var e := t.dates.value;
    var float := FloatOf(e);
    t.WithCalculation(e.earlyStart, e.earlyFinish, e.lateStart, e.lateFinish, float, float <= CriticalTolerance)
  }

  /** The float step applied to every task of the map. */
  function FloatPass(m: TaskMap): (r: TaskMap)
    requires forall id | id in m :: m[id].dates.Some?
    ensures r.Keys == m.Keys
    ensures forall id | id in m :: r[id] == WithFloat(m[id])
  {
    map id | id in m :: WithFloat(m[id])
  }
}
