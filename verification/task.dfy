/** The task entity: an immutable value; every pass of the scheduler builds a
    new task through `WithCalculation` instead of changing one. */
module Tasks {
  import opened Wrappers
  import opened WorkCalendar
  import opened Dependencies

  /** The four computed dates. The entity's constructor leaves all four null
      and `WithCalculation` sets all four, so every task the scheduler meets has
      either none or all of them. */
  datatype Dates = Dates(earlyStart: Day, earlyFinish: Day, lateStart: Day, lateFinish: Day)

  datatype Task = Task(
    id: TaskId,
    name: string,
    durationMinutes: int,
    dates: Option<Dates>,
    totalFloat: int,
    isCritical: bool,
    isMilestone: bool,
    outlineLevel: int,
    isSummary: bool,
    manualStart: Option<Day>)
  {
    /** The seven fields a calculation never changes. */
    function Identity(): TaskIdentity {
      TaskIdentity(id, name, durationMinutes, isMilestone, outlineLevel, isSummary, manualStart)
    }

    /** `withCalculation`: a copy with the six computed fields replaced. Its four
        dates are not nullable, so the copy always holds resolved dates. */
    function WithCalculation(earlyStart: Day, earlyFinish: Day, lateStart: Day, lateFinish: Day,
                             totalFloat: int, isCritical: bool): (t: Task)
      ensures t.Identity() == Identity()
      ensures t.dates.Some?
      ensures t.dates.value.earlyStart == earlyStart && t.dates.value.earlyFinish == earlyFinish
      ensures t.dates.value.lateStart == lateStart && t.dates.value.lateFinish == lateFinish
      ensures t.totalFloat == totalFloat && t.isCritical == isCritical
    {
      Task(id, name, durationMinutes, Some(Dates(earlyStart, earlyFinish, lateStart, lateFinish)),
           totalFloat, isCritical, isMilestone, outlineLevel, isSummary, manualStart)
    }

    /** Nothing has been computed yet. */
    predicate Unscheduled() {
      dates.None? && totalFloat == 0 && !isCritical
    }
  }

  /** Tasks keyed by identifier. */
  type TaskMap = map<TaskId, Task>

  /** Every entry is stored under its own identifier, as `calculate` keys them. */
  predicate KeyedById(m: TaskMap) {
    forall id | id in m :: m[id].id == id
  }

  datatype TaskIdentity = TaskIdentity(
    id: TaskId, name: string, durationMinutes: int, isMilestone: bool,
    outlineLevel: int, isSummary: bool, manualStart: Option<Day>)

  /** The constructor with its defaults: nothing computed, not a milestone,
      level 0, not a summary, no manual start. */
  function NewTask(id: TaskId, name: string, durationMinutes: int): (t: Task)
    ensures t.Unscheduled()
    ensures t.Identity() == TaskIdentity(id, name, durationMinutes, false, 0, false, None)
  {
    Task(id, name, durationMinutes, None, 0, false, false, 0, false, None)
  }

  /** A second calculation replaces the first completely, and the identity
      survives any number of them. */
  lemma WithCalculationOverwrites(t: Task, a: Dates, b: Dates, f1: int, f2: int, c1: bool, c2: bool)
    ensures t.WithCalculation(a.earlyStart, a.earlyFinish, a.lateStart, a.lateFinish, f1, c1)
             .WithCalculation(b.earlyStart, b.earlyFinish, b.lateStart, b.lateFinish, f2, c2)
         == t.WithCalculation(b.earlyStart, b.earlyFinish, b.lateStart, b.lateFinish, f2, c2)
  {
  }

  /** Two tasks with the same identity become equal once the same calculation is
      written into both: the result depends on nothing else. */
  lemma WithCalculationDependsOnIdentity(s: Task, t: Task, d: Dates, f: int, c: bool)
    requires s.Identity() == t.Identity()
    ensures s.WithCalculation(d.earlyStart, d.earlyFinish, d.lateStart, d.lateFinish, f, c)
         == t.WithCalculation(d.earlyStart, d.earlyFinish, d.lateStart, d.lateFinish, f, c)
  {
  }
}
