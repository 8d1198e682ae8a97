/** The dependency value objects: the four relationship types and the
    dependency record linking two tasks. */
module Dependencies {

  /** Task identifiers; the mapper casts every identifier to an integer. */
  type TaskId = int

  /** A closed four-variant enum, backed by the strings 'FS', 'SS', 'FF', 'SF'. */
  datatype DependencyType = FinishToStart | StartToStart | FinishToFinish | StartToFinish {

    /** The enum's backing value. */
    function Value(): string {
      match this
      case FinishToStart => "FS"
      case StartToStart => "SS"
      case FinishToFinish => "FF"
      case StartToFinish => "SF"
    }
  }

  /** The backing values tell the four variants apart. */
  lemma ValuesDistinct(a: DependencyType, b: DependencyType)
    ensures a.Value() == b.Value() <==> a == b
  {
    if a != b {
      match a
      case FinishToStart => assert a.Value()[0] == 'F' && a.Value()[1] == 'S';
      case StartToStart => assert a.Value()[0] == 'S' && a.Value()[1] == 'S';
      case FinishToFinish => assert a.Value()[0] == 'F' && a.Value()[1] == 'F';
      case StartToFinish => assert a.Value()[0] == 'S' && a.Value()[1] == 'F';
    }
  }

  /** `fromMppType`: 1 = FS, 2 = SS, 3 = FF, 4 = SF; every other integer,
      0 included, falls back to FS. */
  function FromMppType(code: int): (t: DependencyType)
    ensures t == StartToStart <==> code == 2
    ensures t == FinishToFinish <==> code == 3
    ensures t == StartToFinish <==> code == 4
    ensures t == FinishToStart <==> !(2 <= code <= 4)
  {
    match code
    case 1 => FinishToStart
    case 2 => StartToStart
    case 3 => FinishToFinish
    case 4 => StartToFinish
    case _ => FinishToStart
  }

  /** The project-file code of each type. */
  function MppCode(t: DependencyType): (code: int)
    ensures 1 <= code <= 4
  {
    match t
    case FinishToStart => 1
    case StartToStart => 2
    case FinishToFinish => 3
    case StartToFinish => 4
  }

  /** Every type is reached from its own code, so `FromMppType` is onto. */
  lemma FromMppTypeOfCode(t: DependencyType)
    ensures FromMppType(MppCode(t)) == t
  {
  }

  /** `lag` is in minutes, or a percentage of the predecessor's duration when
      `isPercentage` holds. */
  datatype Dependency = Dependency(
    predecessorId: TaskId,
    successorId: TaskId,
    depType: DependencyType,
    lag: int,
    isPercentage: bool)

  /** The constructor with its defaults: no lag, not a percentage. */
  function PlainDependency(predecessorId: TaskId, successorId: TaskId, depType: DependencyType): (d: Dependency)
    ensures d.lag == 0 && !d.isPercentage
    ensures d.predecessorId == predecessorId && d.successorId == successorId && d.depType == depType
  {
    Dependency(predecessorId, successorId, depType, 0, false)
  }
}
