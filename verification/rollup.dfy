/** Summary roll-up: the outline hierarchy is rebuilt from the tasks in
    document order, and every parent, deepest first, takes the earliest start
    and the latest finish of its dated children. */
module Rollup {
  import opened Wrappers
  import opened WorkCalendar
  import opened Dependencies
  import opened Tasks
  import opened Graph
  import opened Seqs

  // ---------------------------------------------------------------------------
  // The hierarchy, declaratively

  /** Position of the last task before position `i` at outline level `level`. */
  function LastAt(ts: seq<Task>, i: nat, level: int): (j: Option<nat>)
    requires i <= |ts|
    ensures j.Some? ==> j.value < i && ts[j.value].outlineLevel == level
    ensures j.Some? ==> forall x | j.value < x < i :: ts[x].outlineLevel != level
    ensures j.None? ==> forall x | 0 <= x < i :: ts[x].outlineLevel != level
  {
    if i == 0 then None
    else if ts[i - 1].outlineLevel == level then Some(i - 1)
    else LastAt(ts, i - 1, level)
  }

  /** The parent of the task at position `i`: the last earlier task one level
      up. Tasks at level 1 or above it have none, and nothing ever clears a
      deeper level, so the parent may lie under an earlier branch. */
  function ParentIndex(ts: seq<Task>, i: nat): (j: Option<nat>)
    requires i < |ts|
    ensures j.Some? ==> j.value < i && ts[j.value].outlineLevel == ts[i].outlineLevel - 1
  {
    if ts[i].outlineLevel > 1 then LastAt(ts, i, ts[i].outlineLevel - 1) else None
  }

  /** The identifiers of the children of `p`, in document order. */
  ghost function ChildrenOf(ts: seq<Task>, p: TaskId): seq<TaskId>
    decreases |ts|
  {
    if ts == [] then []
    else
      var n := |ts| - 1;
      var j := ParentIndex(ts, n);
      ChildrenOf(ts[..n], p) + (if j.Some? && ts[j.value].id == p then [ts[n].id] else [])
  }

  lemma LastAtPrefix(ts: seq<Task>, n: nat, i: nat, level: int)
    requires i <= n <= |ts|
    ensures LastAt(ts[..n], i, level) == LastAt(ts, i, level)
  {
  }

  // ---------------------------------------------------------------------------
  // Pass 1: the stack

  /** `stack`: level to the last task seen at that level; `childrenOf`: parent
      to its children's identifiers. */
  datatype Hierarchy = Hierarchy(stack: map<int, TaskId>, childrenOf: map<TaskId, seq<TaskId>>)

  /** Pass 1 of `rollUpSummaryDates`: for each task, a level above 1 looks up
      the stack one level up for its parent and is appended to that parent's
      children; then the task becomes the stack's entry for its own level. */
  function BuildHierarchy(ts: seq<Task>): (h: Hierarchy)
    ensures forall p | p in h.childrenOf :: h.childrenOf[p] != []
    decreases |ts|
  {
    if ts == [] then Hierarchy(map[], map[])
    else
      var n := |ts| - 1;
      var t := ts[n];
      var h := BuildHierarchy(ts[..n]);
      var children :=
        if t.outlineLevel > 1 && t.outlineLevel - 1 in h.stack then
          var p := h.stack[t.outlineLevel - 1];
          h.childrenOf[p := (if p in h.childrenOf then h.childrenOf[p] else []) + [t.id]]
        else h.childrenOf;
      Hierarchy(h.stack[t.outlineLevel := t.id], children)
  }

  /** The stack of pass 1 always holds the last task seen at every level. */
  ghost predicate StackCorrect(ts: seq<Task>, stack: map<int, TaskId>) {
    && (forall level :: level in stack <==> LastAt(ts, |ts|, level).Some?)
    && (forall level | level in stack :: stack[level] == ts[LastAt(ts, |ts|, level).value].id)
  }

  /** The children lists of pass 1 are exactly the declarative ones. */
  ghost predicate ChildrenCorrect(ts: seq<Task>, childrenOf: map<TaskId, seq<TaskId>>) {
    && (forall p :: p in childrenOf <==> ChildrenOf(ts, p) != [])
    && (forall p | p in childrenOf :: childrenOf[p] == ChildrenOf(ts, p))
  }

  /** The stack-based pass 1 computes the hierarchy that `ParentIndex`
      defines. */
  lemma {:induction false} BuildHierarchyCorrect(ts: seq<Task>)
    ensures StackCorrect(ts, BuildHierarchy(ts).stack)
    ensures ChildrenCorrect(ts, BuildHierarchy(ts).childrenOf)
    decreases |ts|
  {
    if ts != [] {
      var n := |ts| - 1;
      BuildHierarchyCorrect(ts[..n]);
      StackStep(ts, BuildHierarchy(ts[..n]).stack);
      ChildrenStep(ts, BuildHierarchy(ts[..n]));
    }
  }

  lemma StackStep(ts: seq<Task>, stack: map<int, TaskId>)
    requires ts != []
    requires StackCorrect(ts[..|ts| - 1], stack)
    ensures StackCorrect(ts, stack[ts[|ts| - 1].outlineLevel := ts[|ts| - 1].id])
  {
    var n := |ts| - 1;
    var init := ts[..n];
    assert |init| == n;
    forall level
      ensures LastAt(init, n, level) == LastAt(ts, n, level)
      ensures LastAt(ts, n, level).Some? ==> init[LastAt(ts, n, level).value] == ts[LastAt(ts, n, level).value]
    {
      LastAtPrefix(ts, n, n, level);
    }
  }

  lemma ChildrenStep(ts: seq<Task>, h: Hierarchy)
    requires ts != []
    requires h == BuildHierarchy(ts[..|ts| - 1])
    requires StackCorrect(ts[..|ts| - 1], h.stack)
    requires ChildrenCorrect(ts[..|ts| - 1], h.childrenOf)
    ensures ChildrenCorrect(ts, BuildHierarchy(ts).childrenOf)
  {
    var t := ts[|ts| - 1];
    if t.outlineLevel > 1 && t.outlineLevel - 1 in h.stack {
      ChildrenStepAdded(ts, h);
    } else {
      ChildrenStepKept(ts, h);
    }
  }

  lemma ChildrenStepAdded(ts: seq<Task>, h: Hierarchy)
    requires ts != []
    requires h == BuildHierarchy(ts[..|ts| - 1])
    requires StackCorrect(ts[..|ts| - 1], h.stack)
    requires ChildrenCorrect(ts[..|ts| - 1], h.childrenOf)
    requires ts[|ts| - 1].outlineLevel > 1 && ts[|ts| - 1].outlineLevel - 1 in h.stack
    ensures ChildrenCorrect(ts, BuildHierarchy(ts).childrenOf)
  {
    var n := |ts| - 1;
    var t := ts[n];
    var q := h.stack[t.outlineLevel - 1];
    assert BuildHierarchy(ts).childrenOf
        == h.childrenOf[q := (if q in h.childrenOf then h.childrenOf[q] else []) + [t.id]];
    StackParent(ts, h.stack);
    ChildAdded(ts, h.childrenOf, q);
  }

  /** The stack entry one level up is the parent the declarative hierarchy
      names. */
  lemma StackParent(ts: seq<Task>, stack: map<int, TaskId>)
    requires ts != []
    requires StackCorrect(ts[..|ts| - 1], stack)
    requires ts[|ts| - 1].outlineLevel > 1 && ts[|ts| - 1].outlineLevel - 1 in stack
    ensures ParentIndex(ts, |ts| - 1).Some?
    ensures stack[ts[|ts| - 1].outlineLevel - 1] == ts[ParentIndex(ts, |ts| - 1).value].id
  {
    var n := |ts| - 1;
    LastAtPrefix(ts, n, n, ts[n].outlineLevel - 1);
  }

  lemma ChildrenStepKept(ts: seq<Task>, h: Hierarchy)
    requires ts != []
    requires h == BuildHierarchy(ts[..|ts| - 1])
    requires StackCorrect(ts[..|ts| - 1], h.stack)
    requires ChildrenCorrect(ts[..|ts| - 1], h.childrenOf)
    requires !(ts[|ts| - 1].outlineLevel > 1 && ts[|ts| - 1].outlineLevel - 1 in h.stack)
    ensures ChildrenCorrect(ts, BuildHierarchy(ts).childrenOf)
  {
    var n := |ts| - 1;
    LastAtPrefix(ts, n, n, ts[n].outlineLevel - 1);
    assert BuildHierarchy(ts).childrenOf == h.childrenOf;
    ChildrenUnchanged(ts, h.childrenOf);
  }

  lemma ChildAdded(ts: seq<Task>, c: map<TaskId, seq<TaskId>>, q: TaskId)
    requires ts != []
    requires ChildrenCorrect(ts[..|ts| - 1], c)
    requires ParentIndex(ts, |ts| - 1).Some? && ts[ParentIndex(ts, |ts| - 1).value].id == q
    ensures ChildrenCorrect(ts, c[q := (if q in c then c[q] else []) + [ts[|ts| - 1].id]])
  {
    var n := |ts| - 1;
    var init := ts[..n];
    var c' := c[q := (if q in c then c[q] else []) + [ts[n].id]];
    forall p
      ensures p in c' <==> ChildrenOf(ts, p) != []
      ensures p in c' ==> c'[p] == ChildrenOf(ts, p)
    {
      ChildrenOfSnoc(ts, p);
      if p == q {
        assert q in c ==> c[q] == ChildrenOf(init, q);
        assert q !in c ==> ChildrenOf(init, q) == [];
      } else {
        assert ChildrenOf(ts, p) == ChildrenOf(init, p);
      }
    }
  }

  lemma ChildrenOfSnoc(ts: seq<Task>, p: TaskId)
    requires ts != []
    ensures var n := |ts| - 1;
      var j := ParentIndex(ts, n);
      ChildrenOf(ts, p) == ChildrenOf(ts[..n], p) + (if j.Some? && ts[j.value].id == p then [ts[n].id] else [])
  {
  }

  lemma ChildrenUnchanged(ts: seq<Task>, c: map<TaskId, seq<TaskId>>)
    requires ts != []
    requires ChildrenCorrect(ts[..|ts| - 1], c)
    requires ParentIndex(ts, |ts| - 1).None?
    ensures ChildrenCorrect(ts, c)
  {
    var n := |ts| - 1;
    forall p
      ensures ChildrenOf(ts, p) == ChildrenOf(ts[..n], p)
    {
      ChildrenOfSnoc(ts, p);
      assert ChildrenOf(ts[..n], p) + [] == ChildrenOf(ts[..n], p);
    }
  }

  /** Every child of `p` is a later task exactly one level below a task
      identified by `p`. */
  lemma {:induction false} ChildrenOfMembers(ts: seq<Task>, p: TaskId)
    ensures forall c | c in ChildrenOf(ts, p) :: exists i, j | 0 <= j < i < |ts| ::
      ts[i].id == c && ts[j].id == p && ts[j].outlineLevel == ts[i].outlineLevel - 1
    decreases |ts|
  {
    if ts != [] {
      var n := |ts| - 1;
      ChildrenOfMembers(ts[..n], p);
      ChildrenOfSnoc(ts, p);
      forall c | c in ChildrenOf(ts, p)
        ensures exists i, j | 0 <= j < i < |ts| ::
          ts[i].id == c && ts[j].id == p && ts[j].outlineLevel == ts[i].outlineLevel - 1
      {
        if c in ChildrenOf(ts[..n], p) {
          var i, j :| 0 <= j < i < n && ts[..n][i].id == c && ts[..n][j].id == p
            && ts[..n][j].outlineLevel == ts[..n][i].outlineLevel - 1;
          assert ts[i] == ts[..n][i] && ts[j] == ts[..n][j];
        } else {
          var j := ParentIndex(ts, n).value;
          assert ts[n].id == c && ts[j].id == p;
        }
      }
    }
  }

  // ---------------------------------------------------------------------------
  // Pass 2: bottom-up dates

  /** `$orderedTasks`: the tasks of `m` in document order, skipping identifiers
      `m` does not hold. */
  function OrderedTasks(order: seq<TaskId>, m: TaskMap): (ts: seq<Task>)
    requires KeyedById(m)
    ensures forall t | t in ts :: t.id in m && m[t.id] == t
    ensures forall id | id in order && id in m :: m[id] in ts
    ensures ts == Flatten(Lookups(order, m))
    decreases |order|
  {
    if order == [] then []
    else
      var rest := OrderedTasks(order[1..], m);
      assert forall id | id in order :: id == order[0] || id in order[1..];
      assert Lookups(order, m)[1..] == Lookups(order[1..], m);
      if order[0] in m then [m[order[0]]] + rest else rest
  }

  /** Per identifier of `order`, its task when `m` holds one and nothing
      otherwise. */
  function Lookups(order: seq<TaskId>, m: TaskMap): seq<seq<Task>> {
    seq(|order|, k requires 0 <= k < |order| => if order[k] in m then [m[order[k]]] else [])
  }

  /** `$parents`: the tasks that have children, in document order. */
  function ParentsOf(ts: seq<Task>, childrenOf: map<TaskId, seq<TaskId>>): (ps: seq<Task>)
    ensures forall t :: t in ps <==> t in ts && t.id in childrenOf
    decreases |ts|
  {
    if ts == [] then []
    else
      var rest := ParentsOf(ts[1..], childrenOf);
      if ts[0].id in childrenOf then [ts[0]] + rest else rest
  }

  ghost predicate LevelsDescending(s: seq<Task>) {
    forall i, j | 0 <= i < j < |s| :: s[i].outlineLevel >= s[j].outlineLevel
  }

  /** Inserts `t` before the first task that is not deeper, so that of two
      tasks at the same level the earlier-inserted stays first. */
  function InsertByLevel(t: Task, s: seq<Task>): (r: seq<Task>)
    requires LevelsDescending(s)
    ensures LevelsDescending(r)
    ensures multiset(r) == multiset(s) + multiset{t}
    decreases |s|
  {
    if s == [] || s[0].outlineLevel <= t.outlineLevel then
      DescendingFront(t, s);
      [t] + s
    else
      assert s == [s[0]] + s[1..];
      DescendingTail(s);
      var rest := InsertByLevel(t, s[1..]);
      InsertedBelowHead(t, s, rest);
      DescendingCons(s[0], rest);
      [s[0]] + rest
  }

  /** Inserting a shallower task into the tail leaves nothing deeper than the
      head. */
  lemma InsertedBelowHead(t: Task, s: seq<Task>, rest: seq<Task>)
    requires s != [] && LevelsDescending(s) && t.outlineLevel < s[0].outlineLevel
    requires multiset(rest) == multiset(s[1..]) + multiset{t}
    ensures forall x | x in rest :: x.outlineLevel <= s[0].outlineLevel
  {
    forall x | x in rest
      ensures x.outlineLevel <= s[0].outlineLevel
    {
      assert x in multiset(rest);
      if x != t {
        assert x in s[1..];
        assert s[0].outlineLevel >= x.outlineLevel;
      }
    }
  }

  lemma DescendingFront(t: Task, s: seq<Task>)
    requires LevelsDescending(s)
    requires s == [] || s[0].outlineLevel <= t.outlineLevel
    ensures LevelsDescending([t] + s)
  {
    forall x | x in s
      ensures x.outlineLevel <= t.outlineLevel
    {
      var i :| 0 <= i < |s| && s[i] == x;
      if i > 0 {
        assert s[0].outlineLevel >= s[i].outlineLevel;
      }
    }
    DescendingCons(t, s);
  }

  lemma DescendingTail(s: seq<Task>)
    requires s != [] && LevelsDescending(s)
    ensures LevelsDescending(s[1..])
  {
    forall i, j | 0 <= i < j < |s| - 1
      ensures s[1..][i].outlineLevel >= s[1..][j].outlineLevel
    {
      assert s[1..][i] == s[i + 1] && s[1..][j] == s[j + 1];
    }
  }

  /** Putting a task in front of a descending sequence no deeper than it keeps
      the sequence descending. */
  lemma DescendingCons(h: Task, s: seq<Task>)
    requires LevelsDescending(s)
    requires forall x | x in s :: x.outlineLevel <= h.outlineLevel
    ensures LevelsDescending([h] + s)
  {
    var r := [h] + s;
    forall i, j | 0 <= i < j < |r|
      ensures r[i].outlineLevel >= r[j].outlineLevel
    {
      assert r[j] == s[j - 1];
      if i > 0 {
        assert r[i] == s[i - 1];
      } else {
        assert s[j - 1] in s;
      }
    }
  }

  /** `usort` by outline level, deepest first; the sort is stable, as PHP's
      is. */
  function SortByLevel(s: seq<Task>): (r: seq<Task>)
    ensures LevelsDescending(r)
    ensures multiset(r) == multiset(s)
    decreases |s|
  {
    if s == [] then []
    else
      assert s == [s[0]] + s[1..];
      InsertByLevel(s[0], SortByLevel(s[1..]))
  }

  /** The earliest start and the latest finish over a parent's children. */
  datatype Span = Span(start: Day, finish: Day)

  /** The loop over one parent's children, skipping those without dates. */
  function ChildSpan(children: seq<TaskId>, m: TaskMap): (span: Option<Span>)
    requires forall c | c in children :: c in m
    ensures span.None? <==> forall c | c in children :: m[c].dates.None?
    ensures span.Some? ==> forall c | c in children && m[c].dates.Some? ::
      span.value.start <= m[c].dates.value.earlyStart && m[c].dates.value.earlyFinish <= span.value.finish
    ensures span.Some? ==> exists c | c in children && m[c].dates.Some? ::
      m[c].dates.value.earlyStart == span.value.start
    ensures span.Some? ==> exists c | c in children && m[c].dates.Some? ::
      m[c].dates.value.earlyFinish == span.value.finish
    decreases |children|
  {
    if children == [] then None
    else
      var n := |children| - 1;
      var c := children[n];
      assert c in children;
      var span := ChildSpan(children[..n], m);
      assert forall x | x in children :: x in children[..n] || x == c;
      assert forall x | x in children[..n] :: x in children;
      Extend(span, m[c].dates)
  }

  /** A span widened to cover one more child's early dates, if it has any. */
  function Extend(span: Option<Span>, dates: Option<Dates>): Option<Span> {
    match dates
    case None => span
    case Some(e) =>
      match span
      case None => Some(Span(e.earlyStart, e.earlyFinish))
      case Some(sp) =>
        Some(Span(if e.earlyStart < sp.start then e.earlyStart else sp.start,
                  if e.earlyFinish > sp.finish then e.earlyFinish else sp.finish))
  }

  /** The parent summarised over a span: start and late start at the span's
      start, finish and late finish at its end, no float, criticality kept. */
  function Summarize(p: Task, span: Span): (r: Task)
    ensures r.Identity() == p.Identity()
    ensures r.dates == Some(Dates(span.start, span.finish, span.start, span.finish))
    ensures r.totalFloat == 0 && r.isCritical == p.isCritical
  {
    p.WithCalculation(span.start, span.finish, span.start, span.finish, 0, p.isCritical)
  }

  /** What one parent ends up as: summarised over its dated children, or left
      as it was when none is dated. */
  function RollupStep(p: Task, children: seq<TaskId>, m: TaskMap): (r: Task)
    requires forall c | c in children :: c in m
    ensures r.Identity() == p.Identity() && r.isCritical == p.isCritical
    ensures (forall c | c in children :: m[c].dates.None?) ==> r == p
    ensures (exists c | c in children :: m[c].dates.Some?) ==>
      && r.dates.Some? && r.totalFloat == 0
      && r.dates.value.earlyStart == r.dates.value.lateStart
      && r.dates.value.earlyFinish == r.dates.value.lateFinish
      && (forall c | c in children && m[c].dates.Some? ::
            r.dates.value.earlyStart <= m[c].dates.value.earlyStart
            && m[c].dates.value.earlyFinish <= r.dates.value.earlyFinish)
      && (exists c | c in children && m[c].dates.Some? :: m[c].dates.value.earlyStart == r.dates.value.earlyStart)
      && (exists c | c in children && m[c].dates.Some? :: m[c].dates.value.earlyFinish == r.dates.value.earlyFinish)
  {
    match ChildSpan(children, m)
    case None => p
    case Some(span) => Summarize(p, span)
  }

  /** The loop over the sorted parents: each parent with a dated child is
      replaced by its summary computed against the map as it stands. */
  function RollupPass(ps: seq<Task>, ch: map<TaskId, seq<TaskId>>, m: TaskMap): (r: TaskMap)
    requires forall t | t in ps :: t.id in m && t.id in ch && forall c | c in ch[t.id] :: c in m
    ensures r.Keys == m.Keys
    ensures forall id | id in m && id !in IdSet(ps) :: r[id] == m[id]
    decreases |ps|
  {
    if ps == [] then m
    else
      var n := |ps| - 1;
      var p := ps[n];
      assert p in ps;
      assert forall t | t in ps[..n] :: t in ps;
      IdSetSnoc(ps);
      RollupAt(p, ch[p.id], RollupPass(ps[..n], ch, m))
  }

  /** One parent of the pass: summarised over its dated children, or left
      alone when none is dated. */
  function RollupAt(p: Task, children: seq<TaskId>, r: TaskMap): (r': TaskMap)
    requires p.id in r && forall c | c in children :: c in r
    ensures r'.Keys == r.Keys
    ensures forall id | id in r && id != p.id :: r'[id] == r[id]
    ensures r'[p.id] == RollupStep(p, children, r) || r'[p.id] == r[p.id]
  {
    match ChildSpan(children, r)
    case None => r
    case Some(span) => r[p.id := Summarize(p, span)]
  }

  /** A span reads only the children's entries. */
  lemma {:induction false} ChildSpanFrame(children: seq<TaskId>, a: TaskMap, b: TaskMap)
    requires forall c | c in children :: c in a && c in b && a[c] == b[c]
    ensures ChildSpan(children, a) == ChildSpan(children, b)
    decreases |children|
  {
    if children != [] {
      var n := |children| - 1;
      var c := children[n];
      assert c in children;
      assert a[c] == b[c];
      assert forall x | x in children[..n] :: x in children;
      ChildSpanFrame(children[..n], a, b);
      assert ChildSpan(children, a) == Extend(ChildSpan(children[..n], a), a[c].dates);
      assert ChildSpan(children, b) == Extend(ChildSpan(children[..n], b), b[c].dates);
    }
  }

  /** One more parent: the map changes at most at that parent's entry. */
  lemma RollupPassSnoc(ps: seq<Task>, ch: map<TaskId, seq<TaskId>>, m: TaskMap)
    requires ps != []
    requires forall t | t in ps :: t.id in m && t.id in ch && forall c | c in ch[t.id] :: c in m
    ensures var p := ps[|ps| - 1];
      var r' := RollupPass(ps[..|ps| - 1], ch, m);
      var r := RollupPass(ps, ch, m);
      && r.Keys == r'.Keys
      && (forall id | id in r && id != p.id :: r[id] == r'[id])
      && r[p.id] == (match ChildSpan(ch[p.id], r') case None => r'[p.id] case Some(span) => Summarize(p, span))
  {
    assert ps[|ps| - 1] in ps;
  }

  /** A parent's roll-up survives a change at an entry that is none of its
      children's and not its own. */
  lemma RollupStepKept(t: Task, children: seq<TaskId>, a: TaskMap, b: TaskMap, pid: TaskId)
    requires a.Keys == b.Keys && t.id in a && t.id != pid
    requires forall id | id in a && id != pid :: a[id] == b[id]
    requires forall c | c in children :: c in a && c != pid
    requires a[t.id] == RollupStep(t, children, a)
    ensures b[t.id] == RollupStep(t, children, b)
  {
    ChildSpanFrame(children, a, b);
  }

  /** The parent just processed is its own roll-up afterwards, given that its
      entry held it or its roll-up and its children are not itself. */
  lemma RollupStepHere(p: Task, children: seq<TaskId>, a: TaskMap, b: TaskMap)
    requires a.Keys == b.Keys && p.id in a
    requires forall c | c in children :: c in a
    requires a[p.id] == p || a[p.id] == RollupStep(p, children, a)
    requires forall id | id in a && id != p.id :: a[id] == b[id]
    requires forall c | c in children :: c in a && c != p.id
    requires b[p.id] == (match ChildSpan(children, a) case None => a[p.id] case Some(span) => Summarize(p, span))
    ensures b[p.id] == RollupStep(p, children, b)
  {
    ChildSpanFrame(children, a, b);
  }

  /** Before its own step a parent's entry holds the parent, or its roll-up
      when it was already processed once. */
  lemma ParentEntry(ps: seq<Task>, ch: map<TaskId, seq<TaskId>>, m: TaskMap, p: Task)
    requires forall t | t in ps :: t.id in m && m[t.id] == t && t.id in ch && forall c | c in ch[t.id] :: c in m
    requires p.id in m && m[p.id] == p && p.id in ch && forall c | c in ch[p.id] :: c in m
    requires var r := RollupPass(ps, ch, m);
      forall t | t in ps :: r[t.id] == RollupStep(t, ch[t.id], r)
    ensures var r := RollupPass(ps, ch, m);
      r[p.id] == p || r[p.id] == RollupStep(p, ch[p.id], r)
  {
    if t :| t in ps && t.id == p.id {
      assert t == p;
    }
  }

  /** Children sit one level below their parent, and parents come deepest
      first, so no earlier parent has the last parent as a child. */
  lemma LastIsNoEarlierChild(ps: seq<Task>, ch: map<TaskId, seq<TaskId>>, m: TaskMap)
    requires ps != []
    requires forall t | t in ps :: t.id in m && m[t.id] == t && t.id in ch
    requires forall t, c | t in ps && c in ch[t.id] :: c in m && m[c].outlineLevel == t.outlineLevel + 1
    requires LevelsDescending(ps)
    ensures forall t, c | t in ps[..|ps| - 1] && c in ch[t.id] :: c != ps[|ps| - 1].id
  {
    var n := |ps| - 1;
    assert ps[n] in ps;
    forall t, c | t in ps[..n] && c in ch[t.id]
      ensures c != ps[n].id
    {
      var i :| 0 <= i < n && ps[..n][i] == t;
      assert ps[i] == t;
    }
  }

  /** Parents processed earlier keep their roll-up across a step that changes
      only an entry none of them has as a child. */
  lemma OthersKept(ps: seq<Task>, ch: map<TaskId, seq<TaskId>>, a: TaskMap, b: TaskMap, pid: TaskId)
    requires forall t | t in ps :: t.id in a && t.id in ch && forall c | c in ch[t.id] :: c in a && c != pid
    requires a.Keys == b.Keys
    requires forall id | id in a && id != pid :: a[id] == b[id]
    requires forall t | t in ps :: a[t.id] == RollupStep(t, ch[t.id], a)
    ensures forall t | t in ps && t.id != pid :: b[t.id] == RollupStep(t, ch[t.id], b)
  {
    forall t | t in ps && t.id != pid
      ensures b[t.id] == RollupStep(t, ch[t.id], b)
    {
      RollupStepKept(t, ch[t.id], a, b, pid);
    }
  }

  /** Processing parents deepest first makes the pass a fixpoint: every parent
      ends up as its own roll-up over the FINAL dates of its children, so a
      grandparent sees its children already summarised. */
  lemma {:induction false} RollupFixpoint(ps: seq<Task>, ch: map<TaskId, seq<TaskId>>, m: TaskMap)
    requires forall t | t in ps :: t.id in m && m[t.id] == t && t.id in ch
    requires forall t, c | t in ps && c in ch[t.id] :: c in m && m[c].outlineLevel == t.outlineLevel + 1
    requires LevelsDescending(ps)
    ensures var r := RollupPass(ps, ch, m);
      forall t | t in ps :: r[t.id] == RollupStep(t, ch[t.id], r)
    decreases |ps|
  {
    if ps != [] {
      var n := |ps| - 1;
      var p := ps[n];
      var ps' := ps[..n];
      assert p in ps;
      assert forall t | t in ps' :: t in ps;
      RollupFixpoint(ps', ch, m);
      LastIsNoEarlierChild(ps, ch, m);
      FixpointSnoc(ps, ch, m);
    }
  }

  /** The fixpoint extends over one more parent, none of whose predecessors in
      the order has it as a child. */
  lemma FixpointSnoc(ps: seq<Task>, ch: map<TaskId, seq<TaskId>>, m: TaskMap)
    requires ps != []
    requires forall t | t in ps :: t.id in m && m[t.id] == t && t.id in ch && forall c | c in ch[t.id] :: c in m
    requires ps[|ps| - 1].id !in ch[ps[|ps| - 1].id]
    requires forall t, c | t in ps[..|ps| - 1] && c in ch[t.id] :: c != ps[|ps| - 1].id
    requires var r := RollupPass(ps[..|ps| - 1], ch, m);
      forall t | t in ps[..|ps| - 1] :: r[t.id] == RollupStep(t, ch[t.id], r)
    ensures var r := RollupPass(ps, ch, m);
      forall t | t in ps :: r[t.id] == RollupStep(t, ch[t.id], r)
  {
    var n := |ps| - 1;
    var p := ps[n];
    var ps' := ps[..n];
    assert p in ps;
    assert forall t | t in ps' :: t in ps;
    RollupPassSnoc(ps, ch, m);
    ParentEntry(ps', ch, m, p);
    var r', r := RollupPass(ps', ch, m), RollupPass(ps, ch, m);
    RollupStepHere(p, ch[p.id], r', r);
    OthersKept(ps', ch, r', r, p.id);
    forall t | t in ps
      ensures r[t.id] == RollupStep(t, ch[t.id], r)
    {
      if t.id == p.id {
        assert t == p;
      } else {
        assert t in ps';
      }
    }
  }

  // ---------------------------------------------------------------------------
  // The whole roll-up

  /** The sort keeps exactly the tasks it is given. */
  lemma SortByLevelElements(s: seq<Task>)
    ensures forall t :: t in SortByLevel(s) <==> t in s
  {
    var r := SortByLevel(s);
    forall t
      ensures t in r <==> t in s
    {
      assert t in r <==> t in multiset(r);
      assert t in s <==> t in multiset(s);
    }
  }

  /** Every child recorded for a parent of the document is a task of `m` one
      level below that parent. */
  lemma ChildrenInMap(m: TaskMap, ts: seq<Task>, t: Task)
    requires forall x | x in ts :: x.id in m && m[x.id] == x
    requires t in ts
    ensures forall c | c in ChildrenOf(ts, t.id) :: c in m && m[c].outlineLevel == t.outlineLevel + 1
  {
    ChildrenOfMembers(ts, t.id);
    forall c | c in ChildrenOf(ts, t.id)
      ensures c in m && m[c].outlineLevel == t.outlineLevel + 1
    {
      var i, j :| 0 <= j < i < |ts| && ts[i].id == c && ts[j].id == t.id
        && ts[j].outlineLevel == ts[i].outlineLevel - 1;
      assert ts[i] in ts && ts[j] in ts;
    }
  }

  /** The roll-up, declaratively: tasks without children are as they were, and
      every parent is its own roll-up over its children as they finally stand. */
  ghost predicate RolledUp(ts: seq<Task>, m: TaskMap, r: TaskMap) {
    && r.Keys == m.Keys
    && (forall id | id in m && ChildrenOf(ts, id) == [] :: r[id] == m[id])
    && (forall id | id in m && ChildrenOf(ts, id) != [] ::
          && (forall c | c in ChildrenOf(ts, id) :: c in r)
          && r[id] == RollupStep(m[id], ChildrenOf(ts, id), r))
  }

  /** `rollUpSummaryDates`: order the tasks by the document, find each parent's
      children, then summarise the parents deepest first. */
  function RollupSummaries(m: TaskMap, order: seq<TaskId>): (r: TaskMap)
    requires KeyedById(m)
    ensures r.Keys == m.Keys
  {
    var ts := OrderedTasks(order, m);
    var ch := BuildHierarchy(ts).childrenOf;
    BuildHierarchyCorrect(ts);
    var parents := ParentsOf(ts, ch);
    var ps := SortByLevel(parents);
    SortByLevelElements(parents);
    ParentsWellFormed(ts, m, ch, ps);
    RollupPass(ps, ch, m)
  }

  /** A parent of the document holds its roll-up when the pass left every
      sorted parent so. */
  lemma ParentsRolledUp(ts: seq<Task>, m: TaskMap, ch: map<TaskId, seq<TaskId>>, ps: seq<Task>, r: TaskMap)
    requires forall x | x in ts :: x.id in m && m[x.id] == x
    requires ChildrenCorrect(ts, ch)
    requires forall t :: t in ps <==> t in ts && t.id in ch
    requires r.Keys == m.Keys
    requires forall t | t in ps :: forall c | c in ch[t.id] :: c in m
    requires forall t | t in ps :: r[t.id] == RollupStep(t, ch[t.id], r)
    ensures forall id | id in m && ChildrenOf(ts, id) != [] ::
      && (forall c | c in ChildrenOf(ts, id) :: c in r)
      && r[id] == RollupStep(m[id], ChildrenOf(ts, id), r)
  {
    forall id | id in m && ChildrenOf(ts, id) != []
      ensures forall c | c in ChildrenOf(ts, id) :: c in r
      ensures r[id] == RollupStep(m[id], ChildrenOf(ts, id), r)
    {
      ChildrenOfMembers(ts, id);
      var c := ChildrenOf(ts, id)[0];
      assert c in ChildrenOf(ts, id);
      var i, j :| 0 <= j < i < |ts| && ts[i].id == c && ts[j].id == id
        && ts[j].outlineLevel == ts[i].outlineLevel - 1;
      assert ts[j] in ts;
      assert ts[j] in ps;
    }
  }

  /** The sorted parents meet the fixpoint lemma's conditions. */
  lemma ParentsWellFormed(ts: seq<Task>, m: TaskMap, ch: map<TaskId, seq<TaskId>>, ps: seq<Task>)
    requires forall x | x in ts :: x.id in m && m[x.id] == x
    requires ChildrenCorrect(ts, ch)
    requires forall t :: t in ps <==> t in ts && t.id in ch
    ensures forall t | t in ps :: t.id in m && m[t.id] == t && t.id in ch
    ensures forall t, c | t in ps && c in ch[t.id] :: c in m && m[c].outlineLevel == t.outlineLevel + 1
  {
    forall t, c | t in ps && c in ch[t.id]
      ensures c in m && m[c].outlineLevel == t.outlineLevel + 1
    {
      ChildrenInMap(m, ts, t);
    }
  }

  lemma IdSetSnoc(ps: seq<Task>)
    requires ps != []
    ensures IdSet(ps) == IdSet(ps[..|ps| - 1]) + {ps[|ps| - 1].id}
  {
    var n := |ps| - 1;
    forall id | id in IdSet(ps)
      ensures id in IdSet(ps[..n]) + {ps[n].id}
    {
      var i :| 0 <= i < |ps| && ps[i].id == id;
      if i < n {
        assert ps[..n][i] == ps[i];
      }
    }
    forall id | id in IdSet(ps[..n])
      ensures id in IdSet(ps)
    {
      var i :| 0 <= i < n && ps[..n][i].id == id;
      assert ps[i].id == id;
    }
  }

  /** The roll-up meets its declarative description. */
  lemma RollupSummariesCorrect(m: TaskMap, order: seq<TaskId>)
    requires KeyedById(m)
    ensures RolledUp(OrderedTasks(order, m), m, RollupSummaries(m, order))
  {
    var ts := OrderedTasks(order, m);
    var r := RollupSummaries(m, order);
    RollupParents(m, order, ts, r);
    RollupLeaves(m, order, ts, r);
  }

  /** Every parent holds its roll-up step over the result. */
  lemma RollupParents(m: TaskMap, order: seq<TaskId>, ts: seq<Task>, r: TaskMap)
    requires KeyedById(m)
    requires ts == OrderedTasks(order, m) && r == RollupSummaries(m, order)
    ensures forall id | id in m && ChildrenOf(ts, id) != [] ::
      && (forall c | c in ChildrenOf(ts, id) :: c in r)
      && r[id] == RollupStep(m[id], ChildrenOf(ts, id), r)
  {
    var ch := BuildHierarchy(ts).childrenOf;
    BuildHierarchyCorrect(ts);
    var parents := ParentsOf(ts, ch);
    var ps := SortByLevel(parents);
    SortByLevelElements(parents);
    ParentsWellFormed(ts, m, ch, ps);
    assert r == RollupPass(ps, ch, m);
    RollupFixpoint(ps, ch, m);
    ParentsRolledUp(ts, m, ch, ps, r);
  }

  /** Every task without children is left as it was. */
  lemma RollupLeaves(m: TaskMap, order: seq<TaskId>, ts: seq<Task>, r: TaskMap)
    requires KeyedById(m)
    requires ts == OrderedTasks(order, m) && r == RollupSummaries(m, order)
    ensures forall id | id in m && ChildrenOf(ts, id) == [] :: r[id] == m[id]
  {
    var ch := BuildHierarchy(ts).childrenOf;
    BuildHierarchyCorrect(ts);
    var parents := ParentsOf(ts, ch);
    var ps := SortByLevel(parents);
    SortByLevelElements(parents);
    ParentsWellFormed(ts, m, ch, ps);
    assert r == RollupPass(ps, ch, m);
    forall id | id in m && ChildrenOf(ts, id) == []
      ensures r[id] == m[id]
    {
      assert forall t | t in ps :: t.id != id;
      assert id !in IdSet(ps);
    }
  }

  // ---------------------------------------------------------------------------
  // The hierarchy depends on identifiers and levels only

  /** Two documents list the same identifiers at the same levels. */
  ghost predicate SameOutline(a: seq<Task>, b: seq<Task>) {
    && |a| == |b|
    && forall i | 0 <= i < |a| :: a[i].id == b[i].id && a[i].outlineLevel == b[i].outlineLevel
  }

  lemma {:induction false} LastAtSameOutline(a: seq<Task>, b: seq<Task>, i: nat, level: int)
    requires SameOutline(a, b) && i <= |a|
    ensures LastAt(a, i, level) == LastAt(b, i, level)
    decreases i
  {
    if i > 0 {
      LastAtSameOutline(a, b, i - 1, level);
    }
  }

  lemma {:induction false} ChildrenOfSameOutline(a: seq<Task>, b: seq<Task>, p: TaskId)
    requires SameOutline(a, b)
    ensures ChildrenOf(a, p) == ChildrenOf(b, p)
    decreases |a|
  {
    if a != [] {
      var n := |a| - 1;
      assert SameOutline(a[..n], b[..n]);
      ChildrenOfSameOutline(a[..n], b[..n], p);
      if a[n].outlineLevel > 1 {
        LastAtSameOutline(a, b, n, a[n].outlineLevel - 1);
      }
    }
  }

  lemma ConsSameOutline(x: Task, y: Task, a: seq<Task>, b: seq<Task>)
    requires SameOutline(a, b) && x.id == y.id && x.outlineLevel == y.outlineLevel
    ensures SameOutline([x] + a, [y] + b)
  {
    forall i | 0 < i <= |a|
      ensures ([x] + a)[i] == a[i - 1] && ([y] + b)[i] == b[i - 1]
    {
    }
  }

  /** Recomputing dates changes neither identifiers nor levels, so the document
      read from either map has the same outline. */
  lemma {:induction false} OrderedTasksSameOutline(order: seq<TaskId>, a: TaskMap, b: TaskMap)
    requires KeyedById(a) && KeyedById(b) && a.Keys == b.Keys
    requires forall id | id in a :: a[id].outlineLevel == b[id].outlineLevel
    ensures SameOutline(OrderedTasks(order, a), OrderedTasks(order, b))
    decreases |order|
  {
    if order != [] {
      OrderedTasksSameOutline(order[1..], a, b);
      if order[0] in a {
        assert order[0] in b && a[order[0]].id == order[0] == b[order[0]].id;
        ConsSameOutline(a[order[0]], b[order[0]], OrderedTasks(order[1..], a), OrderedTasks(order[1..], b));
      }
    }
  }

  /** The roll-up only ever recomputes dates: every task keeps its identity,
      and a dated task stays dated. */
  lemma RolledUpKeeps(ts: seq<Task>, m: TaskMap, r: TaskMap)
    requires RolledUp(ts, m, r)
    ensures forall id | id in m :: r[id].Identity() == m[id].Identity() && (m[id].dates.Some? ==> r[id].dates.Some?)
  {
    forall id | id in m
      ensures r[id].Identity() == m[id].Identity() && (m[id].dates.Some? ==> r[id].dates.Some?)
    {
      if ChildrenOf(ts, id) != [] {
        var children := ChildrenOf(ts, id);
        if m[id].dates.Some? && forall c | c in children :: r[c].dates.None? {
          assert r[id] == m[id];
        }
      }
    }
  }
}
