/** Kahn's topological sort over the kept dependency graph.

    The queue is seeded with the tasks of in-degree 0 in declaration order and
    worked first-in first-out: each dequeued task is appended to the output and
    releases its successors, one dependency at a time, enqueueing a successor
    when its remaining in-degree reaches 0. Tasks on or behind a cycle are
    never released; the sort then returns the partial order it has and does
    not fail. */
module TopoSort {
  import opened Dependencies
  import opened Graph

  // ---------------------------------------------------------------------------
  // Orders and acyclicity

  /** Every kept edge into the i-th element comes from an earlier element. */
  ghost predicate PredecessorsFirst(s: seq<TaskId>, k: seq<Dependency>) {
    forall i, d | 0 <= i < |s| && d in k && d.successorId == s[i] :: d.predecessorId in s[..i]
  }

  /** `o` lists every task exactly once, each after all its kept predecessors. */
  ghost predicate IsTopologicalOrder(o: seq<TaskId>, ids: seq<TaskId>, k: seq<Dependency>) {
    && Distinct(o)
    && (forall x :: x in o <==> x in ids)
    && PredecessorsFirst(o, k)
  }

  /** The kept graph is acyclic: its tasks can be ordered so that every kept
      edge points forward. */
  ghost predicate Acyclic(ids: seq<TaskId>, k: seq<Dependency>) {
    exists o :: IsTopologicalOrder(o, ids, k)
  }

  /** A non-empty chain of kept edges, each ending where the next starts. */
  ghost predicate IsPath(c: seq<Dependency>, k: seq<Dependency>) {
    && |c| > 0
    && (forall j | 0 <= j < |c| :: c[j] in k)
    && (forall j | 0 <= j < |c| - 1 :: c[j].successorId == c[j + 1].predecessorId)
  }

  /** A path that ends where it starts. */
  ghost predicate IsCycle(c: seq<Dependency>, k: seq<Dependency>) {
    IsPath(c, k) && c[|c| - 1].successorId == c[0].predecessorId
  }

  function IndexOf(o: seq<TaskId>, x: TaskId): (i: nat)
    requires x in o
    ensures i < |o| && o[i] == x && x !in o[..i]
  {
    if o[0] == x then 0 else 1 + IndexOf(o[1..], x)
  }

  lemma EdgeGoesForward(o: seq<TaskId>, ids: seq<TaskId>, k: seq<Dependency>, d: Dependency)
    requires IsTopologicalOrder(o, ids, k) && d in k
    requires d.predecessorId in ids && d.successorId in ids
    ensures IndexOf(o, d.predecessorId) < IndexOf(o, d.successorId)
  {
    var j := IndexOf(o, d.successorId);
    assert d.predecessorId in o[..j];
    var i :| 0 <= i < j && o[..j][i] == d.predecessorId;
    var a := IndexOf(o, d.predecessorId);
    forall m | 0 <= m < a
      ensures o[m] != d.predecessorId
    {
      assert o[..a][m] == o[m];
    }
    assert o[i] == d.predecessorId;
  }

  /** Along a path, positions in a topological order strictly increase, so the
      path cannot end where it started. */
  lemma PathMovesForward(o: seq<TaskId>, ids: seq<TaskId>, k: seq<Dependency>, c: seq<Dependency>)
    requires IsTopologicalOrder(o, ids, k)
    requires IsPath(c, k)
    requires forall d | d in k :: d.predecessorId in ids && d.successorId in ids
    ensures IndexOf(o, c[0].predecessorId) < IndexOf(o, c[|c| - 1].successorId)
  {
    PathPrefixForward(o, ids, k, c, |c| - 1);
  }

  /** The first `j + 1` edges of a path already lead forward in the order. */
  lemma {:induction false} PathPrefixForward(o: seq<TaskId>, ids: seq<TaskId>, k: seq<Dependency>,
                                             c: seq<Dependency>, j: nat)
    requires IsTopologicalOrder(o, ids, k)
    requires IsPath(c, k) && j < |c|
    requires forall d | d in k :: d.predecessorId in ids && d.successorId in ids
    ensures IndexOf(o, c[0].predecessorId) < IndexOf(o, c[j].successorId)
  {
    var d := c[j];
    assert d in k;
    EdgeGoesForward(o, ids, k, d);
    if j > 0 {
      PathPrefixForward(o, ids, k, c, j - 1);
      assert c[j - 1].successorId == d.predecessorId;
    }
  }

  lemma PathMovesForwardInEveryOrder(ids: seq<TaskId>, k: seq<Dependency>, c: seq<Dependency>)
    requires IsPath(c, k)
    requires forall d | d in k :: d.predecessorId in ids && d.successorId in ids
    ensures forall o | IsTopologicalOrder(o, ids, k) ::
      IndexOf(o, c[0].predecessorId) < IndexOf(o, c[|c| - 1].successorId)
  {
    forall o | IsTopologicalOrder(o, ids, k)
      ensures IndexOf(o, c[0].predecessorId) < IndexOf(o, c[|c| - 1].successorId)
    {
      PathMovesForward(o, ids, k, c);
    }
  }

  /** A cycle of kept edges rules out every topological order. */
  lemma CycleIsNotAcyclic(ids: seq<TaskId>, k: seq<Dependency>, c: seq<Dependency>)
    requires IsCycle(c, k)
    requires forall d | d in k :: d.predecessorId in ids && d.successorId in ids
    ensures !Acyclic(ids, k)
  {
    PathMovesForwardInEveryOrder(ids, k, c);
  }

  // ---------------------------------------------------------------------------
  // Counting edges

  /** Kept edges into `v` whose source is not yet in `done`: what the working
      in-degree of `v` should be once `done` has been processed. */
  ghost function Pending(k: seq<Dependency>, v: TaskId, done: set<TaskId>): nat
    decreases |k|
  {
    if k == [] then 0
    else
      var last := k[|k| - 1];
      Pending(k[..|k| - 1], v, done) + (if last.successorId == v && last.predecessorId !in done then 1 else 0)
  }

  /** Number of edges of `ds` entering `v`. */
  ghost function CountInto(ds: seq<Dependency>, v: TaskId): nat
    decreases |ds|
  {
    if ds == [] then 0
    else CountInto(ds[..|ds| - 1], v) + (if ds[|ds| - 1].successorId == v then 1 else 0)
  }

  lemma {:induction false} PendingOfNothingDone(k: seq<Dependency>, v: TaskId)
    ensures Pending(k, v, {}) == |Into(k, v)|
    decreases |k|
  {
    if k != [] {
      PendingOfNothingDone(k[..|k| - 1], v);
    }
  }

  lemma {:induction false} PendingZero(k: seq<Dependency>, v: TaskId, done: set<TaskId>)
    ensures Pending(k, v, done) == 0 <==>
      forall d | d in k && d.successorId == v :: d.predecessorId in done
    decreases |k|
  {
    if k != [] {
      var init := k[..|k| - 1];
      PendingZero(init, v, done);
      assert k == init + [k[|k| - 1]];
    }
  }

  /** Processing `u` removes exactly its edges into `v` from the pending count. */
  lemma {:induction false} PendingAfter(k: seq<Dependency>, v: TaskId, done: set<TaskId>, u: TaskId)
    requires u !in done
    ensures Pending(k, v, done + {u}) + CountInto(From(k, u), v) == Pending(k, v, done)
    decreases |k|
  {
    if k != [] {
      PendingAfter(k[..|k| - 1], v, done, u);
      var last := k[|k| - 1];
      var f := From(k[..|k| - 1], u);
      if last.predecessorId == u {
        assert (f + [last])[..|f|] == f;
      } else {
        assert f + [] == f;
      }
    }
  }

  lemma CountIntoStep(ds: seq<Dependency>, j: nat, v: TaskId)
    requires j < |ds|
    ensures CountInto(ds[..j + 1], v) == CountInto(ds[..j], v) + (if ds[j].successorId == v then 1 else 0)
  {
    assert ds[..j + 1][..j] == ds[..j];
  }

  lemma {:induction false} CountIntoPrefix(ds: seq<Dependency>, j: nat, v: TaskId)
    requires j <= |ds|
    ensures CountInto(ds[..j], v) <= CountInto(ds, v)
    decreases |ds| - j
  {
    if j < |ds| {
      CountIntoStep(ds, j, v);
      CountIntoPrefix(ds, j + 1, v);
    } else {
      assert ds[..j] == ds;
    }
  }

  // ---------------------------------------------------------------------------
  // Release order

  ghost predicate IsPred(k: seq<Dependency>, u: TaskId, v: TaskId) {
    exists d | d in k :: d.predecessorId == u && d.successorId == v
  }

  /** Position in `s` of the last kept predecessor of `v`, or -1 when `s` holds
      none: the task whose processing released `v`. */
  ghost function ReleasedBy(s: seq<TaskId>, k: seq<Dependency>, v: TaskId): (r: int)
    ensures -1 <= r < |s|
    decreases |s|
  {
    if s == [] then -1
    else if IsPred(k, s[|s| - 1], v) then |s| - 1
    else ReleasedBy(s[..|s| - 1], k, v)
  }

  lemma ReleasedByAppend(s: seq<TaskId>, k: seq<Dependency>, u: TaskId, v: TaskId)
    ensures ReleasedBy(s + [u], k, v) == if IsPred(k, u, v) then |s| else ReleasedBy(s, k, v)
  {
    assert (s + [u])[..|s|] == s;
  }

  /** Release positions never decrease along `xs`. */
  ghost predicate ReleaseOrdered(s: seq<TaskId>, k: seq<Dependency>, xs: seq<TaskId>) {
    forall p, q | 0 <= p < q < |xs| :: ReleasedBy(s, k, xs[p]) <= ReleasedBy(s, k, xs[q])
  }

  /** The tasks of in-degree 0, in declaration order: the initial queue. */
  function Seeds(ids: seq<TaskId>, inDegree: map<TaskId, int>): (q: seq<TaskId>)
    requires forall i | 0 <= i < |ids| :: ids[i] in inDegree
    ensures forall x :: x in q <==> x in ids && inDegree[x] == 0
    ensures Distinct(ids) ==> Distinct(q)
  {
    if ids == [] then []
    else
      var rest := Seeds(ids[1..], inDegree);
      if inDegree[ids[0]] == 0 then [ids[0]] + rest else rest
  }

  // ---------------------------------------------------------------------------
  // Cardinalities

  ghost function Elems(xs: seq<TaskId>): set<TaskId> {
    set x | x in xs
  }

  lemma {:induction false} DistinctCard(xs: seq<TaskId>)
    requires Distinct(xs)
    ensures |Elems(xs)| == |xs|
    decreases |xs|
  {
    if xs != [] {
      var init := xs[..|xs| - 1];
      DistinctCard(init);
      assert Elems(xs) == Elems(init) + {xs[|xs| - 1]};
      assert xs[|xs| - 1] !in Elems(init);
    }
  }

  lemma DistinctSubsetCard(xs: seq<TaskId>, ids: seq<TaskId>)
    requires Distinct(xs) && Distinct(ids)
    requires forall x | x in xs :: x in ids
    ensures |xs| <= |ids|
    ensures |xs| == |ids| ==> forall x :: x in ids <==> x in xs
  {
    DistinctCard(xs);
    DistinctCard(ids);
    var diff := Elems(ids) - Elems(xs);
    assert Elems(ids) == Elems(xs) + diff;
    assert Elems(xs) * diff == {};
    if |xs| == |ids| {
      assert diff == {};
      forall x | x in ids
        ensures x in xs
      {
        assert x in Elems(ids) && x !in diff;
      }
    }
  }

  // ---------------------------------------------------------------------------
  // Completeness

  /** If every task left out still waits for an edge from a task left out, a
      topological order cannot exist unless nothing is left out. */
  lemma AcyclicLeavesNoneStuck(ids: seq<TaskId>, k: seq<Dependency>, sorted: seq<TaskId>)
    requires forall v | v in ids && v !in sorted :: Pending(k, v, Elems(sorted)) > 0
    requires Acyclic(ids, k)
    ensures forall v | v in ids :: v in sorted
  {
    var o :| IsTopologicalOrder(o, ids, k);
    var i := 0;
    while i < |o|
      invariant 0 <= i <= |o|
      invariant forall j | 0 <= j < i :: o[j] in sorted
    {
      forall d | d in k && d.successorId == o[i]
        ensures d.predecessorId in Elems(sorted)
      {
        assert d.predecessorId in o[..i];
      }
      PendingZero(k, o[i], Elems(sorted));
      i := i + 1;
    }
  }

  // ---------------------------------------------------------------------------
  // The algorithm

  /** The loop state: `sorted` then `queue` lists distinct known tasks, starting
      with the seeds; a task is placed or queued exactly when its working
      in-degree is 0; that in-degree counts the kept edges from tasks outside
      `done`, less the edges of `released` already taken off; placed tasks
      follow their predecessors; release positions never decrease. */
  ghost predicate KahnState(idset: set<TaskId>, k: seq<Dependency>, seeds: seq<TaskId>,
                            sorted: seq<TaskId>, queue: seq<TaskId>, inDegree: map<TaskId, int>,
                            done: set<TaskId>, released: seq<Dependency>)
  {
    && inDegree.Keys == idset
    && Distinct(sorted + queue)
    && (forall x | x in sorted + queue :: x in idset)
    && (forall v | v in idset :: inDegree[v] == Pending(k, v, done) - CountInto(released, v))
    && (forall v | v in idset :: v in sorted + queue <==> inDegree[v] == 0)
    && seeds <= sorted + queue
    && PredecessorsFirst(sorted, k)
    && ReleaseOrdered(sorted, k, sorted + queue)
  }

  lemma InitialState(ids: seq<TaskId>, g: Graph, k: seq<Dependency>)
    requires Distinct(ids)
    requires IsGraphOf(g, Elems(ids), k)
    ensures KahnState(Elems(ids), k, Seeds(ids, g.inDegree), [], Seeds(ids, g.inDegree), g.inDegree, {}, [])
  {
    var seeds := Seeds(ids, g.inDegree);
    assert [] + seeds == seeds;
    forall v | v in Elems(ids)
      ensures g.inDegree[v] == Pending(k, v, {})
    {
      PendingOfNothingDone(k, v);
    }
  }

  /** Moving the head of the queue to the output keeps the state, with the
      head's edges not yet taken off. */
  lemma Dequeue(idset: set<TaskId>, k: seq<Dependency>, seeds: seq<TaskId>,
                sorted: seq<TaskId>, queue: seq<TaskId>, inDegree: map<TaskId, int>)
    requires queue != []
    requires KahnState(idset, k, seeds, sorted, queue, inDegree, Elems(sorted), [])
    ensures queue[0] !in Elems(sorted)
    ensures KahnState(idset, k, seeds, sorted + [queue[0]], queue[1..], inDegree, Elems(sorted), [])
  {
    var u := queue[0];
    var before := sorted + queue;
    assert sorted + [u] + queue[1..] == before;
    assert before[|sorted|] == u;
    forall i | 0 <= i < |sorted|
      ensures sorted[i] != u
    {
      assert before[i] == sorted[i];
    }
    PlaceKeepsOrder(k, sorted, u);
    forall x | x in before
      ensures !IsPred(k, u, x)
    {
      NoEdgeIntoReleased(k, sorted, u, x);
    }
    PlaceKeepsRelease(k, sorted, u, before);
  }

  /** Taking one edge `u -> v` off keeps the state, enqueueing `v` when its
      in-degree reaches 0. */
  lemma ReleaseEdge(idset: set<TaskId>, k: seq<Dependency>, seeds: seq<TaskId>,
                    sorted: seq<TaskId>, queue: seq<TaskId>, inDegree: map<TaskId, int>,
                    done: set<TaskId>, u: TaskId, succs: seq<Dependency>, j: nat)
    requires forall d | d in k :: d.predecessorId in idset && d.successorId in idset
    requires u !in done && succs == From(k, u) && j < |succs|
    requires |sorted| > 0 && sorted[|sorted| - 1] == u
    requires KahnState(idset, k, seeds, sorted, queue, inDegree, done, succs[..j])
    ensures var v := succs[j].successorId;
      var inDegree' := inDegree[v := inDegree[v] - 1];
      var queue' := if inDegree'[v] == 0 then queue + [v] else queue;
      KahnState(idset, k, seeds, sorted, queue', inDegree', done, succs[..j + 1])
  {
    var v := succs[j].successorId;
    assert succs[j] in k;
    ReleaseStep(k, done, u, succs, j, inDegree[v]);
    ReleaseCounts(idset, k, inDegree, done, succs, j);
    if inDegree[v] == 1 {
      ReleaseEnqueue(idset, k, seeds, sorted, queue, inDegree, done, u, succs, j);
    }
  }

  /** The edge that brings its target's in-degree to 0 puts the target at the
      back of the queue. */
  lemma ReleaseEnqueue(idset: set<TaskId>, k: seq<Dependency>, seeds: seq<TaskId>,
                       sorted: seq<TaskId>, queue: seq<TaskId>, inDegree: map<TaskId, int>,
                       done: set<TaskId>, u: TaskId, succs: seq<Dependency>, j: nat)
    requires succs == From(k, u) && j < |succs| && succs[j] in k
    requires |sorted| > 0 && sorted[|sorted| - 1] == u
    requires KahnState(idset, k, seeds, sorted, queue, inDegree, done, succs[..j])
    requires succs[j].successorId in idset && inDegree[succs[j].successorId] == 1
    requires var v := succs[j].successorId;
      forall x | x in idset :: inDegree[v := 0][x] == Pending(k, x, done) - CountInto(succs[..j + 1], x)
    ensures var v := succs[j].successorId;
      KahnState(idset, k, seeds, sorted, queue + [v], inDegree[v := 0], done, succs[..j + 1])
  {
    var v := succs[j].successorId;
    assert IsPred(k, u, v);
    EnqueueKeepsOrder(k, sorted, queue, u, v);
    assert sorted + (queue + [v]) == sorted + queue + [v];
  }

  /** Taking edge `j` off lowers its target's in-degree by one and keeps every
      in-degree equal to the pending count less the edges taken off. */
  lemma ReleaseCounts(idset: set<TaskId>, k: seq<Dependency>, inDegree: map<TaskId, int>,
                      done: set<TaskId>, succs: seq<Dependency>, j: nat)
    requires j < |succs| && succs[j].successorId in idset && inDegree.Keys == idset
    requires forall v | v in idset :: inDegree[v] == Pending(k, v, done) - CountInto(succs[..j], v)
    ensures var v := succs[j].successorId;
      var inDegree' := inDegree[v := inDegree[v] - 1];
      forall x | x in idset :: inDegree'[x] == Pending(k, x, done) - CountInto(succs[..j + 1], x)
  {
    forall x | x in idset
      ensures CountInto(succs[..j + 1], x) == CountInto(succs[..j], x) + (if succs[j].successorId == x then 1 else 0)
    {
      CountIntoStep(succs, j, x);
    }
  }

  /** Once all of `u`'s edges are off, the in-degrees count from the placed
      tasks again. */
  lemma FinishRelease(idset: set<TaskId>, k: seq<Dependency>, seeds: seq<TaskId>,
                      sorted: seq<TaskId>, queue: seq<TaskId>, inDegree: map<TaskId, int>,
                      done: set<TaskId>, u: TaskId)
    requires u !in done && Elems(sorted) == done + {u}
    requires KahnState(idset, k, seeds, sorted, queue, inDegree, done, From(k, u))
    ensures KahnState(idset, k, seeds, sorted, queue, inDegree, Elems(sorted), [])
  {
    forall v | v in idset
      ensures inDegree[v] == Pending(k, v, Elems(sorted))
    {
      PendingAfter(k, v, done, u);
    }
  }

  /** `topologicalSort`. The output lists distinct tasks, starts with the
      in-degree-0 tasks in declaration order, puts every task after all its
      kept predecessors, keeps the first-in first-out release order, and holds
      every task exactly when the kept graph is acyclic. */
  method TopologicalSort(ids: seq<TaskId>, g: Graph, ghost k: seq<Dependency>) returns (sorted: seq<TaskId>)
    requires Distinct(ids)
    requires IsGraphOf(g, Elems(ids), k)
    ensures Distinct(sorted) && forall x | x in sorted :: x in ids
    ensures Seeds(ids, g.inDegree) <= sorted
    ensures PredecessorsFirst(sorted, k)
    ensures ReleaseOrdered(sorted, k, sorted)
    ensures |sorted| == |ids| <==> Acyclic(ids, k)
  {
    ghost var idset := Elems(ids);
    ghost var seeds := Seeds(ids, g.inDegree);
    var queue := Seeds(ids, g.inDegree);
    var inDegree := g.inDegree;
    sorted := [];
    InitialState(ids, g, k);
    assert Elems(sorted) == {};

    while queue != []
      invariant KahnState(idset, k, seeds, sorted, queue, inDegree, Elems(sorted), [])
      invariant |sorted| <= |ids|
      decreases |ids| - |sorted|
    {
      sorted, queue, inDegree := KahnStep(ids, g, k, seeds, sorted, queue, inDegree);
    }
    EmptyQueue(ids, k, seeds, sorted, inDegree);
    Complete(ids, k, sorted);
  }

  /** One round of the loop: the head of the queue is output and its
      successors released. */
  method KahnStep(ghost ids: seq<TaskId>, g: Graph, ghost k: seq<Dependency>, ghost seeds: seq<TaskId>,
                  sorted0: seq<TaskId>, queue0: seq<TaskId>, inDegree0: map<TaskId, int>)
    returns (sorted: seq<TaskId>, queue: seq<TaskId>, inDegree: map<TaskId, int>)
    requires Distinct(ids)
    requires IsGraphOf(g, Elems(ids), k)
    requires queue0 != []
    requires KahnState(Elems(ids), k, seeds, sorted0, queue0, inDegree0, Elems(sorted0), [])
    ensures KahnState(Elems(ids), k, seeds, sorted, queue, inDegree, Elems(sorted), [])
    ensures |sorted| == |sorted0| + 1 && |sorted| <= |ids|
  {
    ghost var idset := Elems(ids);
    ghost var done := Elems(sorted0);
    var u := queue0[0];
    Dequeue(idset, k, seeds, sorted0, queue0, inDegree0);
    sorted := sorted0 + [u];
    assert Elems(sorted) == done + {u};
    queue, inDegree := ReleaseSuccessors(idset, k, seeds, sorted, queue0[1..], inDegree0, done, u, g.successors[u]);
    Bounded(ids, k, seeds, sorted, queue, inDegree);
  }

  /** The inner loop: takes each edge leaving the task just placed off its
      target's in-degree, enqueueing the targets that reach 0. */
  method ReleaseSuccessors(ghost idset: set<TaskId>, ghost k: seq<Dependency>, ghost seeds: seq<TaskId>,
                           ghost sorted: seq<TaskId>, queue0: seq<TaskId>, inDegree0: map<TaskId, int>,
                           ghost done: set<TaskId>, u: TaskId, succs: seq<Dependency>)
    returns (queue: seq<TaskId>, inDegree: map<TaskId, int>)
    requires forall d | d in k :: d.predecessorId in idset && d.successorId in idset
    requires u !in done && succs == From(k, u)
    requires |sorted| > 0 && sorted[|sorted| - 1] == u && Elems(sorted) == done + {u}
    requires KahnState(idset, k, seeds, sorted, queue0, inDegree0, done, [])
    ensures KahnState(idset, k, seeds, sorted, queue, inDegree, Elems(sorted), [])
    ensures queue0 <= queue
  {
    queue, inDegree := queue0, inDegree0;
    var j := 0;
    while j < |succs|
      invariant 0 <= j <= |succs|
      invariant KahnState(idset, k, seeds, sorted, queue, inDegree, done, succs[..j])
      invariant queue0 <= queue
    {
      queue, inDegree := ReleaseOne(idset, k, seeds, sorted, queue, inDegree, done, u, succs, j);
      j := j + 1;
    }
    assert succs[..j] == succs;
    FinishRelease(idset, k, seeds, sorted, queue, inDegree, done, u);
  }

  /** One turn of the inner loop: edge `j` comes off its target's in-degree,
      and the target joins the queue when that reaches 0. */
  method ReleaseOne(ghost idset: set<TaskId>, ghost k: seq<Dependency>, ghost seeds: seq<TaskId>,
                    ghost sorted: seq<TaskId>, queue0: seq<TaskId>, inDegree0: map<TaskId, int>,
                    ghost done: set<TaskId>, u: TaskId, succs: seq<Dependency>, j: nat)
    returns (queue: seq<TaskId>, inDegree: map<TaskId, int>)
    requires forall d | d in k :: d.predecessorId in idset && d.successorId in idset
    requires u !in done && succs == From(k, u) && j < |succs|
    requires |sorted| > 0 && sorted[|sorted| - 1] == u
    requires KahnState(idset, k, seeds, sorted, queue0, inDegree0, done, succs[..j])
    ensures KahnState(idset, k, seeds, sorted, queue, inDegree, done, succs[..j + 1])
    ensures queue0 <= queue
  {
    ReleaseEdge(idset, k, seeds, sorted, queue0, inDegree0, done, u, succs, j);
    var v := succs[j].successorId;
    inDegree := inDegree0[v := inDegree0[v] - 1];
    queue := if inDegree[v] == 0 then queue0 + [v] else queue0;
  }

  /** With the queue empty, the state gives the sort's postconditions except
      completeness, and every task left out still waits for an edge. */
  lemma EmptyQueue(ids: seq<TaskId>, k: seq<Dependency>, seeds: seq<TaskId>,
                   sorted: seq<TaskId>, inDegree: map<TaskId, int>)
    requires KahnState(Elems(ids), k, seeds, sorted, [], inDegree, Elems(sorted), [])
    ensures Distinct(sorted) && forall x | x in sorted :: x in ids
    ensures seeds <= sorted
    ensures PredecessorsFirst(sorted, k)
    ensures ReleaseOrdered(sorted, k, sorted)
    ensures forall v | v in ids && v !in sorted :: Pending(k, v, Elems(sorted)) > 0
  {
    assert sorted + [] == sorted;
    forall x | x in sorted
      ensures x in ids
    {
      assert x in Elems(ids);
    }
    forall v | v in ids && v !in sorted
      ensures Pending(k, v, Elems(sorted)) > 0
    {
      assert v in Elems(ids);
    }
  }

  /** The output holds every task exactly when the kept graph is acyclic. */
  lemma Complete(ids: seq<TaskId>, k: seq<Dependency>, sorted: seq<TaskId>)
    requires Distinct(ids)
    requires Distinct(sorted) && forall x | x in sorted :: x in ids
    requires PredecessorsFirst(sorted, k)
    requires forall v | v in ids && v !in sorted :: Pending(k, v, Elems(sorted)) > 0
    ensures |sorted| == |ids| <==> Acyclic(ids, k)
  {
    if Acyclic(ids, k) {
      AcyclicLeavesNoneStuck(ids, k, sorted);
      DistinctCard(sorted);
      DistinctCard(ids);
      assert Elems(sorted) == Elems(ids);
    }
    if |sorted| == |ids| {
      DistinctSubsetCard(sorted, ids);
      assert IsTopologicalOrder(sorted, ids, k);
    }
  }

  /** The output holds distinct known tasks, so no more of them than there are
      tasks. */
  lemma Bounded(ids: seq<TaskId>, k: seq<Dependency>, seeds: seq<TaskId>,
                sorted: seq<TaskId>, queue: seq<TaskId>, inDegree: map<TaskId, int>)
    requires Distinct(ids)
    requires KahnState(Elems(ids), k, seeds, sorted, queue, inDegree, Elems(sorted), [])
    ensures |sorted| <= |ids|
  {
    var sq := sorted + queue;
    forall i, j | 0 <= i < j < |sorted|
      ensures sorted[i] != sorted[j]
    {
      assert sq[i] == sorted[i] && sq[j] == sorted[j];
    }
    forall x | x in sorted
      ensures x in ids
    {
      assert x in sq;
    }
    DistinctSubsetCard(sorted, ids);
  }

  /** Moving the head of the queue into the output keeps every task behind its
      kept predecessors. */
  lemma PlaceKeepsOrder(k: seq<Dependency>, s: seq<TaskId>, u: TaskId)
    requires Pending(k, u, Elems(s)) == 0
    requires PredecessorsFirst(s, k)
    ensures PredecessorsFirst(s + [u], k)
  {
    PendingZero(k, u, Elems(s));
    assert (s + [u])[..|s|] == s;
  }

  /** A task that is not yet placed has no kept edge into a task whose
      predecessors are all placed. */
  lemma NoEdgeIntoReleased(k: seq<Dependency>, s: seq<TaskId>, u: TaskId, x: TaskId)
    requires u !in s
    requires Pending(k, x, Elems(s)) == 0
    ensures !IsPred(k, u, x)
  {
    PendingZero(k, x, Elems(s));
    forall d | d in k && d.successorId == x
      ensures d.predecessorId != u
    {
      assert d.predecessorId in Elems(s);
    }
  }

  /** Placing `u` leaves the release position of every task it has no edge
      into unchanged. */
  lemma PlaceKeepsRelease(k: seq<Dependency>, s: seq<TaskId>, u: TaskId, xs: seq<TaskId>)
    requires forall x | x in xs :: !IsPred(k, u, x)
    requires ReleaseOrdered(s, k, xs)
    ensures ReleaseOrdered(s + [u], k, xs)
  {
    forall x | x in xs
      ensures ReleasedBy(s + [u], k, x) == ReleasedBy(s, k, x)
    {
      ReleasedByAppend(s, k, u, x);
    }
  }

  lemma ReleaseStep(k: seq<Dependency>, done: set<TaskId>, u: TaskId, succs: seq<Dependency>, j: nat, current: int)
    requires u !in done && succs == From(k, u) && j < |succs|
    requires current == Pending(k, succs[j].successorId, done) - CountInto(succs[..j], succs[j].successorId)
    ensures current >= 1
  {
    var v := succs[j].successorId;
    CountIntoStep(succs, j, v);
    CountIntoPrefix(succs, j + 1, v);
    PendingAfter(k, v, done, u);
  }

  lemma EnqueueKeepsOrder(k: seq<Dependency>, sorted: seq<TaskId>, queue: seq<TaskId>, u: TaskId, v: TaskId)
    requires |sorted| > 0 && sorted[|sorted| - 1] == u && IsPred(k, u, v)
    requires ReleaseOrdered(sorted, k, sorted + queue)
    ensures ReleaseOrdered(sorted, k, sorted + queue + [v])
  {
    assert ReleasedBy(sorted, k, v) == |sorted| - 1;
  }
}
