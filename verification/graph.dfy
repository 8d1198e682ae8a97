/** Graph construction: dependencies between known tasks become successor
    lists, predecessor lists and in-degrees; dependencies naming an unknown task
    are dropped without error. */
module Graph {
  import opened Dependencies
  import opened Tasks

  /** Task identifiers in declaration order. */
  function Ids(tasks: seq<Task>): (ids: seq<TaskId>)
    ensures |ids| == |tasks|
    ensures forall i | 0 <= i < |tasks| :: ids[i] == tasks[i].id
  {
    if tasks == [] then [] else [tasks[0].id] + Ids(tasks[1..])
  }

  function IdSet(tasks: seq<Task>): (s: set<TaskId>)
    ensures forall id :: id in s <==> exists i | 0 <= i < |tasks| :: tasks[i].id == id
  {
    set i | 0 <= i < |tasks| :: tasks[i].id
  }

  predicate UniqueIds(tasks: seq<Task>) {
    forall i, j | 0 <= i < j < |tasks| :: tasks[i].id != tasks[j].id
  }

  predicate Distinct(xs: seq<TaskId>) {
    forall i, j | 0 <= i < j < |xs| :: xs[i] != xs[j]
  }

  /** The dependencies whose two ends are known tasks, in input order. */
  function Kept(deps: seq<Dependency>, ids: set<TaskId>): (k: seq<Dependency>)
    ensures forall d :: d in k <==> d in deps && d.predecessorId in ids && d.successorId in ids
    decreases |deps|
  {
    if deps == [] then []
    else
      var last := deps[|deps| - 1];
      Kept(deps[..|deps| - 1], ids)
        + (if last.predecessorId in ids && last.successorId in ids then [last] else [])
  }

  /** The dependencies leaving `u`, in order. */
  function From(ds: seq<Dependency>, u: TaskId): (out: seq<Dependency>)
    ensures forall d :: d in out <==> d in ds && d.predecessorId == u
    decreases |ds|
  {
    if ds == [] then []
    else
      var last := ds[|ds| - 1];
      From(ds[..|ds| - 1], u) + (if last.predecessorId == u then [last] else [])
  }

  /** The dependencies entering `v`, in order. */
  function Into(ds: seq<Dependency>, v: TaskId): (inc: seq<Dependency>)
    ensures forall d :: d in inc <==> d in ds && d.successorId == v
    decreases |ds|
  {
    if ds == [] then []
    else
      var last := ds[|ds| - 1];
      Into(ds[..|ds| - 1], v) + (if last.successorId == v then [last] else [])
  }

  /** `successors`: outgoing edges; `predecessors`: incoming edges;
      `inDegree`: number of incoming edges. */
  datatype Graph = Graph(
    successors: map<TaskId, seq<Dependency>>,
    predecessors: map<TaskId, seq<Dependency>>,
    inDegree: map<TaskId, int>)

  /** `g` holds, for every task in `ids`, exactly the edges of `k` that touch it,
      in the order of `k`. */
  ghost predicate IsGraphOf(g: Graph, ids: set<TaskId>, k: seq<Dependency>) {
    && g.successors.Keys == ids
    && g.predecessors.Keys == ids
    && g.inDegree.Keys == ids
    && (forall d | d in k :: d.predecessorId in ids && d.successorId in ids)
    && (forall v | v in ids ::
          g.successors[v] == From(k, v)
          && g.predecessors[v] == Into(k, v)
          && g.inDegree[v] == |Into(k, v)|)
  }

  /** One iteration of the dependency loop: skip a dependency with a missing end,
      otherwise append it to both lists and count it. */
  function AddDependency(g: Graph, d: Dependency): Graph
    requires g.successors.Keys == g.predecessors.Keys == g.inDegree.Keys
  {
    if d.predecessorId !in g.successors || d.successorId !in g.successors then g
    else
      Graph(
        g.successors[d.predecessorId := g.successors[d.predecessorId] + [d]],
        g.predecessors[d.successorId := g.predecessors[d.successorId] + [d]],
        g.inDegree[d.successorId := g.inDegree[d.successorId] + 1])
  }

  /** `buildGraph`: every task starts with empty lists and in-degree 0, then the
      dependencies are added in order. The result is the graph of exactly the
      kept dependencies. */
  function BuildGraph(tasks: seq<Task>, deps: seq<Dependency>): (g: Graph)
    ensures IsGraphOf(g, IdSet(tasks), Kept(deps, IdSet(tasks)))
    decreases |deps|
  {
    var ids := IdSet(tasks);
    if deps == [] then
      Graph(map id | id in ids :: [], map id | id in ids :: [], map id | id in ids :: 0)
    else
      var last := deps[|deps| - 1];
      var prefix := deps[..|deps| - 1];
      var g := BuildGraph(tasks, prefix);
      assert deps == prefix + [last];
      KeptSnoc(prefix, last, ids);
      AddDependencyExtends(g, ids, Kept(prefix, ids), last);
      AddDependency(g, last)
  }

  /** Adding one dependency to the graph of `k` gives the graph of `k` extended
      by that dependency when both its ends are known, and the same graph
      otherwise. */
  lemma AddDependencyExtends(g: Graph, ids: set<TaskId>, k: seq<Dependency>, d: Dependency)
    requires IsGraphOf(g, ids, k)
    ensures IsGraphOf(AddDependency(g, d), ids,
                      k + (if d.predecessorId in ids && d.successorId in ids then [d] else []))
  {
    if d.predecessorId in ids && d.successorId in ids {
      var k' := k + [d];
      assert k'[..|k|] == k;
      var r := AddDependency(g, d);
      forall v | v in ids
        ensures r.successors[v] == From(k', v)
        ensures r.predecessors[v] == Into(k', v)
        ensures r.inDegree[v] == |Into(k', v)|
      {
      }
    } else {
      assert k + [] == k;
    }
  }

  lemma KeptSnoc(deps: seq<Dependency>, d: Dependency, ids: set<TaskId>)
    ensures Kept(deps + [d], ids)
         == Kept(deps, ids) + (if d.predecessorId in ids && d.successorId in ids then [d] else [])
  {
    assert (deps + [d])[..|deps|] == deps;
  }
}
