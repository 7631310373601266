/** Cancellation and deadline propagation (src/m365_mcp/xapp_cancellation_deadlines.py). */
module Propagation {
  import opened Results
  import opened Ordering
  import opened DependencyGraph
  import opened DagScheduler

  const MAX_NODES := 100

  datatype PropagationNode = PropagationNode(nodeId: string, dependsOn: seq<string>, deadline: Option<int>)

  datatype Disposition = Disposition(nodeId: string, cancelled: bool, deadline: Option<int>)

  datatype PlanError =
    | NoNodes
    | TooManyNodes
    | RootDeadlineNotPositive
    | DuplicateIds
    | UnknownDependency
    | DuplicateCancellations
    | UnknownCancellation
    | DependencyCycle

  // ----- what a plan should say, in terms of the graph alone

  /** Some cancelled node is n or one of its transitive dependencies. */
  ghost predicate Downstream(g: Graph, seeds: set<string>, n: string) {
    exists s | s in seeds :: Reaches(g, s, n)
  }

  /** v limits n: it is the root deadline, or one declared by n or a transitive dependency. */
  ghost predicate Limit(g: Graph, declared: map<string, Option<int>>, root: Option<int>, n: string, v: int) {
    || root == Some(v)
    || exists a | a in declared && Reaches(g, a, n) :: declared[a] == Some(v)
  }

  /** d is the least limit on n, or `None` when nothing limits n. */
  ghost predicate Tightest(g: Graph, declared: map<string, Option<int>>, root: Option<int>, n: string,
      d: Option<int>) {
    match d
    case None => forall v :: !Limit(g, declared, root, n, v)
    case Some(v) => Limit(g, declared, root, n, v) && forall w | Limit(g, declared, root, n, w) :: v <= w
  }

  /** One disposition for each node in id order: whether it is downstream of a seed, and its tightest
    deadline. */
  ghost predicate Correct(g: Graph, declared: map<string, Option<int>>, seeds: set<string>, root: Option<int>,
      plan: seq<Disposition>)
  {
    && |plan| == |Sorted(g.Keys)|
    && forall i | 0 <= i < |plan| ::
      && plan[i].nodeId == Sorted(g.Keys)[i]
      && (plan[i].cancelled <==> Downstream(g, seeds, plan[i].nodeId))
      && Tightest(g, declared, root, plan[i].nodeId, plan[i].deadline)
  }

  /** The graph, the declared deadlines and the sets of cancelled nodes determine the plan, so
    no input order can matter. */
  lemma CorrectPlanUnique(g: Graph, declared: map<string, Option<int>>, seeds: set<string>,
      root: Option<int>, p: seq<Disposition>, q: seq<Disposition>)
    requires Correct(g, declared, seeds, root, p) && Correct(g, declared, seeds, root, q)
    ensures p == q
  {
    forall i | 0 <= i < |p| ensures p[i] == q[i] {
      TightestUnique(g, declared, root, p[i].nodeId, p[i].deadline, q[i].deadline);
    }
  }

  lemma TightestUnique(g: Graph, declared: map<string, Option<int>>, root: Option<int>, n: string, d: Option<int>,
      e: Option<int>)
    requires Tightest(g, declared, root, n, d) && Tightest(g, declared, root, n, e)
    ensures d == e
  {
  }

  // ----- the correct plan exists

  ghost function Limits(g: Graph, declared: map<string, Option<int>>, root: Option<int>, n: string): set<int> {
    (set a | a in declared && Reaches(g, a, n) && declared[a].Some? :: declared[a].value)
    + (match root case None => {} case Some(v) => {v})
  }

  lemma LimitsExact(g: Graph, declared: map<string, Option<int>>, root: Option<int>, n: string, v: int)
    ensures v in Limits(g, declared, root, n) <==> Limit(g, declared, root, n, v)
  {
    if a :| a in declared && Reaches(g, a, n) && declared[a] == Some(v) {
      assert declared[a].value == v;
    }
  }

  ghost function ElementOf<T>(s: set<T>): (x: T)
    requires s != {}
    ensures x in s
  {
    var x :| x in s;
    x
  }

  lemma {:induction false} MinExists(s: set<int>) returns (m: int)
    requires s != {}
    ensures m in s && forall x | x in s :: m <= x
  {
    var x := ElementOf(s);
    m := x;
    if s != {x} {
      var rest := MinExists(s - {x});
      assert forall y | y in s :: y == x || y in s - {x};
      if rest < x {
        m := rest;
      }
    }
  }

  lemma TightestExists(g: Graph, declared: map<string, Option<int>>, root: Option<int>, n: string)
    ensures exists d :: Tightest(g, declared, root, n, d)
  {
    var limits := Limits(g, declared, root, n);
    forall v ensures v in limits <==> Limit(g, declared, root, n, v) {
      LimitsExact(g, declared, root, n, v);
    }
    if limits == {} {
      assert Tightest(g, declared, root, n, None);
    } else {
      var m := MinExists(limits);
      assert Tightest(g, declared, root, n, Some(m));
    }
  }

  ghost function TightestOf(g: Graph, declared: map<string, Option<int>>, root: Option<int>, n: string)
    : (d: Option<int>)
    ensures Tightest(g, declared, root, n, d)
  {
    TightestExists(g, declared, root, n);
    var d :| Tightest(g, declared, root, n, d);
    d
  }

  ghost function CorrectPlan(g: Graph, declared: map<string, Option<int>>, seeds: set<string>, root: Option<int>)
    : (plan: seq<Disposition>)
    ensures Correct(g, declared, seeds, root, plan)
  {
    var ids := Sorted(g.Keys);
    seq(|ids|, i requires 0 <= i < |ids| =>
      Disposition(ids[i], Downstream(g, seeds, ids[i]), TightestOf(g, declared, root, ids[i])))
  }

  // ----- cancellation

  ghost predicate AllDownstream(g: Graph, seeds: set<string>, ns: set<string>) {
    forall n | n in ns :: Downstream(g, seeds, n)
  }

  ghost predicate ExactlyDownstream(g: Graph, seeds: set<string>, ns: set<string>) {
    forall n :: n in ns <==> Downstream(g, seeds, n)
  }

  /** Closed under "depends on a cancelled node". */
  ghost predicate CancelClosed(g: Graph, cancelled: set<string>) {
    forall n | n in g && g[n] * cancelled != {} :: n in cancelled
  }

  lemma {:induction false} ClosedCoversChain(g: Graph, cancelled: set<string>, c: seq<string>)
    requires CancelClosed(g, cancelled) && Chain(g, c) && c != [] && c[0] in cancelled
    ensures c[|c| - 1] in cancelled
  {
    if |c| > 1 {
      ChainSlice(g, c, 0, |c| - 1);
      ClosedCoversChain(g, cancelled, c[0..|c| - 1]);
      assert c[|c| - 2] in g[c[|c| - 1]] * cancelled;
    }
  }

  /** The downstream nodes are the least closed set that contains the seeds. */
  lemma DownstreamLeast(g: Graph, seeds: set<string>, cancelled: set<string>)
    requires seeds <= cancelled && CancelClosed(g, cancelled)
    ensures AllDownstream(g, seeds, cancelled) ==> ExactlyDownstream(g, seeds, cancelled)
  {
    forall n | Downstream(g, seeds, n) ensures n in cancelled {
      var s :| s in seeds && Reaches(g, s, n);
      var c :| ChainBetween(g, c, s, n);
      ClosedCoversChain(g, cancelled, c);
    }
  }

  lemma DownstreamStep(g: Graph, seeds: set<string>, d: string, n: string)
    requires Closed(g) && n in g && d in g[n] && Downstream(g, seeds, d)
    ensures Downstream(g, seeds, n)
  {
    var s :| s in seeds && Reaches(g, s, d);
    ReachesStep(g, s, n);
  }

  // ----- deadlines

  ghost predicate AllTightest(g: Graph, declared: map<string, Option<int>>, root: Option<int>,
      ds: map<string, Option<int>>)
  {
    forall n | n in ds :: Tightest(g, declared, root, n, ds[n])
  }

  /** `[x for x in values if x is not None]` */
  function Present(values: seq<Option<int>>): seq<int> {
    if values == [] then []
    else (if values[0].Some? then [values[0].value] else []) + Present(values[1..])
  }

  function Least(s: seq<int>): (m: int)
    requires s != []
    ensures m in s && forall x | x in s :: m <= x
  {
    if |s| == 1 then s[0]
    else
      var m := Least(s[1..]);
      assert forall x | x in s :: x == s[0] || x in s[1..];
      if s[0] < m then s[0] else m
  }

  /** `min(candidates) if candidates else None` */
  function LeastPresent(values: seq<Option<int>>): Option<int> {
    if Present(values) == [] then None else Some(Least(Present(values)))
  }

  lemma {:induction false} PresentExact(values: seq<Option<int>>)
    ensures forall v :: v in Present(values) <==> Some(v) in values
  {
    if values != [] {
      PresentExact(values[1..]);
      assert values == [values[0]] + values[1..];
    }
  }

  /** `[deadlines[dep] for dep in deps]` */
  function Lookup(deadlines: map<string, Option<int>>, deps: seq<string>): (r: seq<Option<int>>)
    requires forall d | d in deps :: d in deadlines
    ensures |r| == |deps| && forall i | 0 <= i < |r| :: r[i] == deadlines[deps[i]]
  {
    if deps == [] then [] else [deadlines[deps[0]]] + Lookup(deadlines, deps[1..])
  }

  lemma LimitStep(g: Graph, declared: map<string, Option<int>>, root: Option<int>, n: string, v: int)
    requires Closed(g) && declared.Keys == g.Keys && n in g
    ensures Limit(g, declared, root, n, v) <==>
      || root == Some(v) || declared[n] == Some(v)
      || exists d | d in g[n] :: Limit(g, declared, root, d, v)
  {
    if a :| a in declared && Reaches(g, a, n) && declared[a] == Some(v) {
      ReachesStep(g, a, n);
      if a != n {
        var d :| d in g[n] && Reaches(g, a, d);
        assert Limit(g, declared, root, d, v);
      }
    }
    if declared[n] == Some(v) {
      ReachesSelf(g, n);
    } else if d :| d in g[n] && Limit(g, declared, root, d, v) {
      if root != Some(v) {
        var a :| a in declared && Reaches(g, a, d) && declared[a] == Some(v);
        ReachesStep(g, a, n);
      }
    }
  }

  /** The minimum over a node's own deadline, the root and the results of its dependencies is
    the minimum over all its transitive dependencies. */
  lemma TightestStep(g: Graph, declared: map<string, Option<int>>, root: Option<int>, n: string, deps: seq<string>,
      deadlines: map<string, Option<int>>)
    requires Closed(g) && declared.Keys == g.Keys && n in g && g[n] == Elements(deps)
    requires forall d | d in deps :: d in deadlines && Tightest(g, declared, root, d, deadlines[d])
    ensures Tightest(g, declared, root, n, LeastPresent([root, declared[n]] + Lookup(deadlines, deps)))
  {
    var values := [root, declared[n]] + Lookup(deadlines, deps);
    PresentExact(values);
    forall v | v in Present(values) ensures Limit(g, declared, root, n, v) {
      CandidateIsLimit(g, declared, root, n, deps, deadlines, v);
    }
    forall v | Limit(g, declared, root, n, v) ensures exists u | u in Present(values) :: u <= v {
      LimitHasCandidate(g, declared, root, n, deps, deadlines, v);
    }
  }

  lemma CandidateIsLimit(g: Graph, declared: map<string, Option<int>>, root: Option<int>, n: string,
      deps: seq<string>, deadlines: map<string, Option<int>>, v: int)
    requires Closed(g) && declared.Keys == g.Keys && n in g && g[n] == Elements(deps)
    requires forall d | d in deps :: d in deadlines && Tightest(g, declared, root, d, deadlines[d])
    requires Some(v) in [root, declared[n]] + Lookup(deadlines, deps)
    ensures Limit(g, declared, root, n, v)
  {
    LimitStep(g, declared, root, n, v);
    if root != Some(v) && declared[n] != Some(v) {
      var i :| 0 <= i < |deps| && Lookup(deadlines, deps)[i] == Some(v);
      assert deps[i] in g[n] && Limit(g, declared, root, deps[i], v);
    }
  }

  lemma TightestBelow(g: Graph, declared: map<string, Option<int>>, root: Option<int>, n: string, d: Option<int>,
      v: int)
    requires Tightest(g, declared, root, n, d) && Limit(g, declared, root, n, v)
    ensures d.Some? && d.value <= v
  {
  }

  lemma LimitHasCandidate(g: Graph, declared: map<string, Option<int>>, root: Option<int>, n: string,
      deps: seq<string>, deadlines: map<string, Option<int>>, v: int)
    requires Closed(g) && declared.Keys == g.Keys && n in g && g[n] == Elements(deps)
    requires forall d | d in deps :: d in deadlines && Tightest(g, declared, root, d, deadlines[d])
    requires Limit(g, declared, root, n, v)
    ensures exists u | u in Present([root, declared[n]] + Lookup(deadlines, deps)) :: u <= v
  {
    var values := [root, declared[n]] + Lookup(deadlines, deps);
    PresentExact(values);
    LimitStep(g, declared, root, n, v);
    if root == Some(v) {
      assert values[0] == Some(v);
    } else if declared[n] == Some(v) {
      assert values[1] == Some(v);
    } else {
      var d :| d in g[n] && Limit(g, declared, root, d, v);
      assert d in Elements(deps);
      TightestBelow(g, declared, root, d, deadlines[d], v);
      var i :| 0 <= i < |deps| && deps[i] == d;
      assert values[i + 2] == deadlines[d];
    }
  }

  // ----- the planner

  function Plain(nodes: seq<PropagationNode>): (r: seq<DagScheduleNode>)
    ensures |r| == |nodes|
    ensures forall i | 0 <= i < |nodes| :: r[i] == DagScheduleNode(nodes[i].nodeId, nodes[i].dependsOn)
  {
    seq(|nodes|, i requires 0 <= i < |nodes| => DagScheduleNode(nodes[i].nodeId, nodes[i].dependsOn))
  }

  /** `{node.node_id: node for node in nodes}` */
  function ById(nodes: seq<PropagationNode>): map<string, PropagationNode> {
    if nodes == [] then map[]
    else
      var last := nodes[|nodes| - 1];
      ById(nodes[..|nodes| - 1])[last.nodeId := last]
  }

  function DeclaredIn(byId: map<string, PropagationNode>): map<string, Option<int>> {
    map k | k in byId :: byId[k].deadline
  }

  function Declared(nodes: seq<PropagationNode>): map<string, Option<int>> {
    DeclaredIn(ById(nodes))
  }

  function Precheck(nodes: seq<PropagationNode>, cancellations: seq<string>, root: Option<int>): Option<PlanError> {
    if nodes == [] then Some(PlanError.NoNodes)
    else if |nodes| > MAX_NODES then Some(PlanError.TooManyNodes)
    else if root.Some? && root.value <= 0 then Some(RootDeadlineNotPositive)
    else if |Elements(Ids(Plain(nodes)))| != |nodes| then Some(PlanError.DuplicateIds)
    else if Unknown(Plain(nodes)) then Some(PlanError.UnknownDependency)
    else if |cancellations| != |Elements(cancellations)| then Some(DuplicateCancellations)
    else if !(Elements(cancellations) <= Elements(Ids(Plain(nodes)))) then Some(UnknownCancellation)
    else None
  }

  // ----- the inputs that are admitted

  ghost predicate DistinctNodes(nodes: seq<PropagationNode>) {
    forall i, j | 0 <= i < j < |nodes| :: nodes[i].nodeId != nodes[j].nodeId
  }

  ghost predicate IsNodeId(nodes: seq<PropagationNode>, id: string) {
    exists i :: 0 <= i < |nodes| && nodes[i].nodeId == id
  }

  ghost predicate DependenciesAreNodes(nodes: seq<PropagationNode>) {
    forall i, d | 0 <= i < |nodes| && d in nodes[i].dependsOn :: IsNodeId(nodes, d)
  }

  ghost predicate CancellationsAreNodes(nodes: seq<PropagationNode>, cancellations: seq<string>) {
    forall c | c in cancellations :: IsNodeId(nodes, c)
  }

  /** One to a hundred nodes, and a root deadline that is positive if there is one. */
  ghost predicate InBounds(nodes: seq<PropagationNode>, root: Option<int>) {
    1 <= |nodes| <= 100 && (root.None? || root.value > 0)
  }

  /** Ids that differ, dependencies on nodes, and cancellations of nodes that differ. */
  ghost predicate Admitted(nodes: seq<PropagationNode>, cancellations: seq<string>, root: Option<int>) {
    && InBounds(nodes, root) && DistinctNodes(nodes) && DependenciesAreNodes(nodes)
    && Distinct(cancellations) && CancellationsAreNodes(nodes, cancellations)
  }

  /** Each node's id leads to the set of its dependencies, and there are no other ids. */
  ghost predicate IsGraphOf(nodes: seq<PropagationNode>, g: Graph) {
    && (forall i | 0 <= i < |nodes| ::
         nodes[i].nodeId in g && forall d :: d in g[nodes[i].nodeId] <==> d in nodes[i].dependsOn)
    && (forall k | k in g :: IsNodeId(nodes, k))
  }

  /** Each node's id leads to its deadline, and there are no other ids. */
  ghost predicate AreDeadlinesOf(nodes: seq<PropagationNode>, declared: map<string, Option<int>>) {
    && (forall i | 0 <= i < |nodes| :: nodes[i].nodeId in declared && declared[nodes[i].nodeId] == nodes[i].deadline)
    && (forall k | k in declared :: IsNodeId(nodes, k))
  }

  ghost predicate Describes(nodes: seq<PropagationNode>, g: Graph, declared: map<string, Option<int>>) {
    IsGraphOf(nodes, g) && AreDeadlinesOf(nodes, declared)
  }

  lemma PlainNodes(nodes: seq<PropagationNode>)
    ensures DagScheduler.DistinctNodes(Plain(nodes)) <==> DistinctNodes(nodes)
    ensures DagScheduler.DependenciesAreNodes(Plain(nodes)) <==> DependenciesAreNodes(nodes)
    ensures forall id :: id in Elements(Ids(Plain(nodes))) <==> IsNodeId(nodes, id)
  {
    forall id ensures DagScheduler.IsNodeId(Plain(nodes), id) <==> IsNodeId(nodes, id) {
      if i :| 0 <= i < |nodes| && nodes[i].nodeId == id {
        assert Plain(nodes)[i].nodeId == id;
      }
    }
    forall id ensures id in Elements(Ids(Plain(nodes))) <==> IsNodeId(nodes, id) {
      IdsExact(Plain(nodes), id);
    }
    PlainDependencies(nodes);
    if DagScheduler.DistinctNodes(Plain(nodes)) {
      forall i, j | 0 <= i < j < |nodes| ensures nodes[i].nodeId != nodes[j].nodeId {
        assert Plain(nodes)[i].nodeId != Plain(nodes)[j].nodeId;
      }
    }
  }

  lemma PlainDependencies(nodes: seq<PropagationNode>)
    requires forall id :: DagScheduler.IsNodeId(Plain(nodes), id) <==> IsNodeId(nodes, id)
    ensures DagScheduler.DependenciesAreNodes(Plain(nodes)) <==> DependenciesAreNodes(nodes)
  {
    if DagScheduler.DependenciesAreNodes(Plain(nodes)) {
      forall i, d | 0 <= i < |nodes| && d in nodes[i].dependsOn ensures IsNodeId(nodes, d) {
        assert d in Plain(nodes)[i].dependsOn;
      }
    }
  }

  lemma ChecksExact(nodes: seq<PropagationNode>, cancellations: seq<string>)
    ensures |Elements(Ids(Plain(nodes)))| == |nodes| <==> DistinctNodes(nodes)
    ensures Unknown(Plain(nodes)) <==> !DependenciesAreNodes(nodes)
    ensures |cancellations| == |Elements(cancellations)| <==> Distinct(cancellations)
    ensures Elements(cancellations) <= Elements(Ids(Plain(nodes))) <==> CancellationsAreNodes(nodes, cancellations)
  {
    PlainNodes(nodes);
    DagScheduler.DistinctIds(Plain(nodes));
    UnknownExact(Plain(nodes));
    DistinctCount(cancellations);
  }

  /** Each early error exactly, in the order of the checks; whatever passes them all is admitted. */
  lemma EarlyErrorsExact(nodes: seq<PropagationNode>, cancellations: seq<string>, root: Option<int>)
    ensures var r := PlanOutcome(nodes, cancellations, root);
      && (r == Err(PlanError.NoNodes) <==> |nodes| == 0)
      && (r == Err(PlanError.TooManyNodes) <==> |nodes| > 100)
      && (r == Err(RootDeadlineNotPositive) <==> 1 <= |nodes| <= 100 && root.Some? && root.value <= 0)
      && (r == Err(PlanError.DuplicateIds) <==> InBounds(nodes, root) && !DistinctNodes(nodes))
      && (r == Err(PlanError.UnknownDependency) <==>
           InBounds(nodes, root) && DistinctNodes(nodes) && !DependenciesAreNodes(nodes))
      && (r == Err(DuplicateCancellations) <==>
           && InBounds(nodes, root) && DistinctNodes(nodes) && DependenciesAreNodes(nodes)
           && !Distinct(cancellations))
      && (r == Err(UnknownCancellation) <==>
           && InBounds(nodes, root) && DistinctNodes(nodes) && DependenciesAreNodes(nodes)
           && Distinct(cancellations) && !CancellationsAreNodes(nodes, cancellations))
      && (r.Ok? || r == Err(PlanError.DependencyCycle) <==> Admitted(nodes, cancellations, root))
    ensures Precheck(nodes, cancellations, root).None? <==> Admitted(nodes, cancellations, root)
  {
    ChecksExact(nodes, cancellations);
  }

  /** The graph and the deadlines that the planner works on are the ones that describe the nodes. */
  lemma DescribedExact(nodes: seq<PropagationNode>, g: Graph, declared: map<string, Option<int>>)
    requires DistinctNodes(nodes)
    ensures Describes(nodes, g, declared) <==> g == GraphOf(Plain(nodes)) && declared == Declared(nodes)
  {
    NodesDescribed(nodes);
    if Describes(nodes, g, declared) {
      OneDescription(nodes, g, declared, GraphOf(Plain(nodes)), Declared(nodes));
    }
  }

  lemma NodesDescribed(nodes: seq<PropagationNode>)
    requires DistinctNodes(nodes)
    ensures Describes(nodes, GraphOf(Plain(nodes)), Declared(nodes))
  {
    GraphOfPlain(nodes);
    DeadlinesOfNodes(nodes);
  }

  lemma DeadlinesOfNodes(nodes: seq<PropagationNode>)
    requires DistinctNodes(nodes)
    ensures AreDeadlinesOf(nodes, Declared(nodes))
  {
    PlainNodes(nodes);
    ByIdKeys(nodes);
    forall i | 0 <= i < |nodes|
      ensures nodes[i].nodeId in Declared(nodes) && Declared(nodes)[nodes[i].nodeId] == nodes[i].deadline
    {
      NodeById(nodes, i);
    }
  }

  lemma GraphOfPlain(nodes: seq<PropagationNode>)
    requires DistinctNodes(nodes)
    ensures IsGraphOf(nodes, GraphOf(Plain(nodes)))
  {
    PlainNodes(nodes);
    DagScheduler.DistinctIds(Plain(nodes));
    DistinctCount(Ids(Plain(nodes)));
    GraphOfLookup(Plain(nodes));
    forall i | 0 <= i < |nodes|
      ensures nodes[i].nodeId in GraphOf(Plain(nodes))
      ensures GraphOf(Plain(nodes))[nodes[i].nodeId] == Elements(nodes[i].dependsOn)
    {
      assert Plain(nodes)[i] in Plain(nodes);
    }
  }

  lemma NodeById(nodes: seq<PropagationNode>, i: nat)
    requires DistinctNodes(nodes) && i < |nodes|
    ensures nodes[i].nodeId in ById(nodes) && ById(nodes)[nodes[i].nodeId] == nodes[i]
  {
    PlainNodes(nodes);
    ByIdKeys(nodes);
    assert IsNodeId(nodes, nodes[i].nodeId);
    var j :| 0 <= j < |nodes| && nodes[j] == ById(nodes)[nodes[i].nodeId];
  }

  lemma OneDescription(nodes: seq<PropagationNode>, g: Graph, declared: map<string, Option<int>>, h: Graph,
      others: map<string, Option<int>>)
    requires Describes(nodes, g, declared) && Describes(nodes, h, others)
    ensures g == h && declared == others
  {
    OneGraph(nodes, g, h);
    forall k | k in declared ensures k in others && declared[k] == others[k] {
      var i :| 0 <= i < |nodes| && nodes[i].nodeId == k;
    }
    forall k | k in others ensures k in declared {
      var i :| 0 <= i < |nodes| && nodes[i].nodeId == k;
    }
  }

  lemma OneGraph(nodes: seq<PropagationNode>, g: Graph, h: Graph)
    requires IsGraphOf(nodes, g) && IsGraphOf(nodes, h)
    ensures g == h
  {
    forall k ensures k in g <==> k in h {
    }
    forall k | k in g ensures g[k] == h[k] {
      var i :| 0 <= i < |nodes| && nodes[i].nodeId == k;
      assert forall d :: d in g[nodes[i].nodeId] <==> d in h[nodes[i].nodeId];
    }
  }

  lemma {:induction false} ByIdKeys(nodes: seq<PropagationNode>)
    ensures ById(nodes).Keys == Elements(Ids(Plain(nodes)))
    ensures forall k | k in ById(nodes) :: ById(nodes)[k] in nodes && ById(nodes)[k].nodeId == k
  {
    if nodes != [] {
      var front := nodes[..|nodes| - 1];
      ByIdKeys(front);
      assert Plain(nodes)[..|nodes| - 1] == Plain(front);
      assert Ids(Plain(nodes)) == Ids(Plain(front)) + [nodes[|nodes| - 1].nodeId];
      assert nodes == front + [nodes[|nodes| - 1]];
    }
  }

  /** g is the graph of the nodes. */
  ghost predicate Indexes(nodes: seq<PropagationNode>, g: Graph) {
    && (forall i | 0 <= i < |nodes| :: nodes[i].nodeId in g && g[nodes[i].nodeId] == Elements(nodes[i].dependsOn))
    && (forall k | k in g :: exists i :: 0 <= i < |nodes| && nodes[i].nodeId == k)
  }

  lemma NodeIndexed(nodes: seq<PropagationNode>, i: nat)
    requires DagScheduler.Precheck(Plain(nodes), 1).None? && i < |nodes|
    ensures nodes[i].nodeId in GraphOf(Plain(nodes))
    ensures GraphOf(Plain(nodes))[nodes[i].nodeId] == Elements(nodes[i].dependsOn)
  {
    assert Plain(nodes)[i] in Plain(nodes);
    GraphEntry(Plain(nodes), 1, Plain(nodes)[i]);
  }

  lemma GraphIndexes(nodes: seq<PropagationNode>)
    requires DagScheduler.Precheck(Plain(nodes), 1).None?
    ensures Indexes(nodes, GraphOf(Plain(nodes)))
  {
    var g := GraphOf(Plain(nodes));
    forall i | 0 <= i < |nodes|
      ensures nodes[i].nodeId in g && g[nodes[i].nodeId] == Elements(nodes[i].dependsOn)
    {
      NodeIndexed(nodes, i);
    }
    GraphKeys(Plain(nodes), 1);
    forall k | k in g ensures exists i :: 0 <= i < |nodes| && nodes[i].nodeId == k {
      var n := NodeWithId(Plain(nodes), k);
      var i :| 0 <= i < |nodes| && Plain(nodes)[i] == n;
      assert nodes[i].nodeId == k;
    }
  }

  lemma GraphIndexedBy(nodes: seq<PropagationNode>)
    requires DagScheduler.Precheck(Plain(nodes), 1).None?
    ensures IndexedBy(GraphOf(Plain(nodes)), ById(nodes))
  {
    GraphKeys(Plain(nodes), 1);
    ByIdKeys(nodes);
    forall k | k in ById(nodes) ensures GraphOf(Plain(nodes))[k] == Elements(ById(nodes)[k].dependsOn) {
      var i :| 0 <= i < |nodes| && nodes[i] == ById(nodes)[k];
      NodeIndexed(nodes, i);
    }
  }

  lemma PlainPrecheck(nodes: seq<PropagationNode>, cancellations: seq<string>, root: Option<int>)
    requires Precheck(nodes, cancellations, root).None?
    ensures DagScheduler.Precheck(Plain(nodes), 1).None?
  {
  }

  lemma KnownCancellations(nodes: seq<PropagationNode>, cancellations: seq<string>, root: Option<int>)
    requires Precheck(nodes, cancellations, root).None?
    ensures Elements(cancellations) <= GraphOf(Plain(nodes)).Keys
  {
    PlainPrecheck(nodes, cancellations, root);
    GraphKeys(Plain(nodes), 1);
  }

  lemma PlainClosed(nodes: seq<PropagationNode>)
    requires DagScheduler.Precheck(Plain(nodes), 1).None?
    ensures Closed(GraphOf(Plain(nodes)))
  {
    PrecheckedGraph(Plain(nodes), 1);
  }

  /** On prechecked input `by_id` agrees with the graph. */
  lemma Indexed(nodes: seq<PropagationNode>, cancellations: seq<string>, root: Option<int>)
    requires Precheck(nodes, cancellations, root).None?
    ensures Closed(GraphOf(Plain(nodes)))
    ensures Indexes(nodes, GraphOf(Plain(nodes)))
    ensures IndexedBy(GraphOf(Plain(nodes)), ById(nodes))
    ensures Elements(cancellations) <= GraphOf(Plain(nodes)).Keys
  {
    PlainPrecheck(nodes, cancellations, root);
    KnownCancellations(nodes, cancellations, root);
    PlainClosed(nodes);
    GraphIndexes(nodes);
    GraphIndexedBy(nodes);
  }

  ghost predicate IndexedBy(g: Graph, byId: map<string, PropagationNode>) {
    byId.Keys == g.Keys && forall k | k in g :: g[k] == Elements(byId[k].dependsOn)
  }

  /** One pass of the fixpoint loop, in the given order of the nodes. */
  method Scan(nodes: seq<PropagationNode>, ghost g: Graph, ghost seeds: set<string>, start: set<string>)
    returns (cancelled: set<string>, changed: bool)
    requires Closed(g) && start <= g.Keys && Indexes(nodes, g)
    requires AllDownstream(g, seeds, start)
    ensures start <= cancelled <= g.Keys && (changed <==> start != cancelled)
    ensures AllDownstream(g, seeds, cancelled)
    ensures !changed ==> FirstSettled(nodes, |nodes|, cancelled)
  {
    cancelled, changed := start, false;
    for i := 0 to |nodes|
      invariant start <= cancelled <= g.Keys && (changed <==> start != cancelled)
      invariant AllDownstream(g, seeds, cancelled)
      invariant !changed ==> FirstSettled(nodes, i, cancelled)
    {
      var id, deps := nodes[i].nodeId, Elements(nodes[i].dependsOn);
      if id !in cancelled && deps * cancelled != {} {
        ghost var d :| d in deps * cancelled;
        DownstreamStep(g, seeds, d, id);
        cancelled := cancelled + {id};
        changed := true;
        assert id !in start;
      }
    }
  }

  /** The fixpoint loop over `cancelled`. It scans the nodes in the given order, yet marks
    exactly the downstream nodes. */
  method Cancelled(nodes: seq<PropagationNode>, ghost g: Graph,
      cancellations: seq<string>) returns (cancelled: set<string>)
    requires Closed(g) && Indexes(nodes, g) && Elements(cancellations) <= g.Keys
    ensures ExactlyDownstream(g, Elements(cancellations), cancelled)
  {
    ghost var seeds := Elements(cancellations);
    cancelled := Elements(cancellations);
    SeedsDownstream(g, seeds);
    var changed := true;
    while changed
      invariant seeds <= cancelled <= g.Keys
      invariant AllDownstream(g, seeds, cancelled)
      invariant !changed ==> FirstSettled(nodes, |nodes|, cancelled)
      decreases |g.Keys - cancelled|, changed
    {
      ghost var start := cancelled;
      cancelled, changed := Scan(nodes, g, seeds, cancelled);
      if changed {
        Shrinks(g.Keys, start, cancelled);
      }
    }
    AllSettled(nodes, g, cancelled);
    DownstreamLeast(g, seeds, cancelled);
  }

  lemma SeedsDownstream(g: Graph, seeds: set<string>)
    requires seeds <= g.Keys
    ensures AllDownstream(g, seeds, seeds)
  {
    forall n | n in seeds ensures Downstream(g, seeds, n) {
      ReachesSelf(g, n);
    }
  }

  ghost predicate Settled(n: PropagationNode, cancelled: set<string>) {
    Elements(n.dependsOn) * cancelled != {} ==> n.nodeId in cancelled
  }

  ghost predicate FirstSettled(nodes: seq<PropagationNode>, i: nat, cancelled: set<string>)
    requires i <= |nodes|
  {
    forall j | 0 <= j < i :: Settled(nodes[j], cancelled)
  }

  lemma AllSettled(nodes: seq<PropagationNode>, g: Graph, cancelled: set<string>)
    requires Indexes(nodes, g)
    requires FirstSettled(nodes, |nodes|, cancelled)
    ensures CancelClosed(g, cancelled)
  {
  }

  lemma Shrinks(all: set<string>, a: set<string>, b: set<string>)
    requires a <= b <= all && a != b
    ensures |all - b| < |all - a|
  {
    assert b - a != {};
    var x :| x in b && x !in a;
    SubsetCount(all - b, all - a - {x});
  }

  lemma DependenciesTightest(g: Graph, declared: map<string, Option<int>>, root: Option<int>, n: string,
      deps: seq<string>, deadlines: map<string, Option<int>>)
    requires n in g && g[n] == Elements(deps) && g[n] <= deadlines.Keys && AllTightest(g, declared, root, deadlines)
    ensures forall d | d in deps :: d in deadlines && Tightest(g, declared, root, d, deadlines[d])
  {
    assert forall d | d in deps :: d in Elements(deps);
  }

  /** The deadlines of one round of ready nodes. */
  method Round(byId: map<string, PropagationNode>, g: Graph, ghost declared: map<string, Option<int>>,
      root: Option<int>, ready: seq<string>, before: set<string>, known: map<string, Option<int>>)
    returns (deadlines: map<string, Option<int>>, remaining: set<string>)
    requires Closed(g) && IndexedBy(g, byId) && declared == DeclaredIn(byId) && before <= g.Keys
    requires Elements(ready) == Ready(g, before) && Distinct(ready)
    requires known.Keys == g.Keys - before
    requires AllTightest(g, declared, root, known)
    ensures remaining == before - Elements(ready)
    ensures deadlines.Keys == g.Keys - remaining
    ensures AllTightest(g, declared, root, deadlines)
  {
    deadlines, remaining := known, before;
    for j := 0 to |ready|
      invariant remaining == before - Elements(ready[..j])
      invariant deadlines.Keys == g.Keys - remaining
      invariant AllTightest(g, declared, root, deadlines)
    {
      var n := ready[j];
      ReadyAt(g, before, ready, j);
      var node := byId[n];
      DependenciesTightest(g, declared, root, n, node.dependsOn, deadlines);
      TightestStep(g, declared, root, n, node.dependsOn, deadlines);
      deadlines := deadlines[n := LeastPresent([root, node.deadline] + Lookup(deadlines, node.dependsOn))];
      remaining := remaining - {n};
      assert ready[..j + 1] == ready[..j] + [n];
      assert Elements(ready[..j + 1]) == Elements(ready[..j]) + {n};
    }
    assert ready[..|ready|] == ready;
  }

  lemma NoCycleInNothing(g: Graph)
    requires forall c | Cycle(g, c) :: Elements(c) <= {}
    ensures Acyclic(g)
  {
    forall c: seq<string> | c != [] ensures !(Elements(c) <= {}) {
      assert c[0] in Elements(c);
    }
  }

  lemma CyclesRemain(g: Graph, before: set<string>, ready: set<string>)
    requires forall c | Cycle(g, c) :: Elements(c) <= before
    requires ready == Ready(g, before)
    ensures forall c | Cycle(g, c) :: Elements(c) <= before - ready
  {
    forall c | Cycle(g, c) ensures Elements(c) <= before - ready {
      CycleNeverReady(g, c, before);
    }
  }

  /** The deadline loop: ready nodes round by round, each after all its dependencies. */
  method Deadlines(g: Graph, byId: map<string, PropagationNode>, root: Option<int>)
    returns (r: Option<map<string, Option<int>>>)
    requires Closed(g) && IndexedBy(g, byId)
    ensures r.Some? <==> Acyclic(g)
    ensures r.Some? ==> r.value.Keys == g.Keys
    ensures r.Some? ==> AllTightest(g, DeclaredIn(byId), root, r.value)
  {
    ghost var declared := DeclaredIn(byId);
    var deadlines: map<string, Option<int>> := map[];
    var remaining := g.Keys;
    CyclesWithin(g);
    while remaining != {}
      invariant remaining <= g.Keys && deadlines.Keys == g.Keys - remaining
      invariant AllTightest(g, declared, root, deadlines)
      invariant forall c | Cycle(g, c) :: Elements(c) <= remaining
      decreases remaining
    {
      var ready := Sorted(Ready(g, remaining));
      if ready == [] {
        StuckHasCycle(g, remaining);
        return None;
      }
      IncreasingDistinct(ready);
      CyclesRemain(g, remaining, Elements(ready));
      assert ready[0] in Elements(ready);
      deadlines, remaining := Round(byId, g, declared, root, ready, remaining, deadlines);
    }
    NoCycleInNothing(g);
    return Some(deadlines);
  }

  lemma CyclesWithin(g: Graph)
    ensures forall c | Cycle(g, c) :: Elements(c) <= g.Keys
  {
  }

  lemma ReadyAt(g: Graph, before: set<string>, ready: seq<string>, j: nat)
    requires Closed(g) && before <= g.Keys && Elements(ready) == Ready(g, before) && Distinct(ready) && j < |ready|
    ensures ready[j] in before && ready[j] in g && ready[j] !in ready[..j]
    ensures g[ready[j]] <= g.Keys - before
  {
    assert ready[j] in Elements(ready);
    assert g[ready[j]] * before == {};
    assert forall d | d in g[ready[j]] && d in before :: d in g[ready[j]] * before;
  }

  /** Both loops and the dispositions, on indexed input. */
  method PlanGraph(nodes: seq<PropagationNode>, g: Graph, byId: map<string, PropagationNode>,
      cancellations: seq<string>, root: Option<int>)
    returns (r: Option<seq<Disposition>>)
    requires Closed(g) && Indexes(nodes, g) && IndexedBy(g, byId) && Elements(cancellations) <= g.Keys
    ensures r.Some? <==> Acyclic(g)
    ensures r.Some? ==> Correct(g, DeclaredIn(byId), Elements(cancellations), root, r.value)
  {
    var cancelled := Cancelled(nodes, g, cancellations);
    var deadlines := Deadlines(g, byId, root);
    if deadlines.None? {
      return None;
    }
    var ids := Sorted(g.Keys);
    assert forall k | k in ids :: k in Elements(ids);
    DispositionsCorrect(g, DeclaredIn(byId), Elements(cancellations), root, ids, cancelled, deadlines.value);
    return Some(Dispositions(ids, cancelled, deadlines.value));
  }

  /** What the planner returns: the early error, the cycle error, or the one correct plan. */
  ghost function PlanOutcome(nodes: seq<PropagationNode>, cancellations: seq<string>, root: Option<int>)
    : Result<seq<Disposition>, PlanError>
  {
    match Precheck(nodes, cancellations, root)
    case Some(e) => Err(e)
    case None =>
      if !Acyclic(GraphOf(Plain(nodes))) then Err(PlanError.DependencyCycle)
      else Ok(CorrectPlan(GraphOf(Plain(nodes)), Declared(nodes), Elements(cancellations), root))
  }

  /** `plan_cancellation_deadline_propagation`. */
  method PlanPropagation(nodes: seq<PropagationNode>, cancellations: seq<string>, root: Option<int>)
    returns (r: Result<seq<Disposition>, PlanError>)
    ensures r == PlanOutcome(nodes, cancellations, root)
    ensures r.Ok? || r == Err(PlanError.DependencyCycle) <==> Admitted(nodes, cancellations, root)
    ensures Admitted(nodes, cancellations, root) ==> forall g, declared | Describes(nodes, g, declared) ::
      if Acyclic(g) then r.Ok? && Correct(g, declared, Elements(cancellations), root, r.value)
      else r == Err(PlanError.DependencyCycle)
  {
    EarlyErrorsExact(nodes, cancellations, root);
    forall g, declared | Describes(nodes, g, declared) && DistinctNodes(nodes)
      ensures g == GraphOf(Plain(nodes)) && declared == Declared(nodes)
    {
      DescribedExact(nodes, g, declared);
    }
    var failed := Precheck(nodes, cancellations, root);
    if failed.Some? {
      return Err(failed.value);
    }
    Indexed(nodes, cancellations, root);
    var plan := PlanGraph(nodes, GraphOf(Plain(nodes)), ById(nodes), cancellations, root);
    if plan.Some? {
      CorrectPlanUnique(GraphOf(Plain(nodes)), Declared(nodes), Elements(cancellations), root, plan.value,
        CorrectPlan(GraphOf(Plain(nodes)), Declared(nodes), Elements(cancellations), root));
    }
    return if plan.None? then Err(PlanError.DependencyCycle) else Ok(plan.value);
  }

  function Dispositions(ids: seq<string>, cancelled: set<string>, deadlines: map<string, Option<int>>)
    : (r: seq<Disposition>)
    requires forall k | k in ids :: k in deadlines
    ensures |r| == |ids|
    ensures forall i | 0 <= i < |r| :: r[i] == Disposition(ids[i], ids[i] in cancelled, deadlines[ids[i]])
  {
    seq(|ids|, i requires 0 <= i < |ids| => Disposition(ids[i], ids[i] in cancelled, deadlines[ids[i]]))
  }

  lemma DispositionsCorrect(g: Graph, declared: map<string, Option<int>>, seeds: set<string>, root: Option<int>,
      ids: seq<string>, cancelled: set<string>, deadlines: map<string, Option<int>>)
    requires ids == Sorted(g.Keys) && deadlines.Keys == g.Keys && forall k | k in ids :: k in deadlines
    requires ExactlyDownstream(g, seeds, cancelled)
    requires AllTightest(g, declared, root, deadlines)
    ensures Correct(g, declared, seeds, root, Dispositions(ids, cancelled, deadlines))
  {
  }

  /** The nodes as facts: ids with sets of dependencies and deadlines, in no order. */
  ghost function Facts(nodes: seq<PropagationNode>): set<(string, set<string>, Option<int>)> {
    set n | n in nodes :: (n.nodeId, Elements(n.dependsOn), n.deadline)
  }

  lemma FactsRelation(a: seq<PropagationNode>, b: seq<PropagationNode>)
    requires Facts(a) == Facts(b)
    ensures Relation(Plain(a)) <= Relation(Plain(b))
  {
    forall p | p in Relation(Plain(a)) ensures p in Relation(Plain(b)) {
      var n :| n in Plain(a) && p == (n.nodeId, Elements(n.dependsOn));
      var i :| 0 <= i < |a| && Plain(a)[i] == n;
      assert (a[i].nodeId, Elements(a[i].dependsOn), a[i].deadline) in Facts(b);
      var y :| y in b && y.nodeId == n.nodeId && Elements(y.dependsOn) == Elements(n.dependsOn);
      var j :| 0 <= j < |b| && b[j] == y;
      assert Plain(b)[j] in Plain(b);
    }
  }

  lemma UniqueNode(nodes: seq<PropagationNode>, x: PropagationNode, y: PropagationNode)
    requires DagScheduler.Precheck(Plain(nodes), 1).None?
    requires x in nodes && y in nodes && x.nodeId == y.nodeId
    ensures x == y
  {
    DistinctCount(Ids(Plain(nodes)));
    var i :| 0 <= i < |nodes| && nodes[i] == x;
    var j :| 0 <= j < |nodes| && nodes[j] == y;
    assert Ids(Plain(nodes))[i] == Ids(Plain(nodes))[j];
  }

  /** Neither the order of the nodes nor that of their dependencies reaches the plan: the graph
    and the declared deadlines stay the same, and they determine it. */
  lemma InputOrderIrrelevant(a: seq<PropagationNode>, b: seq<PropagationNode>)
    requires DagScheduler.Precheck(Plain(a), 1).None? && DagScheduler.Precheck(Plain(b), 1).None?
    requires Facts(a) == Facts(b)
    ensures GraphOf(Plain(a)) == GraphOf(Plain(b)) && Declared(a) == Declared(b)
  {
    SameGraph(a, b);
    SameKeys(a, b);
    SameDeclarations(ById(a), ById(b), a, b);
  }

  /** So the planner answers alike, for the same facts and the same requested nodes. */
  lemma SamePlan(a: seq<PropagationNode>, b: seq<PropagationNode>, c: seq<string>, d: seq<string>, root: Option<int>)
    requires Admitted(a, c, root) && Admitted(b, d, root)
    requires Facts(a) == Facts(b) && Elements(c) == Elements(d)
    ensures PlanOutcome(a, c, root) == PlanOutcome(b, d, root)
  {
    EarlyErrorsExact(a, c, root);
    EarlyErrorsExact(b, d, root);
    PlainPrecheck(a, c, root);
    PlainPrecheck(b, d, root);
    InputOrderIrrelevant(a, b);
  }

  lemma SameKeys(a: seq<PropagationNode>, b: seq<PropagationNode>)
    requires DagScheduler.Precheck(Plain(a), 1).None? && DagScheduler.Precheck(Plain(b), 1).None?
    requires GraphOf(Plain(a)) == GraphOf(Plain(b))
    ensures ById(a).Keys == ById(b).Keys
  {
    ByIdKeys(a);
    GraphKeys(Plain(a), 1);
    ByIdKeys(b);
    GraphKeys(Plain(b), 1);
  }

  lemma SameDeclarations(m: map<string, PropagationNode>, n: map<string, PropagationNode>,
      a: seq<PropagationNode>, b: seq<PropagationNode>)
    requires DagScheduler.Precheck(Plain(b), 1).None? && Facts(a) == Facts(b)
    requires m == ById(a) && n == ById(b) && m.Keys == n.Keys
    ensures DeclaredIn(m) == DeclaredIn(n)
  {
    forall k | k in m ensures m[k].deadline == n[k].deadline {
      SameDeclared(a, b, k);
    }
  }

  lemma SameGraph(a: seq<PropagationNode>, b: seq<PropagationNode>)
    requires DagScheduler.Precheck(Plain(a), 1).None? && DagScheduler.Precheck(Plain(b), 1).None?
    requires Facts(a) == Facts(b)
    ensures GraphOf(Plain(a)) == GraphOf(Plain(b))
  {
    FactsRelation(a, b);
    FactsRelation(b, a);
    RelationIds(Plain(a), Plain(b));
    RelationIds(Plain(b), Plain(a));
    RelationGraph(Plain(a), Plain(b), 1);
  }

  lemma SameDeclared(a: seq<PropagationNode>, b: seq<PropagationNode>, k: string)
    requires DagScheduler.Precheck(Plain(b), 1).None? && Facts(a) == Facts(b)
    requires k in ById(a) && k in ById(b)
    ensures ById(a)[k].deadline == ById(b)[k].deadline
  {
    ByIdKeys(a);
    ByIdKeys(b);
    var x := ById(a)[k];
    assert (x.nodeId, Elements(x.dependsOn), x.deadline) in Facts(b);
    var y :| y in b && y.nodeId == k && y.deadline == x.deadline;
    UniqueNode(b, y, ById(b)[k]);
  }

  /** On input that the planner admits, it raises its cycle error exactly when the scheduler raises
    its own on the same nodes, whatever the width. */
  lemma SameCycleError(nodes: seq<PropagationNode>, cancellations: seq<string>, root: Option<int>, m: int)
    requires Admitted(nodes, cancellations, root) && 1 <= m <= 6
    ensures PlanOutcome(nodes, cancellations, root) == Err(PlanError.DependencyCycle) <==>
      Outcome(Plain(nodes), m) == Err(DagScheduler.Error.DependencyCycle)
  {
    EarlyErrorsExact(nodes, cancellations, root);
    DagScheduler.EarlyErrorsExact(Plain(nodes), m);
    PlainNodes(nodes);
    GraphOfNodes(Plain(nodes));
    OutcomeExact(Plain(nodes), m, GraphOf(Plain(nodes)));
  }
}
