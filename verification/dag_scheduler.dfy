/** Bounded topological scheduling (src/m365_mcp/xapp_dag_scheduler.py). */
module DagScheduler {
  import opened Results
  import opened Ordering
  import opened DependencyGraph

  const MAX_DAG_NODES := 100
  const MAX_PARALLEL := 6

  datatype DagScheduleNode = DagScheduleNode(nodeId: string, dependsOn: seq<string>)

  datatype DagSchedule = DagSchedule(waves: seq<seq<string>>, maxParallel: int)

  datatype Error =
    | NoNodes
    | TooManyNodes
    | ParallelOutOfRange
    | DuplicateIds
    | UnknownDependency
    | DependencyCycle
    | RepeatedNode
    | WaveOutOfRange

  // ----- the specification of the wave loop, for any graph and any width

  /** The next wave: the first m ready nodes in id order. */
  function Wave(g: Graph, remaining: set<string>, m: nat): (w: seq<string>)
    ensures Elements(w) <= Ready(g, remaining) && Distinct(w) && |w| <= m
    ensures m >= 1 && Ready(g, remaining) != {} ==> w != []
    ensures |w| < m ==> Elements(w) == Ready(g, remaining)
  {
    var ready := Sorted(Ready(g, remaining));
    IncreasingDistinct(ready);
    assert forall x | x in ready :: x in Elements(ready);
    if m < |ready| then ready[..m] else ready
  }

  /** A wave is in id order, and the ready nodes it leaves come after those it takes. */
  lemma WaveTakesLeast(g: Graph, remaining: set<string>, m: nat)
    ensures Increasing(Wave(g, remaining, m))
    ensures forall x, y | x in Wave(g, remaining, m) && y in Ready(g, remaining) && y !in Wave(g, remaining, m) ::
      Less(x, y)
  {
  }

  /** The waves that remain to be emitted; `None` stands for the cycle error. */
  function Waves(g: Graph, remaining: set<string>, m: nat): Option<seq<seq<string>>>
    requires m >= 1
    decreases remaining
  {
    if remaining == {} then Some([])
    else
      var w := Wave(g, remaining, m);
      if w == [] then None
      else
        assert w[0] in Elements(w);
        match Waves(g, remaining - Elements(w), m)
        case None => None
        case Some(rest) => Some([w] + rest)
  }

  function Flat(ws: seq<seq<string>>): seq<string> {
    if ws == [] then [] else ws[0] + Flat(ws[1..])
  }

  /** An m-wide execution order: every node once, after everything it depends on. */
  ghost predicate ValidSchedule(g: Graph, ws: seq<seq<string>>, m: nat) {
    && Distinct(Flat(ws)) && Elements(Flat(ws)) == g.Keys
    && (forall w | w in ws :: 1 <= |w| <= m)
    && (forall i, n | 0 <= i < |ws| && n in ws[i] && n in g :: g[n] <= Elements(Flat(ws[..i])))
  }

  // ----- soundness and completeness

  /** What matters about the waves: each takes ready nodes only, at most m of them, and all of
    them when there are fewer than m. */
  ghost predicate Greedy(g: Graph, r: set<string>, ws: seq<seq<string>>, m: nat) {
    if ws == [] then r == {}
    else
      && GreedyWave(g, r, ws[0], m)
      && Greedy(g, r - Elements(ws[0]), ws[1..], m)
  }

  ghost predicate GreedyWave(g: Graph, r: set<string>, w: seq<string>, m: nat) {
    && 1 <= |w| <= m && Distinct(w)
    && Elements(w) <= Ready(g, r)
    && (|w| < m ==> Elements(w) == Ready(g, r))
  }

  lemma {:induction false} WavesGreedy(g: Graph, r: set<string>, m: nat, ws: seq<seq<string>>)
    requires m >= 1 && Waves(g, r, m) == Some(ws)
    ensures Greedy(g, r, ws, m)
    decreases |ws|
  {
    if r != {} {
      WavesGreedy(g, r - Elements(ws[0]), m, ws[1..]);
    }
  }

  /** The waves partition what remains. */
  lemma {:induction false} GreedyPartition(g: Graph, r: set<string>, ws: seq<seq<string>>, m: nat)
    requires Greedy(g, r, ws, m)
    ensures Distinct(Flat(ws)) && Elements(Flat(ws)) == r
    ensures forall w | w in ws :: 1 <= |w| <= m
  {
    if ws != [] {
      GreedyPartition(g, r - Elements(ws[0]), ws[1..], m);
      assert Elements(Flat(ws)) == Elements(ws[0]) + Elements(Flat(ws[1..]));
      DistinctConcat(ws[0], Flat(ws[1..]));
    }
  }

  /** Each remaining dependency of a scheduled node lies in a strictly earlier wave. */
  lemma {:induction false} GreedyOrdered(g: Graph, r: set<string>, ws: seq<seq<string>>, m: nat, i: nat, n: string)
    requires Greedy(g, r, ws, m) && i < |ws| && n in ws[i]
    ensures n in g && g[n] * r <= Elements(Flat(ws[..i]))
  {
    if i > 0 {
      GreedyOrdered(g, r - Elements(ws[0]), ws[1..], m, i - 1, n);
      FlatPrefix(ws, i);
    } else {
      assert n in Elements(ws[0]);
    }
  }

  lemma FlatPrefix(ws: seq<seq<string>>, i: nat)
    requires 1 <= i <= |ws|
    ensures Elements(Flat(ws[..i])) == Elements(ws[0]) + Elements(Flat(ws[1..][..i - 1]))
  {
    assert ws[..i][1..] == ws[1..][..i - 1];
  }

  lemma DistinctConcat<T>(a: seq<T>, b: seq<T>)
    requires Distinct(a) && Distinct(b) && Elements(a) !! Elements(b)
    ensures Distinct(a + b)
  {
    forall i, j | 0 <= i < j < |a + b| ensures (a + b)[i] != (a + b)[j] {
      if i < |a| <= j {
        assert a[i] in Elements(a) && b[j - |a|] in Elements(b);
      }
    }
  }

  lemma {:induction false} CycleBlocks(g: Graph, c: seq<string>, r: set<string>, m: nat)
    requires m >= 1 && Cycle(g, c) && Elements(c) <= r
    ensures Waves(g, r, m).None?
    decreases r
  {
    assert c[0] in Elements(c);
    var w := Wave(g, r, m);
    if w != [] {
      assert w[0] in Elements(w);
      CycleNeverReady(g, c, r);
      CycleBlocks(g, c, r - Elements(w), m);
    }
  }

  lemma {:induction false} BlockedHasCycle(g: Graph, r: set<string>, m: nat)
    requires m >= 1 && r <= g.Keys && Waves(g, r, m).None?
    ensures !Acyclic(g)
    decreases r
  {
    var w := Wave(g, r, m);
    if w == [] {
      StuckHasCycle(g, r);
    } else {
      assert w[0] in Elements(w);
      BlockedHasCycle(g, r - Elements(w), m);
    }
  }

  /** The wave is the first m ready nodes in id order, or all of them when there are fewer. */
  ghost predicate LeastReady(g: Graph, left: set<string>, w: seq<string>, m: nat) {
    && Increasing(w) && |w| <= m && Elements(w) <= Ready(g, left)
    && (|w| == m || Elements(w) == Ready(g, left))
    && forall x, y | x in w && y in Ready(g, left) && y !in w :: Less(x, y)
  }

  lemma WaveIsLeast(g: Graph, r: set<string>, m: nat)
    ensures LeastReady(g, r, Wave(g, r, m), m)
  {
    WaveTakesLeast(g, r, m);
    forall x | x in Wave(g, r, m) ensures x in Ready(g, r) {
      assert x in Elements(Wave(g, r, m));
    }
  }

  /** What remains after k waves, counted from the start or from the second wave on. */
  lemma LeftAfter(r: set<string>, ws: seq<seq<string>>, k: nat)
    requires 1 <= k <= |ws|
    ensures r - Elements(Flat(ws[..k])) == r - Elements(ws[0]) - Elements(Flat(ws[1..][..k - 1]))
  {
    FlatPrefix(ws, k);
  }

  lemma {:induction false} WavesTakeLeast(g: Graph, r: set<string>, m: nat, ws: seq<seq<string>>, k: nat)
    requires m >= 1 && Waves(g, r, m) == Some(ws) && k < |ws|
    ensures LeastReady(g, r - Elements(Flat(ws[..k])), ws[k], m)
    decreases k
  {
    if k == 0 {
      WaveIsLeast(g, r, m);
      assert Elements(Flat(ws[..0])) == {};
      assert r - Elements(Flat(ws[..0])) == r;
    } else {
      WavesTakeLeast(g, r - Elements(ws[0]), m, ws[1..], k - 1);
      LeftAfter(r, ws, k);
    }
  }

  lemma GreedyValid(g: Graph, ws: seq<seq<string>>, m: nat)
    requires Closed(g) && Greedy(g, g.Keys, ws, m)
    ensures ValidSchedule(g, ws, m)
  {
    GreedyPartition(g, g.Keys, ws, m);
    forall i, n | 0 <= i < |ws| && n in ws[i] && n in g ensures g[n] <= Elements(Flat(ws[..i])) {
      GreedyOrdered(g, g.Keys, ws, m, i, n);
      assert g[n] * g.Keys == g[n];
    }
  }

  /** The scheduler succeeds exactly on acyclic graphs, and then its waves are a valid
    m-wide schedule. */
  lemma ScheduleExactlyAcyclic(g: Graph, m: nat)
    requires m >= 1 && Closed(g)
    ensures Waves(g, g.Keys, m).Some? <==> Acyclic(g)
    ensures Acyclic(g) ==> ValidSchedule(g, Waves(g, g.Keys, m).value, m)
  {
    if Waves(g, g.Keys, m).None? {
      BlockedHasCycle(g, g.Keys, m);
    } else {
      forall c ensures !Cycle(g, c) {
        if Cycle(g, c) {
          CycleBlocks(g, c, g.Keys, m);
        }
      }
      var ws := Waves(g, g.Keys, m).value;
      WavesGreedy(g, g.Keys, m, ws);
      GreedyValid(g, ws, m);
    }
  }

  // ----- Graham's bound

  /** The waves that leave capacity unused. */
  function Partial(ws: seq<seq<string>>, m: nat): nat {
    if ws == [] then 0 else (if |ws[0]| < m then 1 else 0) + Partial(ws[1..], m)
  }

  /** A wave with unused capacity takes every ready node, so each such wave lengthens a chain
    through the nodes that are left by one. */
  lemma {:induction false} PartialWavesFormChain(g: Graph, r: set<string>, ws: seq<seq<string>>,
      m: nat) returns (c: seq<string>)
    requires Greedy(g, r, ws, m) && r <= g.Keys
    ensures Chain(g, c) && Elements(c) <= r && |c| == Partial(ws, m)
    decreases |ws|
  {
    c := [];
    if ws != [] {
      c := PartialWavesFormChain(g, r - Elements(ws[0]), ws[1..], m);
      if |ws[0]| < m {
        c := LengthenChain(g, r, ws[0], c);
      }
    }
  }

  lemma LengthenChain(g: Graph, r: set<string>, w: seq<string>, c: seq<string>) returns (e: seq<string>)
    requires r <= g.Keys && w != [] && Elements(w) == Ready(g, r)
    requires Chain(g, c) && Elements(c) <= r - Elements(w)
    ensures Chain(g, e) && Elements(e) <= r && |e| == |c| + 1
  {
    var d := w[0];
    assert d in Elements(w);
    if c != [] {
      assert c[0] in Elements(c);
      d :| d in g[c[0]] * r;
    }
    ChainPrepend(g, d, c);
    e := [d] + c;
    assert Elements(e) == {d} + Elements(c);
  }

  lemma {:induction false} WaveCount(ws: seq<seq<string>>, m: nat)
    requires forall w | w in ws :: 1 <= |w| <= m
    ensures m * |ws| <= |Flat(ws)| + (m - 1) * Partial(ws, m)
    ensures |Flat(ws)| <= m * |ws|
  {
    if ws != [] {
      WaveCount(ws[1..], m);
      Distribute(m, |ws| - 1);
      Distribute(m - 1, Partial(ws[1..], m));
    }
  }

  lemma Distribute(m: int, k: int)
    ensures m * (k + 1) == m * k + m
  {
  }

  lemma MulMonotone(m: nat, a: int, b: int)
    requires a <= b
    ensures m * a <= m * b
  {
  }

  lemma ScheduleCount(g: Graph, ws: seq<seq<string>>, m: nat)
    requires m >= 1 && ValidSchedule(g, ws, m)
    ensures m * |ws| <= |g| + (m - 1) * Partial(ws, m)
    ensures |g| <= m * |ws|
  {
    WaveCount(ws, m);
    DistinctCount(Flat(ws));
  }

  /** Greedy waves meet Graham's bound for n unit tasks on m workers. */
  lemma GrahamBound(g: Graph, m: nat)
    requires m >= 1 && Closed(g) && Acyclic(g)
    ensures Waves(g, g.Keys, m).Some?
    ensures m * |Waves(g, g.Keys, m).value| <= |g| + (m - 1) * LongestChain(g)
  {
    ScheduleExactlyAcyclic(g, m);
    var ws := Waves(g, g.Keys, m).value;
    WavesGreedy(g, g.Keys, m, ws);
    GreedyBound(g, m, ws);
  }

  lemma GreedyBound(g: Graph, m: nat, ws: seq<seq<string>>)
    requires m >= 1 && Closed(g) && Acyclic(g) && Greedy(g, g.Keys, ws, m)
    ensures m * |ws| <= |g| + (m - 1) * LongestChain(g)
  {
    var c := PartialWavesFormChain(g, g.Keys, ws, m);
    LongestChainIsLongest(g);
    GreedyValid(g, ws, m);
    ScheduleCount(g, ws, m);
    MulMonotone(m - 1, |c|, LongestChain(g));
  }

  /** The nodes of a chain sit in pairwise different waves of any valid schedule. */
  lemma {:induction false} ChainNeedsWaves(g: Graph, ws: seq<seq<string>>, m: nat, c: seq<string>, k: nat)
    requires ValidSchedule(g, ws, m) && Chain(g, c) && k <= |ws|
    requires c != [] ==> c[|c| - 1] in Elements(Flat(ws[..k]))
    ensures |c| <= k
    decreases |c|
  {
    if c != [] {
      var i := FindWave(ws[..k], c[|c| - 1]);
      var front := c[..|c| - 1];
      ChainSlice(g, c, 0, |c| - 1);
      assert c[0..|c| - 1] == front;
      if front != [] {
        assert c[|c| - 2] in g[c[|c| - 1]];
        assert c[|c| - 1] in ws[i];
      }
      ChainNeedsWaves(g, ws, m, front, i);
    }
  }

  lemma {:induction false} FindWave(ws: seq<seq<string>>, n: string) returns (i: nat)
    requires n in Flat(ws)
    ensures i < |ws| && n in ws[i]
  {
    if n in ws[0] {
      i := 0;
    } else {
      i := FindWave(ws[1..], n);
      i := i + 1;
    }
  }

  lemma EveryScheduleNeeds(g: Graph, ws: seq<seq<string>>, m: nat)
    requires m >= 1 && ValidSchedule(g, ws, m) && Acyclic(g)
    ensures |g| <= m * |ws| && LongestChain(g) <= |ws|
  {
    ScheduleCount(g, ws, m);
    LongestChainIsLongest(g);
    var c :| Chain(g, c) && |c| == LongestChain(g);
    assert ws[..|ws|] == ws;
    if c != [] {
      assert c[|c| - 1] in g.Keys;
    }
    ChainNeedsWaves(g, ws, m, c, |ws|);
  }

  /** No schedule of width m, however clever, beats the greedy one by more than the factor
    2 - 1/m. */
  lemma NearOptimal(g: Graph, m: nat, other: seq<seq<string>>)
    requires m >= 1 && Closed(g) && Acyclic(g) && ValidSchedule(g, other, m)
    ensures Waves(g, g.Keys, m).Some?
    ensures m * |Waves(g, g.Keys, m).value| <= (2 * m - 1) * |other|
  {
    GrahamBound(g, m);
    EveryScheduleNeeds(g, other, m);
    WithinFactor(m, |Waves(g, g.Keys, m).value|, |g|, LongestChain(g), |other|);
  }

  lemma WithinFactor(m: nat, waves: nat, n: nat, longest: nat, other: nat)
    requires m >= 1 && m * waves <= n + (m - 1) * longest && n <= m * other && longest <= other
    ensures m * waves <= (2 * m - 1) * other
  {
    MulMonotone(m - 1, longest, other);
    TwoMinusOne(m, other);
  }

  lemma TwoMinusOne(m: int, k: int)
    ensures m * k + (m - 1) * k == (2 * m - 1) * k
  {
  }

  // ----- the function itself

  /** `{node.node_id: set(node.depends_on) for node in nodes}` */
  function GraphOf(nodes: seq<DagScheduleNode>): Graph {
    if nodes == [] then map[]
    else
      var last := nodes[|nodes| - 1];
      GraphOf(nodes[..|nodes| - 1])[last.nodeId := Elements(last.dependsOn)]
  }

  function Ids(nodes: seq<DagScheduleNode>): (ids: seq<string>)
    ensures |ids| == |nodes|
    ensures forall i | 0 <= i < |nodes| :: ids[i] == nodes[i].nodeId
  {
    if nodes == [] then [] else Ids(nodes[..|nodes| - 1]) + [nodes[|nodes| - 1].nodeId]
  }

  /** Some dependency is not the id of a node. */
  predicate Unknown(nodes: seq<DagScheduleNode>) {
    exists n | n in nodes :: !(Elements(n.dependsOn) <= Elements(Ids(nodes)))
  }

  /** The checks made before any wave is computed, in the order in which they are made. */
  function Precheck(nodes: seq<DagScheduleNode>, maxParallel: int): Option<Error> {
    if nodes == [] then Some(NoNodes)
    else if |nodes| > MAX_DAG_NODES then Some(TooManyNodes)
    else if !(1 <= maxParallel <= MAX_PARALLEL) then Some(ParallelOutOfRange)
    else if |Elements(Ids(nodes))| != |nodes| then Some(DuplicateIds)
    else if Unknown(nodes) then Some(UnknownDependency)
    else None
  }

  /** What `schedule_dag` returns. */
  function Outcome(nodes: seq<DagScheduleNode>, maxParallel: int): Result<DagSchedule, Error> {
    match Precheck(nodes, maxParallel)
    case Some(e) => Err(e)
    case None =>
      match Waves(GraphOf(nodes), Elements(Ids(nodes)), maxParallel)
      case None => Err(DependencyCycle)
      case Some(ws) => Ok(DagSchedule(ws, maxParallel))
  }

  /** What `DagSchedule.__post_init__` rejects, in the order in which it looks. */
  function PostInit(ws: seq<seq<string>>, maxParallel: int): Option<Error> {
    if !(1 <= maxParallel <= MAX_PARALLEL) then Some(ParallelOutOfRange)
    else if |Flat(ws)| != |Elements(Flat(ws))| then Some(RepeatedNode)
    else if exists w | w in ws :: w == [] || |w| > maxParallel then Some(WaveOutOfRange)
    else None
  }

  /** A result is accepted exactly when its width is in range, no node comes twice, and every wave holds
    at least one node and at most as many as there are slots. */
  lemma PostInitExact(ws: seq<seq<string>>, m: int)
    ensures PostInit(ws, m).None? <==>
      1 <= m <= 6 && Distinct(Flat(ws)) && forall w | w in ws :: 1 <= |w| <= m
    ensures PostInit(ws, m) == Some(ParallelOutOfRange) <==> !(1 <= m <= 6)
    ensures PostInit(ws, m) == Some(RepeatedNode) <==> 1 <= m <= 6 && !Distinct(Flat(ws))
  {
    DistinctCount(Flat(ws));
  }

  // ----- the inputs that are admitted

  ghost predicate DistinctNodes(nodes: seq<DagScheduleNode>) {
    forall i, j | 0 <= i < j < |nodes| :: nodes[i].nodeId != nodes[j].nodeId
  }

  ghost predicate IsNodeId(nodes: seq<DagScheduleNode>, id: string) {
    exists i :: 0 <= i < |nodes| && nodes[i].nodeId == id
  }

  ghost predicate DependenciesAreNodes(nodes: seq<DagScheduleNode>) {
    forall i, d | 0 <= i < |nodes| && d in nodes[i].dependsOn :: IsNodeId(nodes, d)
  }

  /** At most a hundred nodes and six parallel slots, ids that differ, and dependencies on nodes. */
  ghost predicate Admitted(nodes: seq<DagScheduleNode>, m: int) {
    1 <= |nodes| <= 100 && 1 <= m <= 6 && DistinctNodes(nodes) && DependenciesAreNodes(nodes)
  }

  /** Each node's id leads to the set of its dependencies, and there are no other ids. */
  ghost predicate IsGraphOf(nodes: seq<DagScheduleNode>, g: Graph) {
    && (forall i | 0 <= i < |nodes| ::
         nodes[i].nodeId in g && forall d :: d in g[nodes[i].nodeId] <==> d in nodes[i].dependsOn)
    && (forall k | k in g :: IsNodeId(nodes, k))
  }

  lemma DistinctIds(nodes: seq<DagScheduleNode>)
    ensures Distinct(Ids(nodes)) <==> DistinctNodes(nodes)
    ensures |Elements(Ids(nodes))| == |nodes| <==> DistinctNodes(nodes)
  {
    DistinctCount(Ids(nodes));
    if Distinct(Ids(nodes)) {
      forall i, j | 0 <= i < j < |nodes| ensures nodes[i].nodeId != nodes[j].nodeId {
        assert Ids(nodes)[i] != Ids(nodes)[j];
      }
    }
  }

  lemma IdsExact(nodes: seq<DagScheduleNode>, id: string)
    ensures id in Elements(Ids(nodes)) <==> IsNodeId(nodes, id)
  {
    if i :| 0 <= i < |nodes| && nodes[i].nodeId == id {
      assert Ids(nodes)[i] == id;
    }
  }

  lemma UnknownExact(nodes: seq<DagScheduleNode>)
    ensures Unknown(nodes) <==> !DependenciesAreNodes(nodes)
  {
    forall id ensures id in Elements(Ids(nodes)) <==> IsNodeId(nodes, id) {
      IdsExact(nodes, id);
    }
    if n :| n in nodes && !(Elements(n.dependsOn) <= Elements(Ids(nodes))) {
      var d :| d in Elements(n.dependsOn) && d !in Elements(Ids(nodes));
      var i :| 0 <= i < |nodes| && nodes[i] == n;
      assert d in nodes[i].dependsOn && !IsNodeId(nodes, d);
    }
    if i, d :| 0 <= i < |nodes| && d in nodes[i].dependsOn && !IsNodeId(nodes, d) {
      assert nodes[i] in nodes && d in Elements(nodes[i].dependsOn);
    }
  }

  /** Each early error exactly, in the order of the checks; whatever passes them all is admitted. */
  lemma EarlyErrorsExact(nodes: seq<DagScheduleNode>, m: int)
    ensures Outcome(nodes, m) == Err(NoNodes) <==> |nodes| == 0
    ensures Outcome(nodes, m) == Err(TooManyNodes) <==> |nodes| > 100
    ensures Outcome(nodes, m) == Err(ParallelOutOfRange) <==> 1 <= |nodes| <= 100 && !(1 <= m <= 6)
    ensures Outcome(nodes, m) == Err(DuplicateIds) <==>
      1 <= |nodes| <= 100 && 1 <= m <= 6 && !DistinctNodes(nodes)
    ensures Outcome(nodes, m) == Err(UnknownDependency) <==>
      1 <= |nodes| <= 100 && 1 <= m <= 6 && DistinctNodes(nodes) && !DependenciesAreNodes(nodes)
    ensures Outcome(nodes, m).Ok? || Outcome(nodes, m) == Err(DependencyCycle) <==> Admitted(nodes, m)
    ensures Precheck(nodes, m).None? <==> Admitted(nodes, m)
  {
    DistinctIds(nodes);
    UnknownExact(nodes);
  }

  /** The graph that the loop works on is the one graph of the nodes. */
  lemma GraphExact(nodes: seq<DagScheduleNode>, g: Graph)
    requires DistinctNodes(nodes)
    ensures IsGraphOf(nodes, g) <==> g == GraphOf(nodes)
  {
    GraphOfNodes(nodes);
    if IsGraphOf(nodes, g) {
      OneGraph(nodes, g, GraphOf(nodes));
    }
  }

  lemma GraphOfNodes(nodes: seq<DagScheduleNode>)
    requires DistinctNodes(nodes)
    ensures IsGraphOf(nodes, GraphOf(nodes))
  {
    DistinctIds(nodes);
    GraphOfLookup(nodes);
    forall i | 0 <= i < |nodes|
      ensures nodes[i].nodeId in GraphOf(nodes) && GraphOf(nodes)[nodes[i].nodeId] == Elements(nodes[i].dependsOn)
    {
      assert nodes[i] in nodes;
    }
    forall k | k in GraphOf(nodes) ensures IsNodeId(nodes, k) {
      IdsExact(nodes, k);
    }
  }

  lemma OneGraph(nodes: seq<DagScheduleNode>, g: Graph, h: Graph)
    requires IsGraphOf(nodes, g) && IsGraphOf(nodes, h)
    ensures g == h
  {
    forall k ensures k in g <==> k in h {
    }
    forall k | k in g ensures g[k] == h[k] {
      var i :| 0 <= i < |nodes| && nodes[i].nodeId == k;
      assert forall d :: d in g[nodes[i].nodeId] <==> d in h[nodes[i].nodeId];
    }
  }

  lemma {:induction false} GraphOfLookup(nodes: seq<DagScheduleNode>)
    requires Distinct(Ids(nodes))
    ensures GraphOf(nodes).Keys == Elements(Ids(nodes))
    ensures forall n | n in nodes :: n.nodeId in GraphOf(nodes) && GraphOf(nodes)[n.nodeId] == Elements(n.dependsOn)
  {
    if nodes != [] {
      var front := nodes[..|nodes| - 1];
      var last := nodes[|nodes| - 1];
      IdsFront(nodes);
      GraphOfLookup(front);
      assert nodes == front + [last];
      forall n | n in nodes
        ensures n.nodeId in GraphOf(nodes) && GraphOf(nodes)[n.nodeId] == Elements(n.dependsOn)
      {
        if n in front {
          IdOfNode(front, n);
        }
      }
    }
  }

  lemma IdsFront(nodes: seq<DagScheduleNode>)
    requires nodes != [] && Distinct(Ids(nodes))
    ensures var front := nodes[..|nodes| - 1];
      && Distinct(Ids(front))
      && Elements(Ids(nodes)) == Elements(Ids(front)) + {nodes[|nodes| - 1].nodeId}
      && nodes[|nodes| - 1].nodeId !in Elements(Ids(front))
  {
  }

  lemma PrecheckedGraph(nodes: seq<DagScheduleNode>, m: int)
    requires Precheck(nodes, m).None?
    ensures Distinct(Ids(nodes)) && GraphOf(nodes).Keys == Elements(Ids(nodes))
    ensures forall n | n in nodes :: n.nodeId in GraphOf(nodes) && GraphOf(nodes)[n.nodeId] == Elements(n.dependsOn)
    ensures Closed(GraphOf(nodes))
  {
    DistinctCount(Ids(nodes));
    GraphOfLookup(nodes);
    forall k | k in GraphOf(nodes) ensures GraphOf(nodes)[k] <= GraphOf(nodes).Keys {
      var n := NodeWithId(nodes, k);
      KnownDependencies(nodes, m, n);
    }
  }

  lemma NodeWithId(nodes: seq<DagScheduleNode>, k: string) returns (n: DagScheduleNode)
    requires k in Elements(Ids(nodes))
    ensures n in nodes && n.nodeId == k
  {
    var i :| 0 <= i < |nodes| && Ids(nodes)[i] == k;
    n := nodes[i];
  }

  lemma IdOfNode(nodes: seq<DagScheduleNode>, n: DagScheduleNode)
    requires n in nodes
    ensures n.nodeId in Elements(Ids(nodes))
  {
  }

  lemma KnownDependencies(nodes: seq<DagScheduleNode>, m: int, n: DagScheduleNode)
    requires Precheck(nodes, m).None? && n in nodes
    ensures Elements(n.dependsOn) <= Elements(Ids(nodes))
  {
  }

  /** On admitted input the outcome is the cycle error exactly when the graph has a cycle;
    otherwise it is a valid schedule. */
  lemma OutcomeExact(nodes: seq<DagScheduleNode>, m: int, g: Graph)
    requires Admitted(nodes, m) && IsGraphOf(nodes, g)
    ensures Outcome(nodes, m) == Err(DependencyCycle) <==> !Acyclic(g)
    ensures Acyclic(g) ==>
      && Outcome(nodes, m).Ok?
      && ValidSchedule(g, Outcome(nodes, m).value.waves, m)
      && PostInit(Outcome(nodes, m).value.waves, m).None?
  {
    EarlyErrorsExact(nodes, m);
    GraphExact(nodes, g);
    PrecheckedGraph(nodes, m);
    ScheduleExactlyAcyclic(g, m);
    if Acyclic(g) {
      var ws := Outcome(nodes, m).value.waves;
      DistinctCount(Flat(ws));
    }
  }

  /** Every wave of the outcome holds the ready nodes that sort first, which fixes the outcome. */
  lemma OutcomeTakesLeast(nodes: seq<DagScheduleNode>, m: int, g: Graph, k: nat)
    requires Admitted(nodes, m) && IsGraphOf(nodes, g)
    requires Outcome(nodes, m).Ok? && k < |Outcome(nodes, m).value.waves|
    ensures var ws := Outcome(nodes, m).value.waves; LeastReady(g, g.Keys - Elements(Flat(ws[..k])), ws[k], m)
  {
    EarlyErrorsExact(nodes, m);
    GraphExact(nodes, g);
    GraphKeys(nodes, m);
    WavesTakeLeast(g, g.Keys, m, Outcome(nodes, m).value.waves, k);
  }

  /** The outcome meets Graham's bound and is within the factor 2 - 1/m of any valid schedule. */
  lemma OutcomeNearOptimal(nodes: seq<DagScheduleNode>, m: int, g: Graph, other: seq<seq<string>>)
    requires Admitted(nodes, m) && IsGraphOf(nodes, g) && Acyclic(g)
    ensures Outcome(nodes, m).Ok?
    ensures m * |Outcome(nodes, m).value.waves| <= |nodes| + (m - 1) * LongestChain(g)
    ensures ValidSchedule(g, other, m) ==> m * |Outcome(nodes, m).value.waves| <= (2 * m - 1) * |other|
  {
    EarlyErrorsExact(nodes, m);
    GraphExact(nodes, g);
    PrecheckedGraph(nodes, m);
    DistinctIds(nodes);
    GrahamBound(g, m);
    assert |g| == |g.Keys| == |nodes|;
    if ValidSchedule(g, other, m) {
      NearOptimal(g, m, other);
    }
  }

  /** The nodes as a dependency relation: ids with sets of dependencies, in no order. */
  ghost function Relation(nodes: seq<DagScheduleNode>): set<(string, set<string>)> {
    set n | n in nodes :: (n.nodeId, Elements(n.dependsOn))
  }

  lemma RelationIds(a: seq<DagScheduleNode>, b: seq<DagScheduleNode>)
    requires Relation(a) == Relation(b)
    ensures Elements(Ids(a)) <= Elements(Ids(b))
  {
    forall k | k in Elements(Ids(a)) ensures k in Elements(Ids(b)) {
      var x := NodeWithId(a, k);
      assert (x.nodeId, Elements(x.dependsOn)) in Relation(b);
      var y :| y in b && x.nodeId == y.nodeId;
      IdOfNode(b, y);
    }
  }

  lemma RelationUnknown(a: seq<DagScheduleNode>, b: seq<DagScheduleNode>)
    requires Relation(a) == Relation(b) && Elements(Ids(a)) == Elements(Ids(b))
    ensures Unknown(a) ==> Unknown(b)
  {
    if Unknown(a) {
      var x :| x in a && !(Elements(x.dependsOn) <= Elements(Ids(a)));
      assert (x.nodeId, Elements(x.dependsOn)) in Relation(b);
    }
  }

  lemma RelationEntry(a: seq<DagScheduleNode>, b: seq<DagScheduleNode>, m: int, k: string)
    requires Precheck(a, m).None? && Precheck(b, m).None? && Relation(a) == Relation(b)
    requires k in Elements(Ids(a))
    ensures k in GraphOf(a) && k in GraphOf(b) && GraphOf(a)[k] == GraphOf(b)[k]
  {
    var x := NodeWithId(a, k);
    assert (x.nodeId, Elements(x.dependsOn)) in Relation(b);
    var y :| y in b && y.nodeId == k && Elements(y.dependsOn) == Elements(x.dependsOn);
    GraphEntry(a, m, x);
    GraphEntry(b, m, y);
  }

  lemma GraphEntry(nodes: seq<DagScheduleNode>, m: int, n: DagScheduleNode)
    requires Precheck(nodes, m).None? && n in nodes
    ensures n.nodeId in GraphOf(nodes) && GraphOf(nodes)[n.nodeId] == Elements(n.dependsOn)
  {
    PrecheckedGraph(nodes, m);
  }

  lemma GraphKeys(nodes: seq<DagScheduleNode>, m: int)
    requires Precheck(nodes, m).None?
    ensures GraphOf(nodes).Keys == Elements(Ids(nodes))
  {
    PrecheckedGraph(nodes, m);
  }

  lemma RelationGraph(a: seq<DagScheduleNode>, b: seq<DagScheduleNode>, m: int)
    requires Precheck(a, m).None? && Precheck(b, m).None?
    requires Relation(a) == Relation(b) && Elements(Ids(a)) == Elements(Ids(b))
    ensures GraphOf(a) == GraphOf(b)
  {
    GraphKeys(a, m);
    GraphKeys(b, m);
    forall k | k in GraphOf(a) ensures GraphOf(a)[k] == GraphOf(b)[k] {
      RelationEntry(a, b, m, k);
    }
  }

  /** Neither the order of the nodes nor the order of their dependencies matters. */
  lemma OrderIrrelevant(a: seq<DagScheduleNode>, b: seq<DagScheduleNode>, m: int)
    requires |a| == |b| && Relation(a) == Relation(b)
    ensures Outcome(a, m) == Outcome(b, m)
  {
    RelationIds(a, b);
    RelationIds(b, a);
    RelationUnknown(a, b);
    RelationUnknown(b, a);
    if Precheck(a, m).None? {
      RelationGraph(a, b, m);
    }
  }

  /** The waves emitted so far, followed by those still to come. */
  function Preceded(waves: seq<seq<string>>, rest: Option<seq<seq<string>>>): Option<seq<seq<string>>> {
    match rest
    case None => None
    case Some(ws) => Some(waves + ws)
  }

  lemma PrecededByNone(rest: Option<seq<seq<string>>>)
    ensures Preceded([], rest) == rest
  {
    if rest.Some? {
      assert [] + rest.value == rest.value;
    }
  }

  lemma PrecededByOneMore(waves: seq<seq<string>>, w: seq<string>, rest: Option<seq<seq<string>>>)
    ensures Preceded(waves, Preceded([w], rest)) == Preceded(waves + [w], rest)
  {
    if rest.Some? {
      assert waves + ([w] + rest.value) == waves + [w] + rest.value;
    }
  }

  lemma WavesStep(g: Graph, r: set<string>, m: nat)
    requires m >= 1 && r != {} && Wave(g, r, m) != []
    ensures r - Elements(Wave(g, r, m)) < r
    ensures Waves(g, r, m) == Preceded([Wave(g, r, m)], Waves(g, r - Elements(Wave(g, r, m)), m))
  {
  }

  /** How the loop ends decides the outcome. */
  lemma LoopEnd(nodes: seq<DagScheduleNode>, m: int, waves: seq<seq<string>>, r: set<string>)
    requires Precheck(nodes, m).None?
    requires Waves(GraphOf(nodes), Elements(Ids(nodes)), m) == Preceded(waves, Waves(GraphOf(nodes), r, m))
    ensures r == {} ==> Outcome(nodes, m) == Ok(DagSchedule(waves, m))
    ensures r != {} && Wave(GraphOf(nodes), r, m) == [] ==> Outcome(nodes, m) == Err(DependencyCycle)
  {
    assert waves + [] == waves;
  }

  /** `schedule_dag`. The loop shrinks `remaining` and appends to `waves`, as the source does;
    the rejection by `PostInit` at the end is never taken. */
  method ScheduleDag(nodes: seq<DagScheduleNode>, maxParallel: int) returns (r: Result<DagSchedule, Error>)
    ensures r == Outcome(nodes, maxParallel)
    ensures r.Ok? || r == Err(DependencyCycle) <==> Admitted(nodes, maxParallel)
    ensures Admitted(nodes, maxParallel) ==> forall g | IsGraphOf(nodes, g) ::
      if Acyclic(g) then r.Ok? && r.value.maxParallel == maxParallel && ValidSchedule(g, r.value.waves, maxParallel)
      else r == Err(DependencyCycle)
  {
    EarlyErrorsExact(nodes, maxParallel);
    forall g | IsGraphOf(nodes, g) && DistinctNodes(nodes) ensures g == GraphOf(nodes) {
      GraphExact(nodes, g);
    }
    var failed := Precheck(nodes, maxParallel);
    if failed.Some? {
      return Err(failed.value);
    }
    PrecheckedGraph(nodes, maxParallel);
    GraphOfNodes(nodes);
    OutcomeExact(nodes, maxParallel, GraphOf(nodes));
    var ids := Elements(Ids(nodes));
    var dependencies := GraphOf(nodes);
    var remaining := ids;
    var waves: seq<seq<string>> := [];
    PrecededByNone(Waves(dependencies, ids, maxParallel));
    while remaining != {}
      invariant remaining <= ids
      invariant Waves(dependencies, ids, maxParallel) ==
        Preceded(waves, Waves(dependencies, remaining, maxParallel))
    {
      LoopEnd(nodes, maxParallel, waves, remaining);
      var ready := Sorted(Ready(dependencies, remaining));
      if ready == [] {
        return Err(DependencyCycle);
      }
      var selected := if maxParallel < |ready| then ready[..maxParallel] else ready;
      assert selected == Wave(dependencies, remaining, maxParallel);
      WavesStep(dependencies, remaining, maxParallel);
      PrecededByOneMore(waves, selected, Waves(dependencies, remaining - Elements(selected), maxParallel));
      waves := waves + [selected];
      remaining := remaining - Elements(selected);
    }
    LoopEnd(nodes, maxParallel, waves, remaining);
    return match PostInit(waves, maxParallel)
      case Some(e) => Err(e)
      case None => Ok(DagSchedule(waves, maxParallel));
  }
}
