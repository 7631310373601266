/** Chunked scheduling of independent nodes (src/m365_mcp/xapp_batch_scheduler.py), and its
  agreement with the DAG scheduler. */
module BatchScheduler {
  import opened Results
  import opened Ordering
  import opened DependencyGraph
  import DagScheduler

  const MAX_BATCH_NODES := 50
  const MAX_PARALLEL := 6

  datatype BoundedBatchSchedule = BoundedBatchSchedule(waves: seq<seq<string>>, maxParallel: int)

  datatype Error =
    | NoNodes
    | TooManyNodes
    | ParallelOutOfRange
    | DuplicateIds
    | RepeatedNode
    | WaveOutOfRange

  /** Consecutive slices of length m; the last one may be shorter. */
  function Chunks(s: seq<string>, m: nat): seq<seq<string>>
    requires m >= 1
    decreases |s|
  {
    if s == [] then []
    else if |s| <= m then [s]
    else [s[..m]] + Chunks(s[m..], m)
  }

  /** The slice `s[lo : lo + m]`. */
  function Slice(s: seq<string>, lo: nat, m: nat): seq<string>
    requires lo <= |s|
  {
    if lo + m <= |s| then s[lo..lo + m] else s[lo..]
  }

  /** The waves are the ordered ids cut into ceil(n / m) pieces. */
  lemma {:induction false} ChunksFlat(s: seq<string>, m: nat)
    requires m >= 1
    ensures DagScheduler.Flat(Chunks(s, m)) == s
    ensures forall w | w in Chunks(s, m) :: 1 <= |w| <= m
    ensures |s| <= m * |Chunks(s, m)| < |s| + m
    decreases |s|
  {
    if |s| > m {
      ChunksFlat(s[m..], m);
      assert s == s[..m] + s[m..];
      DagScheduler.Distribute(m, |Chunks(s[m..], m)|);
    } else if s != [] {
      assert DagScheduler.Flat([s]) == s + [];
    }
  }

  /** Element k of `range(0, n, m)`. */
  function RangeAt(m: nat, k: nat): nat {
    if k == 0 then 0 else RangeAt(m, k - 1) + m
  }

  /** Wave k is the slice that starts at element k of `range(0, n, m)`. */
  lemma {:induction false} ChunkAt(s: seq<string>, m: nat, k: nat)
    requires m >= 1 && k < |Chunks(s, m)|
    ensures RangeAt(m, k) < |s| && Chunks(s, m)[k] == Slice(s, RangeAt(m, k), m)
    decreases k
  {
    if k > 0 {
      ChunkLater(s, m, k);
      ChunkAt(s[m..], m, k - 1);
      SliceShift(s, m, RangeAt(m, k - 1));
    }
  }

  lemma ChunkLater(s: seq<string>, m: nat, k: nat)
    requires m >= 1 && 1 <= k < |Chunks(s, m)|
    ensures m < |s| && k - 1 < |Chunks(s[m..], m)| && Chunks(s, m)[k] == Chunks(s[m..], m)[k - 1]
  {
  }

  lemma SliceShift(s: seq<string>, m: nat, lo: nat)
    requires m + lo <= |s|
    ensures Slice(s[m..], lo, m) == Slice(s, lo + m, m)
  {
  }

  // ----- schedule_bounded_batch

  function PostInit(ws: seq<seq<string>>, maxParallel: int): Option<Error> {
    if !(1 <= maxParallel <= MAX_PARALLEL) then Some(ParallelOutOfRange)
    else if |DagScheduler.Flat(ws)| != |Elements(DagScheduler.Flat(ws))| then Some(RepeatedNode)
    else if exists w | w in ws :: w == [] || |w| > maxParallel then Some(WaveOutOfRange)
    else None
  }

  /** The result is checked like that of the DAG scheduler. */
  lemma PostInitExact(ws: seq<seq<string>>, m: int)
    ensures PostInit(ws, m).None? <==> DagScheduler.PostInit(ws, m).None?
    ensures PostInit(ws, m) == Some(ParallelOutOfRange) <==> !(1 <= m <= 6)
    ensures PostInit(ws, m) == Some(RepeatedNode) <==> 1 <= m <= 6 && !Distinct(DagScheduler.Flat(ws))
  {
    DistinctCount(DagScheduler.Flat(ws));
  }

  function ScheduleBoundedBatch(nodeIds: seq<string>, maxParallel: int): Result<BoundedBatchSchedule, Error> {
    if nodeIds == [] then Err(NoNodes)
    else if |nodeIds| > MAX_BATCH_NODES then Err(TooManyNodes)
    else if !(1 <= maxParallel <= MAX_PARALLEL) then Err(ParallelOutOfRange)
    else if |Elements(nodeIds)| != |nodeIds| then Err(DuplicateIds)
    else
      var waves := Chunks(Sorted(Elements(nodeIds)), maxParallel);
      match PostInit(waves, maxParallel)
      case Some(e) => Err(e)
      case None => Ok(BoundedBatchSchedule(waves, maxParallel))
  }

  /** At most fifty ids and six parallel slots, and no id twice. */
  ghost predicate Admissible(nodeIds: seq<string>, m: int) {
    1 <= |nodeIds| <= 50 && 1 <= m <= 6 && Distinct(nodeIds)
  }

  /** Each error exactly, in the order of the checks. The checks of the result never fail. */
  lemma BatchErrorsExact(nodeIds: seq<string>, m: int)
    ensures ScheduleBoundedBatch(nodeIds, m) == Err(NoNodes) <==> |nodeIds| == 0
    ensures ScheduleBoundedBatch(nodeIds, m) == Err(TooManyNodes) <==> |nodeIds| > 50
    ensures ScheduleBoundedBatch(nodeIds, m) == Err(ParallelOutOfRange) <==> 1 <= |nodeIds| <= 50 && !(1 <= m <= 6)
    ensures ScheduleBoundedBatch(nodeIds, m) == Err(DuplicateIds) <==>
      1 <= |nodeIds| <= 50 && 1 <= m <= 6 && !Distinct(nodeIds)
    ensures ScheduleBoundedBatch(nodeIds, m).Ok? <==> Admissible(nodeIds, m)
  {
    DistinctCount(nodeIds);
    if Admissible(nodeIds, m) {
      BatchOutcome(nodeIds, m);
    }
  }

  lemma BatchOutcome(nodeIds: seq<string>, m: int)
    requires Admissible(nodeIds, m)
    ensures var waves := Chunks(Sorted(Elements(nodeIds)), m);
      ScheduleBoundedBatch(nodeIds, m) == Ok(BoundedBatchSchedule(waves, m))
  {
    DistinctCount(nodeIds);
    var ordered := Sorted(Elements(nodeIds));
    ChunksFlat(ordered, m);
    IncreasingDistinct(ordered);
    DistinctCount(ordered);
  }

  /** On admissible input the schedule exists, flattens to the sorted ids, has ceil(n / m) non-empty
    waves of at most m ids, and wave k is the slice of the sorted ids that starts at k times m. */
  lemma BatchSchedule(nodeIds: seq<string>, m: int)
    requires Admissible(nodeIds, m)
    ensures ScheduleBoundedBatch(nodeIds, m).Ok?
    ensures var r := ScheduleBoundedBatch(nodeIds, m).value;
      && r.maxParallel == m
      && DagScheduler.Flat(r.waves) == Sorted(Elements(nodeIds))
      && (forall w | w in r.waves :: 1 <= |w| <= m)
      && |nodeIds| <= m * |r.waves| < |nodeIds| + m
      && forall k | 0 <= k < |r.waves| ::
        RangeAt(m, k) < |nodeIds| && r.waves[k] == Slice(Sorted(Elements(nodeIds)), RangeAt(m, k), m)
  {
    BatchOutcome(nodeIds, m);
    DistinctCount(nodeIds);
    var ordered := Sorted(Elements(nodeIds));
    ChunksFlat(ordered, m);
    forall k | 0 <= k < |Chunks(ordered, m)|
      ensures RangeAt(m, k) < |nodeIds| && Chunks(ordered, m)[k] == Slice(ordered, RangeAt(m, k), m)
    {
      ChunkAt(ordered, m, k);
    }
  }

  // ----- agreement with the DAG scheduler

  ghost predicate Independent(g: Graph) {
    forall n | n in g :: g[n] == {}
  }

  /** Without dependencies the topological waves are exactly the chunks of the sorted ids. */
  lemma {:induction false} IndependentWaves(g: Graph, r: set<string>, m: nat)
    requires m >= 1 && Independent(g) && r <= g.Keys
    ensures DagScheduler.Waves(g, r, m) == Some(Chunks(Sorted(r), m))
    decreases r
  {
    if r != {} {
      assert Ready(g, r) == r;
      var w := DagScheduler.Wave(g, r, m);
      IndependentWave(g, r, m);
      IndependentWaves(g, r - Elements(w), m);
      DagScheduler.WavesStep(g, r, m);
    }
  }

  lemma IndependentWave(g: Graph, r: set<string>, m: nat)
    requires m >= 1 && r != {} && Ready(g, r) == r
    ensures var w := DagScheduler.Wave(g, r, m);
      && w != [] && r - Elements(w) < r
      && Chunks(Sorted(r), m) == [w] + Chunks(Sorted(r - Elements(w)), m)
  {
    var w := DagScheduler.Wave(g, r, m);
    ChunksHead(Sorted(r), m, w);
    SortedDrop(r, |w|);
    assert w[0] in Elements(w);
  }

  lemma ChunksHead(s: seq<string>, m: nat, w: seq<string>)
    requires m >= 1 && s != [] && w == (if m < |s| then s[..m] else s)
    ensures w != [] && |w| <= |s| && s[..|w|] == w && Chunks(s, m) == [w] + Chunks(s[|w|..], m)
  {
  }

  /** A DAG without edges is scheduled exactly like a batch of the same ids. */
  lemma DagRefinesBatch(nodes: seq<DagScheduler.DagScheduleNode>, m: int)
    requires DagScheduler.Admitted(nodes, m) && |nodes| <= 50
    requires forall n | n in nodes :: n.dependsOn == []
    ensures DagScheduler.Outcome(nodes, m).Ok?
    ensures ScheduleBoundedBatch(DagScheduler.Ids(nodes), m).Ok?
    ensures DagScheduler.Outcome(nodes, m).value.waves == ScheduleBoundedBatch(DagScheduler.Ids(nodes), m).value.waves
  {
    DagScheduler.EarlyErrorsExact(nodes, m);
    DagScheduler.DistinctIds(nodes);
    IndependentOutcome(nodes, m);
    DistinctCount(DagScheduler.Ids(nodes));
    BatchOutcome(DagScheduler.Ids(nodes), m);
  }

  lemma IndependentOutcome(nodes: seq<DagScheduler.DagScheduleNode>, m: int)
    requires DagScheduler.Precheck(nodes, m).None?
    requires forall n | n in nodes :: n.dependsOn == []
    ensures var waves := Chunks(Sorted(Elements(DagScheduler.Ids(nodes))), m);
      DagScheduler.Outcome(nodes, m) == Ok(DagScheduler.DagSchedule(waves, m))
  {
    IndependentGraph(nodes, m);
    DagScheduler.GraphKeys(nodes, m);
    var g := DagScheduler.GraphOf(nodes);
    IndependentWaves(g, g.Keys, m);
  }

  lemma IndependentGraph(nodes: seq<DagScheduler.DagScheduleNode>, m: int)
    requires DagScheduler.Precheck(nodes, m).None?
    requires forall n | n in nodes :: n.dependsOn == []
    ensures Independent(DagScheduler.GraphOf(nodes))
  {
    DagScheduler.GraphKeys(nodes, m);
    var g := DagScheduler.GraphOf(nodes);
    forall k | k in g ensures g[k] == {} {
      var n := DagScheduler.NodeWithId(nodes, k);
      DagScheduler.GraphEntry(nodes, m, n);
    }
  }
}
