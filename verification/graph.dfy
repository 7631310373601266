/** Dependency graphs: what "cycle", "depends on" and "longest chain" mean.

  The definitions here mention no algorithm; the scheduler and the propagation planner are
  proved against them. */
module DependencyGraph {
  import opened Ordering

  /** Each node id with the ids it depends on. */
  type Graph = map<string, set<string>>

  ghost predicate Closed(g: Graph) {
    forall n | n in g :: g[n] <= g.Keys
  }

  /** Each element is a direct dependency of the next one. */
  ghost predicate Chain(g: Graph, c: seq<string>) {
    && (forall x | x in c :: x in g)
    && (forall i | 0 <= i < |c| - 1 :: c[i] in g[c[i + 1]])
  }

  ghost predicate Cycle(g: Graph, c: seq<string>) {
    |c| >= 2 && Chain(g, c) && c[0] == c[|c| - 1]
  }

  ghost predicate Acyclic(g: Graph) {
    forall c :: !Cycle(g, c)
  }

  /** `a` is `b` or one of its transitive dependencies. */
  ghost predicate Reaches(g: Graph, a: string, b: string) {
    exists c :: ChainBetween(g, c, a, b)
  }

  ghost predicate ChainBetween(g: Graph, c: seq<string>, a: string, b: string) {
    c != [] && Chain(g, c) && c[0] == a && c[|c| - 1] == b
  }

  /** The nodes of `remaining` none of whose dependencies remain. */
  function Ready(g: Graph, remaining: set<string>): set<string> {
    set n | n in remaining && n in g && g[n] * remaining == {}
  }

  // ----- chains

  lemma ChainSlice(g: Graph, c: seq<string>, i: nat, j: nat)
    requires Chain(g, c) && i <= j <= |c|
    ensures Chain(g, c[i..j])
  {
  }

  lemma ChainPrepend(g: Graph, d: string, c: seq<string>)
    requires Chain(g, c) && d in g && (c != [] ==> d in g[c[0]])
    ensures Chain(g, [d] + c)
  {
  }

  lemma ReachesSelf(g: Graph, n: string)
    requires n in g
    ensures Reaches(g, n, n)
  {
    assert ChainBetween(g, [n], n, n);
  }

  /** The transitive dependencies of n are n and those of its direct dependencies. */
  lemma ReachesStep(g: Graph, a: string, n: string)
    requires Closed(g) && n in g
    ensures Reaches(g, a, n) <==> a == n || exists d | d in g[n] :: Reaches(g, a, d)
  {
    if a == n {
      ReachesSelf(g, n);
    } else if d :| d in g[n] && Reaches(g, a, d) {
      var c :| ChainBetween(g, c, a, d);
      var e := c + [n];
      forall k | 0 <= k < |e| - 1 ensures e[k] in g[e[k + 1]] {
        if k < |c| - 1 {
          assert c[k] in g[c[k + 1]];
        }
      }
      assert ChainBetween(g, e, a, n);
    } else if Reaches(g, a, n) {
      var c :| ChainBetween(g, c, a, n);
      var front := c[..|c| - 1];
      ChainSlice(g, c, 0, |c| - 1);
      assert c[0..|c| - 1] == front;
      assert c[|c| - 2] in g[c[|c| - 1]];
      assert ChainBetween(g, front, a, c[|c| - 2]);
    }
  }

  // ----- cycles

  /** When every remaining node waits for a remaining node, one can walk backwards for ever. */
  lemma {:induction false} BackwardWalk(g: Graph, r: set<string>, k: nat) returns (c: seq<string>)
    requires r != {} && r <= g.Keys && Ready(g, r) == {}
    ensures |c| == k && Chain(g, c) && Elements(c) <= r
  {
    if k == 0 {
      c := [];
    } else {
      var rest := BackwardWalk(g, r, k - 1);
      var d: string;
      if rest == [] {
        d :| d in r;
      } else {
        assert rest[0] in Elements(rest);
        assert rest[0] !in Ready(g, r);
        d :| d in g[rest[0]] * r;
      }
      ChainPrepend(g, d, rest);
      c := [d] + rest;
      assert Elements(c) == {d} + Elements(rest);
    }
  }

  lemma StuckHasCycle(g: Graph, r: set<string>)
    requires r != {} && r <= g.Keys && Ready(g, r) == {}
    ensures !Acyclic(g)
  {
    var c := BackwardWalk(g, r, |r| + 1);
    SubsetCount(Elements(c), r);
    DistinctCount(c);
    var i, j :| 0 <= i < j < |c| && c[i] == c[j];
    ChainSlice(g, c, i, j + 1);
    assert Cycle(g, c[i..j + 1]);
  }

  /** A node on a cycle never becomes ready while the cycle remains. */
  lemma CycleNeverReady(g: Graph, c: seq<string>, r: set<string>)
    requires Cycle(g, c) && Elements(c) <= r
    ensures Elements(c) !! Ready(g, r)
  {
    forall x | x in c ensures x !in Ready(g, r) {
      var i :| 0 <= i < |c| && c[i] == x;
      var j := if i == 0 then |c| - 1 else i;
      assert c[j - 1] in g[c[j]];
      assert c[j - 1] in Elements(c);
      assert c[j - 1] in g[x] * r;
    }
  }

  // ----- longest chains

  lemma AcyclicChainShort(g: Graph, c: seq<string>)
    requires Acyclic(g) && Chain(g, c)
    ensures Distinct(c) && |c| <= |g|
  {
    forall i, j | 0 <= i < j < |c| ensures c[i] != c[j] {
      if c[i] == c[j] {
        ChainSlice(g, c, i, j + 1);
        assert Cycle(g, c[i..j + 1]);
      }
    }
    DistinctCount(c);
    SubsetCount(Elements(c), g.Keys);
  }

  ghost predicate HasChain(g: Graph, k: nat) {
    exists c :: Chain(g, c) && |c| == k
  }

  ghost function ChainSearch(g: Graph, k: nat): nat {
    if k == 0 || HasChain(g, k) then k else ChainSearch(g, k - 1)
  }

  /** The number of nodes on a longest dependency chain. */
  ghost function LongestChain(g: Graph): nat {
    ChainSearch(g, |g|)
  }

  lemma {:induction false} ChainSearchIsMax(g: Graph, k: nat)
    ensures HasChain(g, ChainSearch(g, k)) && ChainSearch(g, k) <= k
    ensures forall c | Chain(g, c) && |c| <= k :: |c| <= ChainSearch(g, k)
  {
    if k == 0 {
      assert Chain(g, []);
    } else if !HasChain(g, k) {
      ChainSearchIsMax(g, k - 1);
    }
  }

  lemma LongestChainIsLongest(g: Graph)
    requires Acyclic(g)
    ensures HasChain(g, LongestChain(g))
    ensures forall c | Chain(g, c) :: |c| <= LongestChain(g)
  {
    ChainSearchIsMax(g, |g|);
    forall c | Chain(g, c) ensures |c| <= LongestChain(g) {
      AcyclicChainShort(g, c);
    }
  }
}
