/** Canonical runbook text (src/m365_mcp/xapp_runbook_serialization.py). */
module Runbook {
  import opened Digests
  import opened Results
  import opened Ordering
  import opened CanonicalJson

  datatype CanonicalRunbookNode = CanonicalRunbookNode(
    nodeId: string, toolName: string, dependsOn: seq<string>, inputBindingKeys: seq<string>)

  datatype CanonicalRunbook = CanonicalRunbook(runbookKey: string, version: string, nodes: seq<CanonicalRunbookNode>)

  function Strings(s: seq<string>): (r: seq<Json>)
    ensures |r| == |s| && forall i | 0 <= i < |s| :: r[i] == Str(s[i])
  {
    seq(|s|, i requires 0 <= i < |s| => Str(s[i]))
  }

  function NodeProjection(n: CanonicalRunbookNode): Json {
    Obj(map[
      "node_id" := Str(n.nodeId),
      "tool_name" := Str(n.toolName),
      "depends_on" := Arr(Strings(Sorted(Elements(n.dependsOn)))),
      "input_binding_keys" := Arr(Strings(Sorted(Elements(n.inputBindingKeys))))
    ])
  }

  function NodeId(n: CanonicalRunbookNode): string {
    n.nodeId
  }

  /** `sorted(self.nodes, key=lambda item: item.node_id)` */
  function SortedNodes(r: CanonicalRunbook): seq<CanonicalRunbookNode>
    requires InjectiveOn(NodeId, Elements(r.nodes))
  {
    SortBy(NodeId, Elements(r.nodes))
  }

  function Projections(nodes: seq<CanonicalRunbookNode>): (r: seq<Json>)
    ensures |r| == |nodes| && forall i | 0 <= i < |nodes| :: r[i] == NodeProjection(nodes[i])
  {
    seq(|nodes|, i requires 0 <= i < |nodes| => NodeProjection(nodes[i]))
  }

  function Projection(r: CanonicalRunbook): Json
    requires InjectiveOn(NodeId, Elements(r.nodes))
  {
    Obj(map[
      "runbook_key" := Str(r.runbookKey),
      "version" := Str(r.version),
      "nodes" := Arr(Projections(SortedNodes(r)))
    ])
  }

  function CanonicalRunbookJson(r: CanonicalRunbook): string
    requires InjectiveOn(NodeId, Elements(r.nodes))
  {
    Dumps(false, Projection(r))
  }

  /** No two nodes have one id, as the constructor demands. */
  ghost predicate DistinctNodes(r: CanonicalRunbook) {
    forall i, j | 0 <= i < j < |r.nodes| :: r.nodes[i].nodeId != r.nodes[j].nodeId
  }

  lemma UniqueIds(r: CanonicalRunbook)
    requires DistinctNodes(r)
    ensures InjectiveOn(NodeId, Elements(r.nodes))
  {
  }

  // ----- what a runbook means

  /** A node without the order of its dependencies and binding keys. */
  datatype Fact = Fact(nodeId: string, toolName: string, dependsOn: set<string>, inputBindingKeys: set<string>)

  function FactOf(n: CanonicalRunbookNode): Fact {
    Fact(n.nodeId, n.toolName, Elements(n.dependsOn), Elements(n.inputBindingKeys))
  }

  function Facts(nodes: seq<CanonicalRunbookNode>): set<Fact> {
    set n | n in nodes :: FactOf(n)
  }

  /** A runbook without the order of its nodes. */
  datatype Meaning = Meaning(runbookKey: string, version: string, facts: set<Fact>)

  function MeaningOf(r: CanonicalRunbook): Meaning {
    Meaning(r.runbookKey, r.version, Facts(r.nodes))
  }

  lemma SameElementsSameFacts(a: seq<CanonicalRunbookNode>, b: seq<CanonicalRunbookNode>)
    requires Elements(a) == Elements(b)
    ensures Facts(a) == Facts(b)
  {
    assert forall n | n in a :: n in Elements(b);
    assert forall n | n in b :: n in Elements(a);
  }

  // ----- reading a canonical text

  function TextAt(fields: map<string, Json>, k: string): Option<string> {
    if k in fields && fields[k].Str? then Some(fields[k].s) else None
  }

  function AllStrings(items: seq<Json>): Option<set<string>> {
    if items == [] then Some({})
    else
      match (items[0], AllStrings(items[1..]))
      case (Str(t), Some(rest)) => Some({t} + rest)
      case _ => None
  }

  function StringsAt(fields: map<string, Json>, k: string): Option<set<string>> {
    if k in fields && fields[k].Arr? then AllStrings(fields[k].items) else None
  }

  function DecodeNode(v: Json): Option<Fact> {
    if !v.Obj? then None
    else
      match (TextAt(v.fields, "node_id"), TextAt(v.fields, "tool_name"),
             StringsAt(v.fields, "depends_on"), StringsAt(v.fields, "input_binding_keys"))
      case (Some(id), Some(tool), Some(deps), Some(keys)) => Some(Fact(id, tool, deps, keys))
      case _ => None
  }

  function DecodeNodes(items: seq<Json>): Option<set<Fact>> {
    if items == [] then Some({})
    else
      match (DecodeNode(items[0]), DecodeNodes(items[1..]))
      case (Some(fact), Some(rest)) => Some({fact} + rest)
      case _ => None
  }

  function DecodeFields(fields: map<string, Json>): Option<Meaning> {
    if "nodes" !in fields || !fields["nodes"].Arr? then None
    else
      match (TextAt(fields, "runbook_key"), TextAt(fields, "version"), DecodeNodes(fields["nodes"].items))
      case (Some(key), Some(version), Some(facts)) => Some(Meaning(key, version, facts))
      case _ => None
  }

  /** Parses a text and reads the named fields of the runbook and its nodes. */
  function Decode(text: string): Option<Meaning> {
    match Parse(text)
    case Some((Obj(fields), "")) => DecodeFields(fields)
    case _ => None
  }

  lemma {:induction false} AllStringsExact(s: seq<string>)
    ensures AllStrings(Strings(s)) == Some(Elements(s))
  {
    if s == [] {
      assert Elements(s) == {};
    } else {
      assert Strings(s)[1..] == Strings(s[1..]);
      AllStringsExact(s[1..]);
      assert Elements(s) == {s[0]} + Elements(s[1..]);
    }
  }

  lemma FourNames(k: string, l: string, m: string, n: string, a: Json, b: Json, c: Json, d: Json)
    requires k != l && k != m && k != n && l != m && l != n && m != n
    ensures var f := map[k := a, l := b, m := c, n := d];
      k in f && f[k] == a && l in f && f[l] == b && m in f && f[m] == c && n in f && f[n] == d
  {
  }

  lemma DecodeNodeInverts(n: CanonicalRunbookNode)
    ensures DecodeNode(NodeProjection(n)) == Some(FactOf(n))
  {
    FourNames("node_id", "tool_name", "depends_on", "input_binding_keys",
      Str(n.nodeId), Str(n.toolName),
      Arr(Strings(Sorted(Elements(n.dependsOn)))), Arr(Strings(Sorted(Elements(n.inputBindingKeys)))));
    AllStringsExact(Sorted(Elements(n.dependsOn)));
    AllStringsExact(Sorted(Elements(n.inputBindingKeys)));
  }

  lemma DecodeItem(v: Json, rest: seq<Json>, fact: Fact, facts: set<Fact>)
    requires DecodeNode(v) == Some(fact) && DecodeNodes(rest) == Some(facts)
    ensures DecodeNodes([v] + rest) == Some({fact} + facts)
  {
    assert ([v] + rest)[1..] == rest;
  }

  /** The items decode to the facts, one by one. */
  ghost predicate DecodesTo(items: seq<Json>, facts: seq<Fact>) {
    |items| == |facts| && forall i | 0 <= i < |items| :: DecodeNode(items[i]) == Some(facts[i])
  }

  lemma DecodesTail(items: seq<Json>, facts: seq<Fact>)
    requires DecodesTo(items, facts) && items != []
    ensures DecodesTo(items[1..], facts[1..]) && DecodeNode(items[0]) == Some(facts[0])
  {
  }

  lemma {:induction false} DecodeAll(items: seq<Json>, facts: seq<Fact>)
    requires DecodesTo(items, facts)
    ensures DecodeNodes(items) == Some(Elements(facts))
  {
    if items == [] {
      assert Elements(facts) == {};
    } else {
      DecodesTail(items, facts);
      DecodeAll(items[1..], facts[1..]);
      DecodeItem(items[0], items[1..], facts[0], Elements(facts[1..]));
      assert items == [items[0]] + items[1..];
      assert facts == [facts[0]] + facts[1..];
      assert Elements(facts) == {facts[0]} + Elements(facts[1..]);
    }
  }

  function FactList(nodes: seq<CanonicalRunbookNode>): (r: seq<Fact>)
    ensures |r| == |nodes| && forall i | 0 <= i < |nodes| :: r[i] == FactOf(nodes[i])
  {
    seq(|nodes|, i requires 0 <= i < |nodes| => FactOf(nodes[i]))
  }

  lemma FactListElements(nodes: seq<CanonicalRunbookNode>)
    ensures Elements(FactList(nodes)) == Facts(nodes)
  {
  }

  lemma DecodeNodesInverts(nodes: seq<CanonicalRunbookNode>)
    ensures DecodeNodes(Projections(nodes)) == Some(Facts(nodes))
  {
    var items, facts := Projections(nodes), FactList(nodes);
    forall i | 0 <= i < |items| ensures DecodeNode(items[i]) == Some(facts[i]) {
      DecodeNodeInverts(nodes[i]);
    }
    DecodeAll(items, facts);
    FactListElements(nodes);
  }

  lemma ThreeNames(k: string, l: string, m: string, a: Json, b: Json, c: Json)
    requires k != l && k != m && l != m
    ensures var f := map[k := a, l := b, m := c]; k in f && f[k] == a && l in f && f[l] == b && m in f && f[m] == c
  {
  }

  /** The canonical text can be read back: it holds the key, the version and the nodes, each
    field under its own name. */
  lemma DecodeInverts(r: CanonicalRunbook)
    requires InjectiveOn(NodeId, Elements(r.nodes))
    ensures Decode(CanonicalRunbookJson(r)) == Some(MeaningOf(r))
  {
    RoundTrip(false, Projection(r), "");
    assert CanonicalRunbookJson(r) + "" == CanonicalRunbookJson(r);
    DecodeFieldsInverts(r);
  }

  lemma DecodeFieldsInverts(r: CanonicalRunbook)
    requires InjectiveOn(NodeId, Elements(r.nodes))
    ensures DecodeFields(Projection(r).fields) == Some(MeaningOf(r))
  {
    ThreeNames("runbook_key", "version", "nodes",
      Str(r.runbookKey), Str(r.version), Arr(Projections(SortedNodes(r))));
    DecodeNodesInverts(SortedNodes(r));
    SameElementsSameFacts(SortedNodes(r), r.nodes);
  }

  // ----- exactness

  /** Two runbooks print alike exactly when they mean the same: equal key and version,
    and equal sets of nodes, with dependencies and binding keys compared as sets. */
  lemma CanonicalTextExact(a: CanonicalRunbook, b: CanonicalRunbook)
    requires DistinctNodes(a) && DistinctNodes(b)
    ensures InjectiveOn(NodeId, Elements(a.nodes)) && InjectiveOn(NodeId, Elements(b.nodes))
    ensures CanonicalRunbookJson(a) == CanonicalRunbookJson(b) <==> MeaningOf(a) == MeaningOf(b)
  {
    UniqueIds(a);
    UniqueIds(b);
    if CanonicalRunbookJson(a) == CanonicalRunbookJson(b) {
      DecodeInverts(a);
      DecodeInverts(b);
    }
    if MeaningOf(a) == MeaningOf(b) {
      MeaningDeterminesNodes(a, b);
    }
  }

  lemma FactsDetermineIds(a: seq<CanonicalRunbookNode>, b: seq<CanonicalRunbookNode>)
    requires Facts(a) <= Facts(b)
    ensures Keys(NodeId, Elements(a)) <= Keys(NodeId, Elements(b))
  {
    forall k | k in Keys(NodeId, Elements(a)) ensures k in Keys(NodeId, Elements(b)) {
      var n :| n in a && n.nodeId == k;
      assert FactOf(n) in Facts(b);
      var m :| m in b && FactOf(m) == FactOf(n);
      assert NodeId(m) == k && m in Elements(b);
    }
  }

  lemma MeaningDeterminesNodes(a: CanonicalRunbook, b: CanonicalRunbook)
    requires InjectiveOn(NodeId, Elements(a.nodes)) && InjectiveOn(NodeId, Elements(b.nodes))
    requires Facts(a.nodes) == Facts(b.nodes)
    ensures Projections(SortedNodes(a)) == Projections(SortedNodes(b))
  {
    FactsDetermineIds(a.nodes, b.nodes);
    FactsDetermineIds(b.nodes, a.nodes);
    var x, y := SortedNodes(a), SortedNodes(b);
    assert Keys(NodeId, Elements(a.nodes)) == Keys(NodeId, Elements(b.nodes));
    forall i | 0 <= i < |x| ensures NodeProjection(x[i]) == NodeProjection(y[i]) {
      SameFactAt(a, b, x[i], y[i]);
    }
  }

  lemma SameFactAt(a: CanonicalRunbook, b: CanonicalRunbook, x: CanonicalRunbookNode, y: CanonicalRunbookNode)
    requires InjectiveOn(NodeId, Elements(b.nodes)) && Facts(a.nodes) == Facts(b.nodes)
    requires x in a.nodes && y in b.nodes && NodeId(x) == NodeId(y)
    ensures NodeProjection(x) == NodeProjection(y)
  {
    assert FactOf(x) in Facts(b.nodes);
    var m :| m in b.nodes && FactOf(m) == FactOf(x);
    assert m in Elements(b.nodes) && y in Elements(b.nodes) && NodeId(m) == NodeId(y);
    assert m == y;
  }

  /** The digest identifies the meaning as well, for any collision-free hash of texts. */
  lemma CanonicalDigestExact(hash: Digest, a: CanonicalRunbook, b: CanonicalRunbook)
    requires CollisionFree(hash)
    requires DistinctNodes(a) && DistinctNodes(b)
    ensures InjectiveOn(NodeId, Elements(a.nodes)) && InjectiveOn(NodeId, Elements(b.nodes))
    ensures hash(CanonicalRunbookJson(a)) == hash(CanonicalRunbookJson(b)) <==> MeaningOf(a) == MeaningOf(b)
  {
    CanonicalTextExact(a, b);
  }
}
