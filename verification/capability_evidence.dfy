/** The append-only log of UI evidence (src/m365_mcp/capability_evidence.py).

  The table is the sequence of its records in order of `sequence`. The identity of a record and
  the digest of a contract set are parameters; where they must tell their arguments apart, the
  lemmas say so. */
module CapabilityEvidence {
  import opened Ordering
  import opened Results
  import opened Timestamps
  import opened UIContract

  type UtcTime = t: DateTime | t.Valid() witness DateTime(1, 1, 1, 0, 0, 0, 0)

  datatype Record = Record(
    fragmentId: string, version: string, scope: Scope, application: Option<string>, surface: Option<string>,
    contractDigest: string, evidenceDigest: string, state: UILifecycleState, recordedAt: UtcTime)

  type Identify = Record -> string

  type DigestOf = ContractSet -> string

  ghost predicate TellsRecordsApart(identify: Identify) {
    forall r, s :: identify(r) == identify(s) ==> r == s
  }

  ghost predicate TellsSetsApart(digestOf: DigestOf) {
    forall a, b :: digestOf(a) == digestOf(b) ==> a == b
  }

  datatype Error = DigestMismatch | UnknownFragment | MetadataMismatch

  // ----- append

  predicate SameMetadata(r: Record, f: Fragment) {
    r.version == f.version && r.scope == f.scope && r.application == f.application && r.surface == f.surface
  }

  function Matches(fragments: seq<Fragment>, id: string): seq<Fragment> {
    Filter(fragments, (f: Fragment) => f.id == id)
  }

  function BindingError(digestOf: DigestOf, r: Record, cs: ContractSet): Option<Error> {
    if r.contractDigest != digestOf(cs) then Some(DigestMismatch)
    else if |Matches(cs.fragments, r.fragmentId)| != 1 then Some(UnknownFragment)
    else if !SameMetadata(r, Matches(cs.fragments, r.fragmentId)[0]) then Some(MetadataMismatch)
    else None
  }

  /** Fragment i is the only one with the id. */
  ghost predicate OnlyAt(fragments: seq<Fragment>, id: string, i: nat) {
    i < |fragments| && fragments[i].id == id && forall j | 0 <= j < |fragments| && j != i :: fragments[j].id != id
  }

  lemma {:induction false} MatchPosition(fragments: seq<Fragment>, id: string) returns (i: nat)
    requires |Matches(fragments, id)| == 1
    ensures OnlyAt(fragments, id, i)
  {
    var n := |fragments| - 1;
    if fragments[n].id == id {
      i := n;
      FilterExact(fragments[..n], (f: Fragment) => f.id == id);
      assert forall j | 0 <= j < n :: fragments[j] in fragments[..n];
    } else {
      i := MatchPosition(fragments[..n], id);
      assert forall j | 0 <= j < n :: fragments[j] == fragments[..n][j];
    }
  }

  lemma MatchesOnly(fragments: seq<Fragment>, id: string, i: nat)
    requires OnlyAt(fragments, id, i)
    ensures Matches(fragments, id) == [fragments[i]]
  {
    var keep := (f: Fragment) => f.id == id;
    var a, b := fragments[..i], fragments[i + 1..];
    assert fragments == a + [fragments[i]] + b;
    FilterConcat(a + [fragments[i]], b, keep);
    FilterConcat(a, [fragments[i]], keep);
    FilterExact(a, keep);
    FilterExact(b, keep);
    assert [fragments[i]][..0] == [];
    assert Filter([fragments[i]], keep) == Filter([], keep) + [fragments[i]];
  }

  /** Exactly one fragment of the set has the id, and the record agrees with it. */
  ghost predicate AgreesWithOnly(r: Record, fragments: seq<Fragment>, i: nat) {
    && OnlyAt(fragments, r.fragmentId, i)
    && r.version == fragments[i].version && r.scope == fragments[i].scope
    && r.application == fragments[i].application && r.surface == fragments[i].surface
  }

  /** Each refusal of `append` exactly, in the order of the checks. */
  lemma BindingExact(digestOf: DigestOf, r: Record, cs: ContractSet)
    ensures BindingError(digestOf, r, cs) == Some(DigestMismatch) <==> r.contractDigest != digestOf(cs)
    ensures BindingError(digestOf, r, cs) == Some(UnknownFragment) <==>
      r.contractDigest == digestOf(cs) && !exists i: nat :: OnlyAt(cs.fragments, r.fragmentId, i)
    ensures BindingError(digestOf, r, cs).None? <==>
      r.contractDigest == digestOf(cs) && exists i: nat :: AgreesWithOnly(r, cs.fragments, i)
  {
    if |Matches(cs.fragments, r.fragmentId)| == 1 {
      var i := MatchPosition(cs.fragments, r.fragmentId);
      MatchesOnly(cs.fragments, r.fragmentId, i);
      assert SameMetadata(r, cs.fragments[i]) ==> AgreesWithOnly(r, cs.fragments, i);
    }
    forall i: nat | OnlyAt(cs.fragments, r.fragmentId, i)
      ensures Matches(cs.fragments, r.fragmentId) == [cs.fragments[i]]
    {
      MatchesOnly(cs.fragments, r.fragmentId, i);
    }
  }

  predicate Stored(identify: Identify, rows: seq<Record>, r: Record) {
    exists i :: 0 <= i < |rows| && identify(rows[i]) == identify(r)
  }

  /** INSERT OR IGNORE under a unique evidence id. */
  function Inserted(identify: Identify, rows: seq<Record>, r: Record): seq<Record> {
    if Stored(identify, rows, r) then rows else rows + [r]
  }

  // ----- latest_records

  /** A stored record with its sequence number. */
  datatype Entry = Entry(sequence: nat, record: Record) {
    function Instant(): nat {
      record.recordedAt.Instant()
    }

    function Text(): string {
      FormatTimestamp(record.recordedAt)
    }
  }

  /** The entry is in the table under the digest. */
  predicate Holds(rows: seq<Record>, digest: string, e: Entry) {
    e.sequence < |rows| && rows[e.sequence] == e.record && e.record.contractDigest == digest
  }

  /** e comes no later than d, by time and then by sequence. */
  predicate NoLater(e: Entry, d: Entry) {
    e.Instant() < d.Instant() || (e.Instant() == d.Instant() && e.sequence <= d.sequence)
  }

  /** The latest entry of a fragment among those of the digest, if there is one. */
  ghost predicate IsLatest(rows: seq<Record>, digest: string, id: string, latest: Option<Entry>) {
    match latest
    case None => forall e | Holds(rows, digest, e) :: e.record.fragmentId != id
    case Some(d) =>
      && Holds(rows, digest, d) && d.record.fragmentId == id
      && forall e | Holds(rows, digest, e) && e.record.fragmentId == id :: NoLater(e, d)
  }

  /** Reads the log from its start and keeps the later entry. */
  function LatestEntry(rows: seq<Record>, digest: string, id: string): Option<Entry> {
    if rows == [] then None
    else
      var last := Entry(|rows| - 1, rows[|rows| - 1]);
      var before := LatestEntry(rows[..|rows| - 1], digest, id);
      if last.record.contractDigest != digest || last.record.fragmentId != id then before
      else if before.Some? && last.Instant() < before.value.Instant() then before
      else Some(last)
  }

  lemma {:induction false} LatestEntryExact(rows: seq<Record>, digest: string, id: string)
    ensures IsLatest(rows, digest, id, LatestEntry(rows, digest, id))
  {
    if rows != [] {
      var front := rows[..|rows| - 1];
      LatestEntryExact(front, digest, id);
      forall e | Holds(rows, digest, e) && e.sequence < |rows| - 1 ensures Holds(front, digest, e) {
      }
    }
  }

  lemma LatestUnique(rows: seq<Record>, digest: string, id: string, d: Entry)
    requires IsLatest(rows, digest, id, Some(d))
    ensures LatestEntry(rows, digest, id) == Some(d)
  {
    LatestEntryExact(rows, digest, id);
    var l := LatestEntry(rows, digest, id);
    if l.Some? {
      assert NoLater(d, l.value) && NoLater(l.value, d);
    }
  }

  function LatestRecord(rows: seq<Record>, digest: string, id: string): Option<Record> {
    match LatestEntry(rows, digest, id)
    case None => None
    case Some(e) => Some(e.record)
  }

  function Listed(r: Option<Record>): seq<Record> {
    match r
    case None => []
    case Some(record) => [record]
  }

  /** The latest records of the fragments that have one, in the order of the fragments. */
  function LatestRecords(rows: seq<Record>, digest: string, fragments: seq<Fragment>): seq<Record> {
    if fragments == [] then []
    else
      var last := |fragments| - 1;
      LatestRecords(rows, digest, fragments[..last]) + Listed(LatestRecord(rows, digest, fragments[last].id))
  }

  // ----- the query: ORDER BY recorded_at DESC, sequence DESC

  /** e comes before d in the answer: later text first, then higher sequence. */
  predicate Before(e: Entry, d: Entry) {
    Less(d.Text(), e.Text()) || (d.Text() == e.Text() && d.sequence < e.sequence)
  }

  lemma BeforeIsLater(e: Entry, d: Entry)
    ensures Before(e, d) <==> d.Instant() < e.Instant() || (d.Instant() == e.Instant() && d.sequence < e.sequence)
  {
    TextIsChronological(d.record.recordedAt, e.record.recordedAt);
    TimestampExact(d.record.recordedAt, e.record.recordedAt);
  }

  lemma BeforeTransitive(e: Entry, d: Entry, c: Entry)
    requires Before(e, d) && Before(d, c)
    ensures Before(e, c)
  {
    BeforeIsLater(e, d);
    BeforeIsLater(d, c);
    BeforeIsLater(e, c);
  }

  lemma BeforeTotal(e: Entry, d: Entry)
    requires e.sequence != d.sequence
    ensures Before(e, d) || Before(d, e)
  {
    BeforeIsLater(e, d);
    BeforeIsLater(d, e);
  }

  predicate NewestFirst(order: seq<Entry>) {
    order != [] ==> (forall e | e in order[1..] :: Before(order[0], e)) && NewestFirst(order[1..])
  }

  function Insert(order: seq<Entry>, e: Entry): seq<Entry> {
    if order == [] then [e]
    else if Before(e, order[0]) then [e] + order
    else [order[0]] + Insert(order[1..], e)
  }

  lemma {:induction false} InsertElements(order: seq<Entry>, e: Entry)
    ensures forall d :: d in Insert(order, e) <==> d == e || d in order
  {
    if order != [] && !Before(e, order[0]) {
      InsertElements(order[1..], e);
      assert order == [order[0]] + order[1..];
    }
  }

  lemma {:induction false} InsertOrdered(order: seq<Entry>, e: Entry)
    requires NewestFirst(order) && forall d | d in order :: d.sequence != e.sequence
    ensures NewestFirst(Insert(order, e))
  {
    if order != [] {
      var first, rest := order[0], order[1..];
      assert order == [first] + rest;
      if Before(e, first) {
        forall d | d in order ensures Before(e, d) {
          if d != first {
            BeforeTransitive(e, first, d);
          }
        }
        assert ([e] + order)[1..] == order;
      } else {
        BeforeTotal(e, first);
        InsertOrdered(rest, e);
        InsertElements(rest, e);
        assert ([first] + Insert(rest, e))[1..] == Insert(rest, e);
      }
    }
  }

  /** The entries of the digest among the first n, as the query orders them. */
  function Query(rows: seq<Record>, digest: string, n: nat): seq<Entry>
    requires n <= |rows|
  {
    if n == 0 then []
    else if rows[n - 1].contractDigest != digest then Query(rows, digest, n - 1)
    else Insert(Query(rows, digest, n - 1), Entry(n - 1, rows[n - 1]))
  }

  lemma {:induction false} QueryExact(rows: seq<Record>, digest: string, n: nat)
    requires n <= |rows|
    ensures forall e :: e in Query(rows, digest, n) <==> Holds(rows, digest, e) && e.sequence < n
    ensures NewestFirst(Query(rows, digest, n))
  {
    if n > 0 {
      QueryExact(rows, digest, n - 1);
      InsertElements(Query(rows, digest, n - 1), Entry(n - 1, rows[n - 1]));
      if rows[n - 1].contractDigest == digest {
        InsertOrdered(Query(rows, digest, n - 1), Entry(n - 1, rows[n - 1]));
      }
    }
  }

  lemma {:induction false} NewestAt(order: seq<Entry>, a: nat, b: nat)
    requires NewestFirst(order) && a < b < |order|
    ensures Before(order[a], order[b])
  {
    if a == 0 {
      assert order[b] == order[1..][b - 1];
    } else {
      NewestAt(order[1..], a - 1, b - 1);
    }
  }

  /** The first entry of a fragment in the answer is its latest: the text order of the query is
    the order of the times. */
  lemma FirstIsLatest(rows: seq<Record>, digest: string, order: seq<Entry>, k: nat)
    requires order == Query(rows, digest, |rows|) && k < |order|
    requires forall a | 0 <= a < k :: order[a].record.fragmentId != order[k].record.fragmentId
    ensures LatestRecord(rows, digest, order[k].record.fragmentId) == Some(order[k].record)
  {
    QueryExact(rows, digest, |rows|);
    var d := order[k];
    assert d in order;
    forall e | Holds(rows, digest, e) && e.record.fragmentId == d.record.fragmentId ensures NoLater(e, d) {
      assert e in order;
      var b :| 0 <= b < |order| && order[b] == e;
      if b > k {
        NewestAt(order, k, b);
        BeforeIsLater(d, e);
      }
    }
    LatestUnique(rows, digest, d.record.fragmentId, d);
  }

  // ----- the store

  class CapabilityEvidenceStore {
    var rows: seq<Record>
    const identify: Identify
    const digestOf: DigestOf

    /** Opens a store on what its file holds; a new file holds nothing. */
    constructor (stored: seq<Record>, identify: Identify, digestOf: DigestOf)
      ensures rows == stored && this.identify == identify && this.digestOf == digestOf
    {
      rows := stored;
      this.identify := identify;
      this.digestOf := digestOf;
    }

    method Append(r: Record, cs: ContractSet) returns (result: Result<string, Error>)
      modifies this
      ensures match BindingError(digestOf, r, cs)
        case Some(e) => result == Err(e) && rows == old(rows)
        case None => result == Ok(identify(r)) && rows == Inserted(identify, old(rows), r)
    {
      if r.contractDigest != digestOf(cs) {
        return Err(DigestMismatch);
      }
      var matches := Matches(cs.fragments, r.fragmentId);
      if |matches| != 1 {
        return Err(UnknownFragment);
      }
      if !SameMetadata(r, matches[0]) {
        return Err(MetadataMismatch);
      }
      if !Stored(identify, rows, r) {
        rows := rows + [r];
      }
      result := Ok(identify(r));
    }

    method Latest(cs: ContractSet) returns (out: seq<Record>)
      ensures out == LatestRecords(rows, digestOf(cs), cs.fragments)
    {
      var digest := digestOf(cs);
      out := [];
      if cs.fragments == [] {
        return;
      }
      var latest := FirstOfEach(rows, digest, cs.fragments);
      for i := 0 to |cs.fragments|
        invariant out == LatestRecords(rows, digest, cs.fragments[..i])
      {
        var f := cs.fragments[i];
        assert cs.fragments[..i + 1][..i] == cs.fragments[..i];
        assert IsId(cs.fragments, f.id);
        if f.id in latest {
          out := out + [latest[f.id]];
        }
      }
      assert cs.fragments[..|cs.fragments|] == cs.fragments;
    }
  }

  predicate IsId(fragments: seq<Fragment>, id: string) {
    exists i :: 0 <= i < |fragments| && fragments[i].id == id
  }

  function Lookup(m: map<string, Record>, id: string): Option<Record> {
    if id in m then Some(m[id]) else None
  }

  /** The dict `latest`: for each fragment, the first row of the answer that is about it. */
  method FirstOfEach(rows: seq<Record>, digest: string, fragments: seq<Fragment>)
    returns (latest: map<string, Record>)
    ensures forall id | IsId(fragments, id) :: Lookup(latest, id) == LatestRecord(rows, digest, id)
  {
    var order := Query(rows, digest, |rows|);
    latest := map[];
    for k := 0 to |order|
      invariant forall id | id in latest :: Lookup(latest, id) == LatestRecord(rows, digest, id)
      invariant Covered(order[..k], fragments, latest)
    {
      var row := order[k].record;
      assert order[..k + 1] == order[..k] + [order[k]];
      if IsId(fragments, row.fragmentId) && row.fragmentId !in latest {
        NotCoveredYet(order, k, fragments, latest);
        FirstIsLatest(rows, digest, order, k);
        latest := latest[row.fragmentId := row];
      }
    }
    assert order[..|order|] == order;
    forall id | IsId(fragments, id) ensures Lookup(latest, id) == LatestRecord(rows, digest, id) {
      NothingMissed(rows, digest, fragments, latest, id);
    }
  }

  /** The rows read so far are about fragments already found, or none of these fragments. */
  ghost predicate Covered(read: seq<Entry>, fragments: seq<Fragment>, latest: map<string, Record>) {
    forall e | e in read :: e.record.fragmentId in latest || !IsId(fragments, e.record.fragmentId)
  }

  lemma NotCoveredYet(order: seq<Entry>, k: nat, fragments: seq<Fragment>, latest: map<string, Record>)
    requires k < |order| && Covered(order[..k], fragments, latest)
    requires IsId(fragments, order[k].record.fragmentId) && order[k].record.fragmentId !in latest
    ensures forall a | 0 <= a < k :: order[a].record.fragmentId != order[k].record.fragmentId
  {
  }

  lemma NothingMissed(rows: seq<Record>, digest: string, fragments: seq<Fragment>, latest: map<string, Record>,
      id: string)
    requires IsId(fragments, id) && Covered(Query(rows, digest, |rows|), fragments, latest)
    ensures id in latest || LatestRecord(rows, digest, id).None?
  {
    QueryExact(rows, digest, |rows|);
    LatestEntryExact(rows, digest, id);
    match LatestEntry(rows, digest, id)
    case None =>
    case Some(e) => assert e in Query(rows, digest, |rows|);
  }

  // ----- what the log says

  /** Exactly the maxima: a record is listed when its fragment is one of the set and no stored
    record of that fragment and digest is later by (time, sequence). */
  lemma {:induction false} LatestRecordsExact(rows: seq<Record>, digest: string, fragments: seq<Fragment>, r: Record)
    ensures r in LatestRecords(rows, digest, fragments) <==>
      && IsId(fragments, r.fragmentId)
      && exists sequence: nat :: IsLatest(rows, digest, r.fragmentId, Some(Entry(sequence, r)))
  {
    if fragments != [] {
      var last := |fragments| - 1;
      LatestRecordsExact(rows, digest, fragments[..last], r);
      IdOfFront(fragments, r.fragmentId);
      LatestRecordIs(rows, digest, fragments[last].id, r);
    }
  }

  /** They come in the order of the fragments, at most one for each. */
  lemma {:induction false} LatestInOrder(rows: seq<Record>, digest: string, a: seq<Fragment>, b: seq<Fragment>)
    ensures LatestRecords(rows, digest, a + b) == LatestRecords(rows, digest, a) + LatestRecords(rows, digest, b)
    ensures forall f :: |LatestRecords(rows, digest, [f])| <= 1
  {
    forall f ensures |LatestRecords(rows, digest, [f])| <= 1 {
      assert [f][..0] == [];
    }
    if b == [] {
      assert a + b == a;
    } else {
      assert (a + b)[..|a + b| - 1] == a + b[..|b| - 1];
      LatestInOrder(rows, digest, a, b[..|b| - 1]);
    }
  }

  lemma IdOfFront(fragments: seq<Fragment>, id: string)
    requires fragments != []
    ensures IsId(fragments, id) <==> IsId(fragments[..|fragments| - 1], id) || fragments[|fragments| - 1].id == id
  {
  }

  lemma LatestRecordIs(rows: seq<Record>, digest: string, id: string, r: Record)
    ensures r in Listed(LatestRecord(rows, digest, id)) <==>
      r.fragmentId == id && exists sequence: nat :: IsLatest(rows, digest, r.fragmentId, Some(Entry(sequence, r)))
  {
    LatestEntryExact(rows, digest, id);
    if r.fragmentId == id {
      forall sequence: nat | IsLatest(rows, digest, id, Some(Entry(sequence, r)))
        ensures LatestEntry(rows, digest, id) == Some(Entry(sequence, r))
      {
        LatestUnique(rows, digest, id, Entry(sequence, r));
      }
    }
    match LatestEntry(rows, digest, id)
    case None =>
    case Some(e) => assert e == Entry(e.sequence, e.record);
  }

  /** No record in the table about this fragment, under this digest, is later. */
  ghost predicate NoneLater(rows: seq<Record>, r: Record) {
    forall s | s in rows && s.contractDigest == r.contractDigest && s.fragmentId == r.fragmentId ::
      s.recordedAt.Instant() <= r.recordedAt.Instant()
  }

  lemma NoneLaterExact(rows: seq<Record>, r: Record)
    ensures NoneLater(rows, r) <==>
      match LatestEntry(rows, r.contractDigest, r.fragmentId)
      case None => true
      case Some(e) => e.Instant() <= r.recordedAt.Instant()
  {
    LatestEntryExact(rows, r.contractDigest, r.fragmentId);
    forall s | s in rows && s.contractDigest == r.contractDigest && s.fragmentId == r.fragmentId
      ensures exists e :: Holds(rows, r.contractDigest, e) && e.record == s
    {
      var i :| 0 <= i < |rows| && rows[i] == s;
      assert Holds(rows, r.contractDigest, Entry(i, s));
    }
  }

  /** Appending a record again changes nothing. Otherwise the new record becomes the latest of
    its fragment exactly when no stored one is strictly later; an older one never displaces
    what is there, and other fragments and digests are untouched. */
  lemma AppendEffect(identify: Identify, rows: seq<Record>, r: Record, digest: string, id: string)
    requires TellsRecordsApart(identify)
    ensures r in rows ==> Inserted(identify, rows, r) == rows
    ensures r !in rows ==>
      LatestRecord(Inserted(identify, rows, r), digest, id) ==
        if r.contractDigest == digest && r.fragmentId == id && NoneLater(rows, r) then Some(r)
        else LatestRecord(rows, digest, id)
  {
    if r in rows {
      var i :| 0 <= i < |rows| && rows[i] == r;
      assert identify(rows[i]) == identify(r);
    } else {
      assert Inserted(identify, rows, r) == rows + [r];
      assert (rows + [r])[..|rows|] == rows;
      NoneLaterExact(rows, r);
    }
  }

  /** `lifecycle_overlay`: the dict built from the latest records. */
  function LifecycleOverlay(records: seq<Record>): Overlay {
    if records == [] then map[]
    else
      var last := records[|records| - 1];
      LifecycleOverlay(records[..|records| - 1])[last.fragmentId := last.state]
  }

  function StateIn(r: Option<Record>): Option<UILifecycleState> {
    match r
    case None => None
    case Some(record) => Some(record.state)
  }

  lemma LatestRecordFragment(rows: seq<Record>, digest: string, id: string)
    ensures LatestRecord(rows, digest, id).Some? ==>
      && LatestRecord(rows, digest, id).value in rows
      && LatestRecord(rows, digest, id).value.fragmentId == id
      && LatestRecord(rows, digest, id).value.contractDigest == digest
  {
    LatestEntryExact(rows, digest, id);
  }

  /** The overlay says of each fragment what its latest record says, and nothing of others. */
  lemma {:induction false} LifecycleOverlayExact(rows: seq<Record>, digest: string, fragments: seq<Fragment>,
      id: string)
    ensures Get(LifecycleOverlay(LatestRecords(rows, digest, fragments)), id) ==
      if IsId(fragments, id) then StateIn(LatestRecord(rows, digest, id)) else None
  {
    if fragments != [] {
      var last := |fragments| - 1;
      var front := LatestRecords(rows, digest, fragments[..last]);
      LifecycleOverlayExact(rows, digest, fragments[..last], id);
      IdOfFront(fragments, id);
      LatestRecordFragment(rows, digest, fragments[last].id);
      match LatestRecord(rows, digest, fragments[last].id)
      case None => assert front + [] == front;
      case Some(r) => assert (front + [r])[..|front|] == front;
    }
  }

  // ----- what every run of appends keeps

  datatype Appending = Appending(record: Record, contracts: ContractSet)

  /** The log after these calls of `append`. */
  function Log(identify: Identify, digestOf: DigestOf, calls: seq<Appending>): seq<Record> {
    if calls == [] then []
    else
      var rows := Log(identify, digestOf, calls[..|calls| - 1]);
      var call := calls[|calls| - 1];
      if BindingError(digestOf, call.record, call.contracts).Some? then rows
      else Inserted(identify, rows, call.record)
  }

  /** Every record was bound, when it came, to a contract set with its digest. */
  ghost predicate BoundLog(digestOf: DigestOf, rows: seq<Record>) {
    forall r | r in rows :: exists cs :: BindingError(digestOf, r, cs).None?
  }

  lemma {:induction false} LogBound(identify: Identify, digestOf: DigestOf, calls: seq<Appending>)
    ensures BoundLog(digestOf, Log(identify, digestOf, calls))
  {
    if calls != [] {
      LogBound(identify, digestOf, calls[..|calls| - 1]);
    }
  }

  /** So with distinct digests every record found under the digest of a contract set is bound
    to that very set. */
  lemma FoundIsBound(digestOf: DigestOf, rows: seq<Record>, cs: ContractSet, r: Record)
    requires TellsSetsApart(digestOf) && BoundLog(digestOf, rows)
    requires r in rows && r.contractDigest == digestOf(cs)
    ensures BindingError(digestOf, r, cs).None?
  {
  }
}
