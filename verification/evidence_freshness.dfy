/** The ageing of UI evidence (src/m365_mcp/evidence_freshness.py). */
module EvidenceFreshness {
  import opened CapabilityEvidence
  import opened Ordering
  import opened Results
  import opened Timestamps
  import opened UIContract

  const MIN_MAX_AGE_SECONDS := 60
  const MAX_MAX_AGE_SECONDS := 2_592_000

  datatype Policy = Policy(
    maxAgeSeconds: int, expiryState: UILifecycleState, missingState: UILifecycleState, futureState: UILifecycleState)
  {
    /** The rules of the constructor: no policy state is HEALTHY or DRIFTED. */
    predicate Valid() {
      && MIN_MAX_AGE_SECONDS <= maxAgeSeconds <= MAX_MAX_AGE_SECONDS
      && Degrading(expiryState) && Degrading(missingState) && Degrading(futureState)
    }

    predicate Degrading(s: UILifecycleState) {
      s == STALE || s == RE_ATTESTATION_REQUIRED
    }
  }

  datatype FreshnessReason =
    | EVIDENCE_FRESH | EVIDENCE_EXPIRED | EVIDENCE_MISSING | EVIDENCE_TIMESTAMP_IN_FUTURE
    | SOURCE_STALE | SOURCE_DRIFTED | SOURCE_RE_ATTESTATION_REQUIRED

  datatype Assessment = Assessment(
    fragmentId: string, state: UILifecycleState, reason: FreshnessReason, recorded: Option<Record>,
    expiresAt: Option<int>)

  datatype FreshnessError = DuplicateRecord | ForeignRecord | Binding(error: CapabilityEvidence.Error) | Overflow

  /** The last microsecond of year 9999: no later datetime exists. */
  function LastInstant(): nat {
    DateTime(9999, 12, 31, 23, 59, 59, 999_999).Instant()
  }

  function ExpiresAt(r: Record, p: Policy): int {
    r.recordedAt.Instant() + p.maxAgeSeconds * 1_000_000
  }

  /** The sum of the record's time and the maximum age is a datetime. */
  predicate Fits(r: Record, p: Policy) {
    ExpiresAt(r, p) <= LastInstant()
  }

  lemma NoLaterInstant(t: DateTime)
    requires t.Valid()
    ensures t.Instant() <= LastInstant()
  {
    var last := DateTime(9999, 12, 31, 23, 59, 59, 999_999);
    DateTrichotomy(t, last);
    EarlierClock(t, last);
    EarlierClock(last, t);
    if DateBefore(t, last) {
      EarlierDate(t, last);
    }
    EarlierInstant(last.Day(), last.Clock(), t.Day(), t.Clock());
  }

  /** The sum is a datetime exactly when some datetime is no earlier. */
  lemma FitsExactly(r: Record, p: Policy)
    ensures Fits(r, p) <==>
      exists t: DateTime :: t.Valid() && r.recordedAt.Instant() + p.maxAgeSeconds * 1_000_000 <= t.Instant()
  {
    var last := DateTime(9999, 12, 31, 23, 59, 59, 999_999);
    assert last.Valid();
    forall t: DateTime | t.Valid() ensures t.Instant() <= LastInstant() {
      NoLaterInstant(t);
    }
  }

  /** `_assess_fragment`. Adding the maximum age comes first, whatever the state. */
  function AssessFragment(f: Fragment, record: Option<Record>, p: Policy, now: int)
    : Result<Assessment, FreshnessError>
  {
    match record
    case None => Ok(Assessment(f.id, p.missingState, EVIDENCE_MISSING, None, None))
    case Some(r) =>
      if !Fits(r, p) then Err(Overflow)
      else
        var (state, reason) :=
          match r.state
          case DRIFTED => (DRIFTED, SOURCE_DRIFTED)
          case RE_ATTESTATION_REQUIRED => (RE_ATTESTATION_REQUIRED, SOURCE_RE_ATTESTATION_REQUIRED)
          case STALE => (STALE, SOURCE_STALE)
          case HEALTHY =>
            if r.recordedAt.Instant() > now then (p.futureState, EVIDENCE_TIMESTAMP_IN_FUTURE)
            else if now >= ExpiresAt(r, p) then (p.expiryState, EVIDENCE_EXPIRED)
            else (HEALTHY, EVIDENCE_FRESH);
        Ok(Assessment(r.fragmentId, state, reason, Some(r), Some(ExpiresAt(r, p))))
  }

  /** The evidence is HEALTHY now: such a record is there, it has been made, and it has not reached
    its maximum age. */
  predicate Fresh(record: Option<Record>, p: Policy, now: int) {
    && record.Some? && record.value.state == HEALTHY
    && record.value.recordedAt.Instant() <= now < record.value.recordedAt.Instant() + p.maxAgeSeconds * 1_000_000
  }

  /** What the policy allows: an age between a minute and thirty days, and degraded states only. */
  ghost predicate Permitted(p: Policy) {
    && 60 <= p.maxAgeSeconds <= 30 * 24 * 60 * 60
    && p.expiryState in {STALE, RE_ATTESTATION_REQUIRED} && p.missingState in {STALE, RE_ATTESTATION_REQUIRED}
    && p.futureState in {STALE, RE_ATTESTATION_REQUIRED}
  }

  lemma PolicyExact(p: Policy)
    ensures p.Valid() <==> Permitted(p)
  {
  }

  /** HEALTHY comes only from a fresh HEALTHY record; a degraded record is never promoted. */
  lemma AssessExact(f: Fragment, record: Option<Record>, p: Policy, now: int)
    requires Permitted(p)
    ensures AssessFragment(f, record, p, now).Ok? <==> record.None? || Fits(record.value, p)
    ensures AssessFragment(f, record, p, now).Err? ==> AssessFragment(f, record, p, now).error == Overflow
    ensures AssessFragment(f, record, p, now).Ok? ==>
      var a := AssessFragment(f, record, p, now).value;
      && (a.state == HEALTHY <==> Fresh(record, p, now))
      && (record.Some? && record.value.state != HEALTHY ==> a.state == record.value.state)
      && (a.state == DRIFTED ==> record.Some? && record.value.state == DRIFTED)
  {
  }

  /** Each reason exactly, with the state that goes with it. A missing record, a healthy one from the
    future and one past its age get the state that the policy has for them. */
  lemma ReasonExact(f: Fragment, record: Option<Record>, p: Policy, now: int)
    requires Permitted(p) && AssessFragment(f, record, p, now).Ok?
    ensures var a := AssessFragment(f, record, p, now).value;
      var healthy := record.Some? && record.value.state == HEALTHY;
      var made := if record.Some? then record.value.recordedAt.Instant() else 0;
      && (a.reason == EVIDENCE_MISSING <==> record.None?)
      && (a.reason == EVIDENCE_TIMESTAMP_IN_FUTURE <==> healthy && now < made)
      && (a.reason == EVIDENCE_EXPIRED <==> healthy && made + p.maxAgeSeconds * 1_000_000 <= now)
      && (a.reason == EVIDENCE_FRESH <==> Fresh(record, p, now))
      && (a.reason == SOURCE_DRIFTED <==> record.Some? && record.value.state == DRIFTED)
      && (a.reason == SOURCE_STALE <==> record.Some? && record.value.state == STALE)
      && (a.reason == SOURCE_RE_ATTESTATION_REQUIRED <==>
           record.Some? && record.value.state == RE_ATTESTATION_REQUIRED)
      && (a.reason == EVIDENCE_MISSING ==> a.state == p.missingState)
      && (a.reason == EVIDENCE_TIMESTAMP_IN_FUTURE ==> a.state == p.futureState)
      && (a.reason == EVIDENCE_EXPIRED ==> a.state == p.expiryState)
      && a.recorded == record
      && a.fragmentId == (if record.None? then f.id else record.value.fragmentId)
      && a.expiresAt == (if record.None? then None else Some(made + p.maxAgeSeconds * 1_000_000))
  {
  }

  // ----- assess_contract_evidence_freshness

  /** The last fragment with each id. */
  function FragmentById(fragments: seq<Fragment>): map<string, Fragment> {
    if fragments == [] then map[]
    else
      var last := fragments[|fragments| - 1];
      FragmentById(fragments[..|fragments| - 1])[last.id := last]
  }

  function RecordError(digestOf: DigestOf, cs: ContractSet, seen: map<string, Record>, r: Record)
    : Option<FreshnessError>
  {
    if r.fragmentId in seen then Some(DuplicateRecord)
    else if r.fragmentId !in FragmentById(cs.fragments) then Some(ForeignRecord)
    else if r.contractDigest != digestOf(cs) then Some(Binding(DigestMismatch))
    else if !SameMetadata(r, FragmentById(cs.fragments)[r.fragmentId]) then Some(Binding(MetadataMismatch))
    else None
  }

  /** The dict `by_fragment` after these records. */
  function ByFragment(digestOf: DigestOf, cs: ContractSet, records: seq<Record>)
    : Result<map<string, Record>, FreshnessError>
  {
    if records == [] then Ok(map[])
    else
      var last := records[|records| - 1];
      match ByFragment(digestOf, cs, records[..|records| - 1])
      case Err(e) => Err(e)
      case Ok(seen) =>
        match RecordError(digestOf, cs, seen, last)
        case Some(e) => Err(e)
        case None => Ok(seen[last.fragmentId := last])
  }

  function AssessAll(fragments: seq<Fragment>, found: map<string, Record>, p: Policy, now: int)
    : Result<seq<Assessment>, FreshnessError>
  {
    if fragments == [] then Ok([])
    else
      var last := fragments[|fragments| - 1];
      match AssessAll(fragments[..|fragments| - 1], found, p, now)
      case Err(e) => Err(e)
      case Ok(before) =>
        match AssessFragment(last, Lookup(found, last.id), p, now)
        case Err(e) => Err(e)
        case Ok(a) => Ok(before + [a])
  }

  function Assess(digestOf: DigestOf, cs: ContractSet, records: seq<Record>, p: Policy, now: int)
    : Result<seq<Assessment>, FreshnessError>
  {
    match ByFragment(digestOf, cs, records)
    case Err(e) => Err(e)
    case Ok(found) => AssessAll(cs.fragments, found, p, now)
  }

  // ----- the records that are accepted

  /** The record is about this fragment and agrees with it. */
  ghost predicate About(r: Record, f: Fragment) {
    && r.fragmentId == f.id && r.version == f.version && r.scope == f.scope
    && r.application == f.application && r.surface == f.surface
  }

  /** What is wrong with record k: an earlier one is about the same fragment, there is no such fragment,
    the record belongs to another contract set, or it disagrees with the fragment. */
  ghost function RecordDefect(digestOf: DigestOf, cs: ContractSet, records: seq<Record>, k: nat): Option<FreshnessError>
    requires k < |records|
  {
    var r := records[k];
    if exists j :: 0 <= j < k && records[j].fragmentId == r.fragmentId then Some(DuplicateRecord)
    else if forall f | f in cs.fragments :: f.id != r.fragmentId then Some(ForeignRecord)
    else if r.contractDigest != digestOf(cs) then Some(Binding(DigestMismatch))
    else if forall f | f in cs.fragments :: !About(r, f) then Some(Binding(MetadataMismatch))
    else None
  }

  lemma {:induction false} FragmentByIdExact(fragments: seq<Fragment>, id: string)
    ensures id in FragmentById(fragments) <==> exists f :: f in fragments && f.id == id
    ensures id in FragmentById(fragments) ==>
      FragmentById(fragments)[id] in fragments && FragmentById(fragments)[id].id == id
  {
    if fragments != [] {
      var front, last := fragments[..|fragments| - 1], fragments[|fragments| - 1];
      FragmentByIdExact(front, id);
      assert fragments == front + [last];
    }
  }

  lemma OneFragment(fragments: seq<Fragment>, f: Fragment, g: Fragment)
    requires DistinctIds(fragments) && f in fragments && g in fragments && f.id == g.id
    ensures f == g
  {
  }

  /** The dict holds the records read so far. */
  ghost predicate HoldsRecords(seen: map<string, Record>, records: seq<Record>) {
    && (forall r | r in records :: r.fragmentId in seen)
    && (forall id | id in seen :: seen[id] in records && seen[id].fragmentId == id)
  }

  lemma RecordErrorExact(digestOf: DigestOf, cs: ContractSet, records: seq<Record>, k: nat, seen: map<string, Record>)
    requires DistinctIds(cs.fragments) && k < |records| && HoldsRecords(seen, records[..k])
    ensures RecordError(digestOf, cs, seen, records[k]) == RecordDefect(digestOf, cs, records, k)
  {
    var r := records[k];
    FragmentByIdExact(cs.fragments, r.fragmentId);
    assert r.fragmentId in seen <==> exists j :: 0 <= j < k && records[j].fragmentId == r.fragmentId by {
      if r.fragmentId in seen {
        var j :| 0 <= j < k && records[..k][j] == seen[r.fragmentId];
        assert records[j].fragmentId == r.fragmentId;
      }
      if j :| 0 <= j < k && records[j].fragmentId == r.fragmentId {
        assert records[j] in records[..k];
      }
    }
    if r.fragmentId in FragmentById(cs.fragments) {
      forall f | f in cs.fragments && f.id == r.fragmentId ensures f == FragmentById(cs.fragments)[r.fragmentId] {
        OneFragment(cs.fragments, f, FragmentById(cs.fragments)[r.fragmentId]);
      }
    }
  }

  ghost predicate FirstDefect(digestOf: DigestOf, cs: ContractSet, records: seq<Record>, e: FreshnessError) {
    exists k: nat ::
      && k < |records| && RecordDefect(digestOf, cs, records, k) == Some(e)
      && forall j | 0 <= j < k :: RecordDefect(digestOf, cs, records, j).None?
  }

  /** The records are accepted exactly when none has a defect, and otherwise the first defect is the
    error. */
  lemma {:induction false} RecordsExact(digestOf: DigestOf, cs: ContractSet, records: seq<Record>)
    requires DistinctIds(cs.fragments)
    ensures match ByFragment(digestOf, cs, records)
      case Ok(seen) =>
        && HoldsRecords(seen, records)
        && forall k | 0 <= k < |records| :: RecordDefect(digestOf, cs, records, k).None?
      case Err(e) =>
        FirstDefect(digestOf, cs, records, e)
    decreases |records|
  {
    if records != [] {
      var n := |records| - 1;
      var front := records[..n];
      RecordsExact(digestOf, cs, front);
      forall k | 0 <= k < n ensures RecordDefect(digestOf, cs, front, k) == RecordDefect(digestOf, cs, records, k) {
        DefectOfFront(digestOf, cs, records, n, k);
      }
      match ByFragment(digestOf, cs, front)
      case Err(e) =>
      case Ok(seen) =>
        RecordErrorExact(digestOf, cs, records, n, seen);
        match RecordError(digestOf, cs, seen, records[n])
        case Some(e) =>
        case None => HoldsOneMoreRecord(seen, front, records[n]);
        assert records == front + [records[n]];
    }
  }

  lemma HoldsOneMoreRecord(seen: map<string, Record>, front: seq<Record>, r: Record)
    requires HoldsRecords(seen, front) && r.fragmentId !in seen
    ensures HoldsRecords(seen[r.fragmentId := r], front + [r])
  {
  }

  lemma DefectOfFront(digestOf: DigestOf, cs: ContractSet, records: seq<Record>, n: nat, k: nat)
    requires k < n <= |records|
    ensures RecordDefect(digestOf, cs, records[..n], k) == RecordDefect(digestOf, cs, records, k)
  {
    var front := records[..n];
    assert forall j | 0 <= j <= k :: front[j] == records[j];
  }

  /** The record about a fragment, if one is among these. */
  ghost predicate IsRecordOf(records: seq<Record>, f: Fragment, record: Option<Record>) {
    match record
    case None => forall r | r in records :: r.fragmentId != f.id
    case Some(r) => r in records && r.fragmentId == f.id
  }

  lemma {:induction false} AssessAllExactly(fragments: seq<Fragment>, records: seq<Record>, found: map<string, Record>,
      p: Policy, now: int)
    requires HoldsRecords(found, records)
    ensures match AssessAll(fragments, found, p, now)
      case Err(e) => exists f, record ::
        f in fragments && IsRecordOf(records, f, record) && AssessFragment(f, record, p, now) == Err(e)
      case Ok(out) =>
        |out| == |fragments| && forall i | 0 <= i < |fragments| :: AssessedFrom(records, fragments[i], p, now, out[i])
  {
    if fragments != [] {
      var front, last := fragments[..|fragments| - 1], fragments[|fragments| - 1];
      AssessAllExactly(front, records, found, p, now);
      assert IsRecordOf(records, last, Lookup(found, last.id));
    }
  }

  ghost predicate AssessedFrom(records: seq<Record>, f: Fragment, p: Policy, now: int, a: Assessment) {
    exists record :: IsRecordOf(records, f, record) && AssessFragment(f, record, p, now) == Ok(a)
  }

  /** The assessment fails with the first defect of the records or, if there is none, with the overflow
    of some record. Otherwise it says of each fragment, in the order of the set, what its record says,
    aged to now. */
  lemma AssessmentExact(digestOf: DigestOf, cs: ContractSet, records: seq<Record>, p: Policy, now: int)
    requires DistinctIds(cs.fragments) && Permitted(p)
    ensures var sound := forall k | 0 <= k < |records| :: RecordDefect(digestOf, cs, records, k).None?;
      match Assess(digestOf, cs, records, p, now)
      case Ok(out) =>
        && sound && |out| == |cs.fragments|
        && forall i | 0 <= i < |out| :: AssessedFrom(records, cs.fragments[i], p, now, out[i])
      case Err(e) =>
        if sound then e == Overflow && exists r :: r in records && !Fits(r, p)
        else FirstDefect(digestOf, cs, records, e)
  {
    RecordsExact(digestOf, cs, records);
    match ByFragment(digestOf, cs, records)
    case Err(_) =>
    case Ok(found) =>
      AssessAllExactly(cs.fragments, records, found, p, now);
      match AssessAll(cs.fragments, found, p, now)
      case Ok(_) =>
      case Err(e) =>
        var f, record :| f in cs.fragments && IsRecordOf(records, f, record)
          && AssessFragment(f, record, p, now) == Err(e);
        AssessExact(f, record, p, now);
  }

  /** A failure in a front is a failure of the whole. */
  lemma {:induction false} ByFragmentFails(digestOf: DigestOf, cs: ContractSet, records: seq<Record>, n: nat)
    requires n <= |records| && ByFragment(digestOf, cs, records[..n]).Err?
    ensures ByFragment(digestOf, cs, records) == Err(ByFragment(digestOf, cs, records[..n]).error)
    decreases |records|
  {
    if n == |records| {
      assert records[..n] == records;
    } else {
      var front := records[..|records| - 1];
      assert front[..n] == records[..n];
      ByFragmentFails(digestOf, cs, front, n);
    }
  }

  lemma {:induction false} AssessAllFails(fragments: seq<Fragment>, found: map<string, Record>, p: Policy, now: int,
      n: nat)
    requires n <= |fragments| && AssessAll(fragments[..n], found, p, now).Err?
    ensures AssessAll(fragments, found, p, now) == Err(AssessAll(fragments[..n], found, p, now).error)
    decreases |fragments|
  {
    if n == |fragments| {
      assert fragments[..n] == fragments;
    } else {
      var front := fragments[..|fragments| - 1];
      assert front[..n] == fragments[..n];
      AssessAllFails(front, found, p, now, n);
    }
  }

  method AssessContractEvidenceFreshness(digestOf: DigestOf, cs: ContractSet, records: seq<Record>, p: Policy,
      now: UtcTime)
    returns (r: Result<seq<Assessment>, FreshnessError>)
    ensures r == Assess(digestOf, cs, records, p, now.Instant())
  {
    var found: map<string, Record> := map[];
    for i := 0 to |records|
      invariant ByFragment(digestOf, cs, records[..i]) == Ok(found)
    {
      assert records[..i + 1][..i] == records[..i];
      match RecordError(digestOf, cs, found, records[i]) {
        case Some(e) =>
          ByFragmentFails(digestOf, cs, records, i + 1);
          return Err(e);
        case None =>
          found := found[records[i].fragmentId := records[i]];
      }
    }
    assert records[..|records|] == records;
    var out: seq<Assessment> := [];
    for i := 0 to |cs.fragments|
      invariant AssessAll(cs.fragments[..i], found, p, now.Instant()) == Ok(out)
    {
      var f := cs.fragments[i];
      assert cs.fragments[..i + 1][..i] == cs.fragments[..i];
      match AssessFragment(f, Lookup(found, f.id), p, now.Instant()) {
        case Err(e) =>
          AssessAllFails(cs.fragments, found, p, now.Instant(), i + 1);
          return Err(e);
        case Ok(a) =>
          out := out + [a];
      }
    }
    assert cs.fragments[..|cs.fragments|] == cs.fragments;
    r := Ok(out);
  }

  // ----- lifecycle_overlay_from_freshness

  function AssessedIds(assessments: seq<Assessment>): seq<string> {
    if assessments == [] then []
    else AssessedIds(assessments[..|assessments| - 1]) + [assessments[|assessments| - 1].fragmentId]
  }

  function EffectiveStates(assessments: seq<Assessment>): Overlay {
    if assessments == [] then map[]
    else
      var last := assessments[|assessments| - 1];
      EffectiveStates(assessments[..|assessments| - 1])[last.fragmentId := last.state]
  }

  /** None when a fragment is assessed twice. */
  function OverlayFromFreshness(assessments: seq<Assessment>): Option<Overlay> {
    if |AssessedIds(assessments)| != |Elements(AssessedIds(assessments))| then None
    else Some(EffectiveStates(assessments))
  }
}
