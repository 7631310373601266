/** From the evidence log to the support state of a capability: the latest records, their
  ageing, the overlay, the attestation and the evaluation, one after the other. */
module Support {
  import opened CapabilityEvidence
  import opened EffectiveCapabilities
  import opened EvidenceFreshness
  import opened Ordering
  import opened Results
  import opened Timestamps
  import opened UIContract

  datatype PipelineError = Freshness(freshness: FreshnessError) | Overlaid | Attested(attestation: UIContract.Error)

  /** The evidence that does not come from the UI contract. */
  datatype SessionEvidence = SessionEvidence(
    authenticated: bool, accountContextValid: bool, runtimeHealthy: bool, policyAllowed: bool,
    licenseAvailable: bool, liveEvidence: bool, liveReadPath: bool)

  function Combined(s: SessionEvidence, a: Attestation): Evidence {
    Evidence(s.authenticated, s.accountContextValid, a.attested, s.runtimeHealthy, s.policyAllowed,
      s.licenseAvailable, s.liveEvidence, a.drifted, a.stale, a.reattestationRequired, s.liveReadPath)
  }

  function OverlayNow(digestOf: DigestOf, rows: seq<Record>, cs: ContractSet, p: Policy, now: int)
    : Result<Overlay, PipelineError>
  {
    match Assess(digestOf, cs, LatestRecords(rows, digestOf(cs), cs.fragments), p, now)
    case Err(e) => Err(Freshness(e))
    case Ok(assessments) =>
      match OverlayFromFreshness(assessments)
      case None => Err(Overlaid)
      case Some(overlay) => Ok(overlay)
  }

  function SupportState(digestOf: DigestOf, rows: seq<Record>, cs: ContractSet, application: string,
      capability: string, p: Policy, s: SessionEvidence, now: int): Result<EffectiveState, PipelineError>
  {
    match OverlayNow(digestOf, rows, cs, p, now)
    case Err(e) => Err(e)
    case Ok(overlay) =>
      match Attest(cs, application, capability, overlay)
      case Err(e) => Err(Attested(e))
      case Ok(a) => Ok(Evaluate(capability, Combined(s, a)).state)
  }

  /** The stages run in turn on a store. */
  method CurrentSupport(store: CapabilityEvidenceStore, cs: ContractSet, application: string, capability: string,
      p: Policy, s: SessionEvidence, now: UtcTime)
    returns (r: Result<EffectiveState, PipelineError>)
    ensures r == SupportState(store.digestOf, store.rows, cs, application, capability, p, s, now.Instant())
  {
    var records := store.Latest(cs);
    var assessed := AssessContractEvidenceFreshness(store.digestOf, cs, records, p, now);
    match assessed {
      case Err(e) => return Err(Freshness(e));
      case Ok(assessments) =>
        match OverlayFromFreshness(assessments) {
          case None => return Err(Overlaid);
          case Some(overlay) =>
            var attestation := AttestationForCapability(cs, application, capability, Some(overlay));
            match attestation {
              case Err(e) => return Err(Attested(e));
              case Ok(a) => return Ok(Evaluate(capability, Combined(s, a)).state);
            }
        }
    }
  }

  // ----- the records found are accepted by the ageing stage

  lemma MatchesExact(fragments: seq<Fragment>, i: nat)
    requires DistinctIds(fragments) && i < |fragments| && |Matches(fragments, fragments[i].id)| == 1
    ensures Matches(fragments, fragments[i].id)[0] == fragments[i]
  {
    FilterExact(fragments, (f: Fragment) => f.id == fragments[i].id);
    assert fragments[i] in Matches(fragments, fragments[i].id);
  }

  /** The log and the contract set that the stages start from. */
  ghost predicate Ready(digestOf: DigestOf, rows: seq<Record>, cs: ContractSet) {
    TellsSetsApart(digestOf) && BoundLog(digestOf, rows) && DistinctIds(cs.fragments)
  }

  /** The latest record of a fragment passes the checks of the ageing stage. */
  lemma LatestAccepted(digestOf: DigestOf, rows: seq<Record>, cs: ContractSet, i: nat, seen: map<string, Record>)
    requires Ready(digestOf, rows, cs) && i < |cs.fragments| && cs.fragments[i].id !in seen
    requires LatestRecord(rows, digestOf(cs), cs.fragments[i].id).Some?
    ensures var r := LatestRecord(rows, digestOf(cs), cs.fragments[i].id).value;
      r.fragmentId == cs.fragments[i].id && RecordError(digestOf, cs, seen, r).None?
  {
    var r := LatestRecord(rows, digestOf(cs), cs.fragments[i].id).value;
    LatestRecordFragment(rows, digestOf(cs), cs.fragments[i].id);
    FragmentByIdExact(cs.fragments, cs.fragments[i].id);
    OneFragment(cs.fragments, cs.fragments[i], FragmentById(cs.fragments)[cs.fragments[i].id]);
    FoundIsBound(digestOf, rows, cs, r);
    MatchesExact(cs.fragments, i);
  }

  /** The dict holds exactly the latest records of the fragments. */
  ghost predicate HoldsLatest(rows: seq<Record>, digest: string, fragments: seq<Fragment>,
      found: map<string, Record>)
  {
    forall id :: Lookup(found, id) == if IsId(fragments, id) then LatestRecord(rows, digest, id) else None
  }

  function WithRecord(found: map<string, Record>, id: string, r: Option<Record>): map<string, Record> {
    match r
    case None => found
    case Some(record) => found[id := record]
  }

  lemma HoldsOneMore(rows: seq<Record>, digest: string, fragments: seq<Fragment>, n: nat, found: map<string, Record>)
    requires n < |fragments| && DistinctIds(fragments) && HoldsLatest(rows, digest, fragments[..n], found)
    ensures HoldsLatest(rows, digest, fragments[..n + 1],
      WithRecord(found, fragments[n].id, LatestRecord(rows, digest, fragments[n].id)))
    ensures fragments[n].id !in found
  {
    FreshId(fragments, n);
    assert fragments[..n + 1][..n] == fragments[..n];
    forall id ensures IsId(fragments[..n + 1], id) <==> IsId(fragments[..n], id) || fragments[n].id == id {
      IdOfFront(fragments[..n + 1], id);
    }
    assert Lookup(found, fragments[n].id) == None;
    var more := WithRecord(found, fragments[n].id, LatestRecord(rows, digest, fragments[n].id));
    LatestRecordFragment(rows, digest, fragments[n].id);
    forall id
      ensures Lookup(more, id) == if IsId(fragments[..n + 1], id) then LatestRecord(rows, digest, id) else None
    {
      assert Lookup(found, id) == if IsId(fragments[..n], id) then LatestRecord(rows, digest, id) else None;
    }
  }

  lemma FoundOneMore(digestOf: DigestOf, rows: seq<Record>, cs: ContractSet, n: nat, front: seq<Record>,
      found: map<string, Record>)
    requires Ready(digestOf, rows, cs) && n < |cs.fragments| && cs.fragments[n].id !in found
    requires ByFragment(digestOf, cs, front) == Ok(found)
    ensures ByFragment(digestOf, cs, front + Listed(LatestRecord(rows, digestOf(cs), cs.fragments[n].id)))
         == Ok(WithRecord(found, cs.fragments[n].id, LatestRecord(rows, digestOf(cs), cs.fragments[n].id)))
  {
    match LatestRecord(rows, digestOf(cs), cs.fragments[n].id)
    case None => assert front + [] == front;
    case Some(r) =>
      assert (front + [r])[..|front|] == front;
      LatestAccepted(digestOf, rows, cs, n, found);
  }

  lemma {:induction false} LatestFound(digestOf: DigestOf, rows: seq<Record>, cs: ContractSet, n: nat)
    returns (found: map<string, Record>)
    requires Ready(digestOf, rows, cs) && n <= |cs.fragments|
    ensures ByFragment(digestOf, cs, LatestRecords(rows, digestOf(cs), cs.fragments[..n])) == Ok(found)
    ensures HoldsLatest(rows, digestOf(cs), cs.fragments[..n], found)
  {
    if n == 0 {
      found := map[];
    } else {
      var before := LatestFound(digestOf, rows, cs, n - 1);
      HoldsOneMore(rows, digestOf(cs), cs.fragments, n - 1, before);
      FoundOneMore(digestOf, rows, cs, n - 1, LatestRecords(rows, digestOf(cs), cs.fragments[..n - 1]), before);
      assert cs.fragments[..n][..n - 1] == cs.fragments[..n - 1];
      found := WithRecord(before, cs.fragments[n - 1].id, LatestRecord(rows, digestOf(cs), cs.fragments[n - 1].id));
    }
  }

  lemma FreshId(fragments: seq<Fragment>, i: nat)
    requires DistinctIds(fragments) && i < |fragments|
    ensures !IsId(fragments[..i], fragments[i].id)
  {
  }

  // ----- the assessments

  predicate FitsIfAny(r: Option<Record>, p: Policy) {
    r.Some? ==> Fits(r.value, p)
  }

  lemma AssessedIfFits(f: Fragment, r: Option<Record>, p: Policy, now: int)
    ensures AssessFragment(f, r, p, now).Ok? <==> FitsIfAny(r, p)
  {
  }

  /** Every latest record leaves room for the maximum age. */
  ghost predicate AllFit(rows: seq<Record>, digest: string, fragments: seq<Fragment>, p: Policy) {
    forall f | f in fragments :: FitsIfAny(LatestRecord(rows, digest, f.id), p)
  }

  ghost predicate AssessedAs(rows: seq<Record>, digest: string, fragments: seq<Fragment>, p: Policy, now: int,
      out: seq<Assessment>)
  {
    |out| == |fragments| && forall i | 0 <= i < |fragments| ::
      AssessFragment(fragments[i], LatestRecord(rows, digest, fragments[i].id), p, now) == Ok(out[i])
  }

  lemma AssessAllStep(front: seq<Fragment>, last: Fragment, found: map<string, Record>, p: Policy, now: int)
    ensures AssessAll(front + [last], found, p, now) ==
      match AssessAll(front, found, p, now)
      case Err(e) => Err(e)
      case Ok(before) =>
        match AssessFragment(last, Lookup(found, last.id), p, now)
        case Err(e) => Err(e)
        case Ok(a) => Ok(before + [a])
  {
  }

  ghost predicate FindsLatest(rows: seq<Record>, digest: string, fragments: seq<Fragment>,
      found: map<string, Record>)
  {
    forall f | f in fragments :: Lookup(found, f.id) == LatestRecord(rows, digest, f.id)
  }

  /** The assessments succeed exactly when every latest record fits, and then assess them. */
  ghost predicate AssessesAll(rows: seq<Record>, digest: string, fragments: seq<Fragment>,
      found: map<string, Record>, p: Policy, now: int)
  {
    match AssessAll(fragments, found, p, now)
    case Err(_) => !AllFit(rows, digest, fragments, p)
    case Ok(out) => AllFit(rows, digest, fragments, p) && AssessedAs(rows, digest, fragments, p, now, out)
  }

  lemma {:induction false} AssessAllExact(rows: seq<Record>, digest: string, fragments: seq<Fragment>,
      found: map<string, Record>, p: Policy, now: int)
    requires FindsLatest(rows, digest, fragments, found)
    ensures AssessesAll(rows, digest, fragments, found, p, now)
  {
    if fragments == [] {
      assert AllFit(rows, digest, fragments, p);
    } else {
      var front, last := fragments[..|fragments| - 1], fragments[|fragments| - 1];
      assert fragments == front + [last];
      FindsFront(rows, digest, front, last, found);
      AssessAllExact(rows, digest, front, found, p, now);
      AssessOneMore(rows, digest, front, last, found, p, now);
    }
  }

  lemma FindsFront(rows: seq<Record>, digest: string, front: seq<Fragment>, last: Fragment,
      found: map<string, Record>)
    requires FindsLatest(rows, digest, front + [last], found)
    ensures FindsLatest(rows, digest, front, found) && Lookup(found, last.id) == LatestRecord(rows, digest, last.id)
  {
  }

  lemma AssessOneMore(rows: seq<Record>, digest: string, front: seq<Fragment>, last: Fragment,
      found: map<string, Record>, p: Policy, now: int)
    requires Lookup(found, last.id) == LatestRecord(rows, digest, last.id)
    requires AssessesAll(rows, digest, front, found, p, now)
    ensures AssessesAll(rows, digest, front + [last], found, p, now)
  {
    AssessAllStep(front, last, found, p, now);
    AssessedIfFits(last, LatestRecord(rows, digest, last.id), p, now);
    AllFitFront(rows, digest, front, last, p);
    match AssessAll(front, found, p, now)
    case Err(_) =>
    case Ok(before) =>
      match AssessFragment(last, LatestRecord(rows, digest, last.id), p, now)
      case Err(_) =>
      case Ok(a) => AssessedOneMore(rows, digest, front, last, p, now, before, a);
  }

  lemma AllFitFront(rows: seq<Record>, digest: string, front: seq<Fragment>, last: Fragment,
      p: Policy)
    ensures AllFit(rows, digest, front + [last], p) <==>
      AllFit(rows, digest, front, p) && FitsIfAny(LatestRecord(rows, digest, last.id), p)
  {
    assert forall f :: f in front + [last] <==> f in front || f == last;
  }

  lemma AssessedOneMore(rows: seq<Record>, digest: string, front: seq<Fragment>, last: Fragment, p: Policy,
      now: int, before: seq<Assessment>, a: Assessment)
    requires AssessedAs(rows, digest, front, p, now, before)
    requires AssessFragment(last, LatestRecord(rows, digest, last.id), p, now) == Ok(a)
    ensures AssessedAs(rows, digest, front + [last], p, now, before + [a])
  {
  }

  // ----- the overlay

  lemma AssessedId(rows: seq<Record>, digest: string, fragments: seq<Fragment>, p: Policy, now: int,
      out: seq<Assessment>, i: nat)
    requires AssessedAs(rows, digest, fragments, p, now, out) && i < |fragments|
    ensures out[i].fragmentId == fragments[i].id
  {
    LatestRecordFragment(rows, digest, fragments[i].id);
    assert AssessFragment(fragments[i], LatestRecord(rows, digest, fragments[i].id), p, now) == Ok(out[i]);
  }

  lemma {:induction false} AssessedIdsAt(out: seq<Assessment>)
    ensures |AssessedIds(out)| == |out| && forall i | 0 <= i < |out| :: AssessedIds(out)[i] == out[i].fragmentId
  {
    if out != [] {
      AssessedIdsAt(out[..|out| - 1]);
    }
  }

  lemma {:induction false} StateAt(out: seq<Assessment>, i: nat)
    requires i < |out| && forall j | 0 <= j < |out| && j != i :: out[j].fragmentId != out[i].fragmentId
    ensures Get(EffectiveStates(out), out[i].fragmentId) == Some(out[i].state)
  {
    if i < |out| - 1 {
      var front := out[..|out| - 1];
      assert forall j | 0 <= j < |front| && j != i :: front[j].fragmentId != front[i].fragmentId;
      StateAt(front, i);
    }
  }

  lemma {:induction false} OnlyAssessed(out: seq<Assessment>, id: string)
    requires id in EffectiveStates(out)
    ensures exists i :: 0 <= i < |out| && out[i].fragmentId == id
  {
    var last := |out| - 1;
    if out[last].fragmentId != id {
      OnlyAssessed(out[..last], id);
      var i :| 0 <= i < last && out[..last][i].fragmentId == id;
      assert out[i].fragmentId == id;
    }
  }

  /** The overlay from assessments is refused exactly when a fragment is assessed twice, and otherwise
    says of each assessed fragment its state, and nothing of others. */
  lemma FreshnessOverlayExact(out: seq<Assessment>)
    ensures var overlay := OverlayFromFreshness(out);
      && (overlay.None? <==> exists i, j :: 0 <= i < j < |out| && out[i].fragmentId == out[j].fragmentId)
      && (overlay.Some? ==>
        && (forall i | 0 <= i < |out| :: Get(overlay.value, out[i].fragmentId) == Some(out[i].state))
        && forall id | id in overlay.value :: exists i :: 0 <= i < |out| && out[i].fragmentId == id)
  {
    AssessedIdsAt(out);
    DistinctCount(AssessedIds(out));
    if Distinct(AssessedIds(out)) {
      forall i | 0 <= i < |out| ensures Get(EffectiveStates(out), out[i].fragmentId) == Some(out[i].state) {
        forall j | 0 <= j < |out| && j != i ensures out[j].fragmentId != out[i].fragmentId {
          assert AssessedIds(out)[j] != AssessedIds(out)[i];
        }
        StateAt(out, i);
      }
      forall id | id in EffectiveStates(out) ensures exists i :: 0 <= i < |out| && out[i].fragmentId == id {
        OnlyAssessed(out, id);
      }
    } else {
      var i, j :| 0 <= i < j < |out| && AssessedIds(out)[i] == AssessedIds(out)[j];
      assert out[i].fragmentId == out[j].fragmentId;
    }
  }

  lemma {:induction false} IdInIds(fragments: seq<Fragment>, id: string)
    ensures IsId(fragments, id) <==> id in Ids(fragments)
  {
    if fragments != [] {
      IdInIds(fragments[1..], id);
      if i :| 0 < i < |fragments| && fragments[i].id == id {
        assert fragments[1..][i - 1].id == id;
      }
      if i :| 0 <= i < |fragments| - 1 && fragments[1..][i].id == id {
        assert fragments[i + 1].id == id;
      }
    }
  }

  /** The overlay says of every fragment what its latest record, aged to now, says. */
  ghost predicate Ages(rows: seq<Record>, digest: string, fragments: seq<Fragment>, p: Policy, now: int,
      overlay: Overlay) {
    forall i | 0 <= i < |fragments| ::
      exists a :: AssessFragment(fragments[i], LatestRecord(rows, digest, fragments[i].id), p, now) == Ok(a)
        && Get(overlay, fragments[i].id) == Some(a.state)
  }

  lemma OverlayOfAssessments(rows: seq<Record>, digest: string, fragments: seq<Fragment>, p: Policy, now: int,
      out: seq<Assessment>)
    requires DistinctIds(fragments) && AssessedAs(rows, digest, fragments, p, now, out)
    ensures OverlayFromFreshness(out).Some?
    ensures Known(OverlayFromFreshness(out).value, fragments)
    ensures Ages(rows, digest, fragments, p, now, OverlayFromFreshness(out).value)
  {
    forall i | 0 <= i < |out| ensures out[i].fragmentId == fragments[i].id {
      AssessedId(rows, digest, fragments, p, now, out, i);
    }
    AssessedIdsAt(out);
    DistinctCount(AssessedIds(out));
    forall id | id in EffectiveStates(out) ensures id in Ids(fragments) {
      OnlyAssessed(out, id);
      var i :| 0 <= i < |out| && out[i].fragmentId == id;
      assert fragments[i].id == id;
      IdInIds(fragments, id);
    }
    forall i | 0 <= i < |fragments| ensures Get(EffectiveStates(out), fragments[i].id) == Some(out[i].state) {
      assert out[i].fragmentId == fragments[i].id;
      StateAt(out, i);
    }
  }

  lemma AssessedNow(digestOf: DigestOf, rows: seq<Record>, cs: ContractSet, p: Policy, now: int)
    requires Ready(digestOf, rows, cs)
    ensures var r := Assess(digestOf, cs, LatestRecords(rows, digestOf(cs), cs.fragments), p, now);
      && (r.Ok? <==> AllFit(rows, digestOf(cs), cs.fragments, p))
      && (r.Ok? ==> AssessedAs(rows, digestOf(cs), cs.fragments, p, now, r.value))
  {
    assert cs.fragments[..|cs.fragments|] == cs.fragments;
    var found := LatestFound(digestOf, rows, cs, |cs.fragments|);
    forall f | f in cs.fragments ensures Lookup(found, f.id) == LatestRecord(rows, digestOf(cs), f.id) {
      assert IsId(cs.fragments, f.id);
    }
    AssessAllExact(rows, digestOf(cs), cs.fragments, found, p, now);
  }

  /** The stages up to the overlay fail only by overflow: a log that was filled by `append` never
    misbinds. */
  lemma OverlayExact(digestOf: DigestOf, rows: seq<Record>, cs: ContractSet, p: Policy, now: int)
    requires Ready(digestOf, rows, cs)
    ensures OverlayNow(digestOf, rows, cs, p, now).Ok? <==> AllFit(rows, digestOf(cs), cs.fragments, p)
    ensures OverlayNow(digestOf, rows, cs, p, now).Ok? ==>
      && Known(OverlayNow(digestOf, rows, cs, p, now).value, cs.fragments)
      && Ages(rows, digestOf(cs), cs.fragments, p, now, OverlayNow(digestOf, rows, cs, p, now).value)
  {
    AssessedNow(digestOf, rows, cs, p, now);
    match Assess(digestOf, cs, LatestRecords(rows, digestOf(cs), cs.fragments), p, now)
    case Err(_) =>
    case Ok(out) => OverlayOfAssessments(rows, digestOf(cs), cs.fragments, p, now, out);
  }

  // ----- end to end

  /** A fragment is fully attested and its latest record is HEALTHY and within its age. */
  ghost predicate Vouched(rows: seq<Record>, digest: string, p: Policy, now: int, f: Fragment) {
    FullyAttested(f) && Fresh(LatestRecord(rows, digest, f.id), p, now)
  }

  lemma SoundIsVouched(rows: seq<Record>, digest: string, fragments: seq<Fragment>, p: Policy,
      now: int, overlay: Overlay, f: Fragment)
    requires Permitted(p) && Ages(rows, digest, fragments, p, now, overlay) && f in fragments
    ensures Sound(f, overlay) <==> Vouched(rows, digest, p, now, f)
  {
    var i :| 0 <= i < |fragments| && fragments[i] == f;
    AssessExact(f, LatestRecord(rows, digest, f.id), p, now);
  }

  lemma VouchedExactly(rows: seq<Record>, cs: ContractSet, digest: string, application: string, capability: string,
      p: Policy, now: int, overlay: Overlay)
    requires Permitted(p) && DistinctIds(cs.fragments) && Known(overlay, cs.fragments)
    requires Ages(rows, digest, cs.fragments, p, now, overlay)
    ensures Attest(cs, application, capability, overlay).Ok?
    ensures Attest(cs, application, capability, overlay).value.attested <==>
      && (exists f :: Requires(cs.fragments, application, capability, f))
      && forall f | Requires(cs.fragments, application, capability, f) :: Vouched(rows, digest, p, now, f)
  {
    AttestationExact(cs, application, capability, overlay);
    forall f | Requires(cs.fragments, application, capability, f)
      ensures Sound(f, overlay) <==> Vouched(rows, digest, p, now, f)
    {
      SoundIsVouched(rows, digest, cs.fragments, p, now, overlay, f);
    }
  }

  lemma SupportedWhenAttested(capability: string, s: SessionEvidence, a: Attestation)
    requires !ReadDelivery(capability) && (a.attested ==> !a.drifted && !a.stale && !a.reattestationRequired)
    ensures Evaluate(capability, Combined(s, a)).state == READ_SUPPORTED <==> OtherEvidenceHolds(s) && a.attested
  {
  }

  predicate OtherEvidenceHolds(s: SessionEvidence) {
    && s.policyAllowed && s.runtimeHealthy && s.authenticated
    && s.accountContextValid && s.licenseAvailable && s.liveEvidence
  }

  /** A capability outside read delivery is READ_SUPPORTED exactly when all evidence besides the
    UI holds, it has a dependency, and every dependency is fully attested with a HEALTHY latest
    record that is not in the future and younger than the maximum age. (No answer comes at all
    when some latest record lies within the maximum age of the end of year 9999.) */
  lemma SupportedExactly(digestOf: DigestOf, rows: seq<Record>, cs: ContractSet,
      application: string, capability: string, p: Policy, s: SessionEvidence, now: int)
    requires Ready(digestOf, rows, cs) && Permitted(p) && !ReadCapability(capability)
    ensures SupportState(digestOf, rows, cs, application, capability, p, s, now) == Ok(READ_SUPPORTED) <==>
      && AllFit(rows, digestOf(cs), cs.fragments, p)
      && OtherEvidenceHolds(s)
      && (exists f :: Requires(cs.fragments, application, capability, f))
      && forall f | Requires(cs.fragments, application, capability, f) :: Vouched(rows, digestOf(cs), p, now, f)
  {
    OverlayExact(digestOf, rows, cs, p, now);
    if AllFit(rows, digestOf(cs), cs.fragments, p) {
      var overlay := OverlayNow(digestOf, rows, cs, p, now).value;
      VouchedExactly(rows, cs, digestOf(cs), application, capability, p, now, overlay);
      var deps := FragmentsForCapability(cs.fragments, application, capability);
      AttestedIsClean(deps, InvalidHealthy(deps, overlay), LifecycleMap(deps, overlay));
      ReadDeliveryExact(capability);
      SupportedWhenAttested(capability, s, Attest(cs, application, capability, overlay).value);
    }
  }

  /** The log of any calls of `append` is one the theorem applies to. */
  lemma {:induction false} LogReady(identify: Identify, digestOf: DigestOf, calls: seq<Appending>, cs: ContractSet)
    requires TellsSetsApart(digestOf) && DistinctIds(cs.fragments)
    ensures Ready(digestOf, Log(identify, digestOf, calls), cs)
  {
    LogBound(identify, digestOf, calls);
  }

  // ----- read delivery

  predicate ReadEvidenceHolds(s: SessionEvidence) {
    s.policyAllowed && s.runtimeHealthy && s.authenticated && s.accountContextValid && s.liveEvidence && s.liveReadPath
  }

  /** The fragment has drifted, or there is no fresh HEALTHY record of it. */
  ghost predicate Withdrawn(rows: seq<Record>, digest: string, p: Policy, now: int, f: Fragment) {
    HasDrifted(f) || !Fresh(LatestRecord(rows, digest, f.id), p, now)
  }

  /** There is a fresh HEALTHY record of a fragment that has not drifted but is not attested. */
  ghost predicate FalselyClaimed(rows: seq<Record>, digest: string, p: Policy, now: int, f: Fragment) {
    !HasDrifted(f) && !FullyAttested(f) && Fresh(LatestRecord(rows, digest, f.id), p, now)
  }

  ghost predicate IsDegraded(f: Fragment, overlay: Overlay) {
    InDrift(f, overlay) || NeedsReattestation(f, overlay) || IsStale(f, overlay)
  }

  lemma StandingFromLog(rows: seq<Record>, digest: string, fragments: seq<Fragment>, p: Policy, now: int,
      overlay: Overlay, f: Fragment)
    requires Permitted(p) && Ages(rows, digest, fragments, p, now, overlay) && f in fragments
    ensures ClaimedHealthy(f, overlay) <==> FalselyClaimed(rows, digest, p, now, f)
    ensures IsDegraded(f, overlay) <==> Withdrawn(rows, digest, p, now, f)
  {
    var i :| 0 <= i < |fragments| && fragments[i] == f;
    AssessExact(f, LatestRecord(rows, digest, f.id), p, now);
  }

  lemma StandingsFromLog(rows: seq<Record>, digest: string, fragments: seq<Fragment>, application: string,
      capability: string, p: Policy, now: int, overlay: Overlay)
    requires Permitted(p) && Ages(rows, digest, fragments, p, now, overlay)
    ensures SomeDependency(fragments, application, capability, f => ClaimedHealthy(f, overlay)) <==>
      SomeDependency(fragments, application, capability, f => FalselyClaimed(rows, digest, p, now, f))
    ensures SomeDependency(fragments, application, capability, f => IsDegraded(f, overlay)) <==>
      SomeDependency(fragments, application, capability, f => Withdrawn(rows, digest, p, now, f))
  {
    forall f | Requires(fragments, application, capability, f)
      ensures ClaimedHealthy(f, overlay) <==> FalselyClaimed(rows, digest, p, now, f)
      ensures IsDegraded(f, overlay) <==> Withdrawn(rows, digest, p, now, f)
    {
      StandingFromLog(rows, digest, fragments, p, now, overlay, f);
    }
  }

  lemma SomeDegradedExact(fragments: seq<Fragment>, application: string, capability: string, overlay: Overlay)
    ensures SomeDependency(fragments, application, capability, f => IsDegraded(f, overlay)) <==>
      || SomeDependency(fragments, application, capability, f => InDrift(f, overlay))
      || SomeDependency(fragments, application, capability, f => NeedsReattestation(f, overlay))
      || SomeDependency(fragments, application, capability, f => IsStale(f, overlay))
  {
  }

  lemma ReadFromOverlay(cs: ContractSet, application: string, capability: string, overlay: Overlay, s: SessionEvidence)
    requires DistinctIds(cs.fragments) && Known(overlay, cs.fragments) && ReadCapability(capability)
    ensures Attest(cs, application, capability, overlay).Ok?
    ensures var hidden := SomeDependency(cs.fragments, application, capability, f => ClaimedHealthy(f, overlay));
      var degraded := SomeDependency(cs.fragments, application, capability, f => IsDegraded(f, overlay));
      var state := Evaluate(capability, Combined(s, Attest(cs, application, capability, overlay).value)).state;
      && (state == DEGRADED <==> ReadEvidenceHolds(s) && degraded && !hidden)
      && (state == READ_SUPPORTED <==> ReadEvidenceHolds(s) && (!degraded || hidden))
  {
    AttestationExact(cs, application, capability, overlay);
    SomeDegradedExact(cs.fragments, application, capability, overlay);
    EvaluateExact(capability, Combined(s, Attest(cs, application, capability, overlay).value));
  }

  /** A read whose session evidence holds is withdrawn exactly when some dependency has drifted or
    has no fresh HEALTHY record, unless a fresh HEALTHY record claims a dependency that is not
    attested: that claim hides the others, and the read stays supported. */
  lemma ReadWithdrawnExactly(digestOf: DigestOf, rows: seq<Record>, cs: ContractSet, application: string,
      capability: string, p: Policy, s: SessionEvidence, now: int)
    requires Ready(digestOf, rows, cs) && Permitted(p) && ReadCapability(capability)
    ensures var state := SupportState(digestOf, rows, cs, application, capability, p, s, now);
      var withdrawn := SomeDependency(cs.fragments, application, capability,
        f => Withdrawn(rows, digestOf(cs), p, now, f));
      var claimed := SomeDependency(cs.fragments, application, capability,
        f => FalselyClaimed(rows, digestOf(cs), p, now, f));
      var answered := AllFit(rows, digestOf(cs), cs.fragments, p) && ReadEvidenceHolds(s);
      && (state == Ok(DEGRADED) <==> answered && withdrawn && !claimed)
      && (state == Ok(READ_SUPPORTED) <==> answered && (!withdrawn || claimed))
  {
    OverlayExact(digestOf, rows, cs, p, now);
    if AllFit(rows, digestOf(cs), cs.fragments, p) {
      var overlay := OverlayNow(digestOf, rows, cs, p, now).value;
      ReadFromOverlay(cs, application, capability, overlay, s);
      StandingsFromLog(rows, digestOf(cs), cs.fragments, application, capability, p, now, overlay);
    }
  }

  lemma OnlyMatch(f: Fragment, g: Fragment)
    requires f.id != g.id
    ensures Matches([f, g], g.id) == [g]
  {
    assert [f, g][..1] == [f] && [f][..0] == [];
    assert Matches([], g.id) == [];
    assert Matches([f], g.id) == Matches([], g.id) + [];
    assert Matches([f, g], g.id) == Matches([f], g.id) + [g];
  }

  lemma OneRecord(r: Record, digest: string, id: string)
    requires r.contractDigest == digest
    ensures LatestRecord([r], digest, id) == if r.fragmentId == id then Some(r) else None
  {
    assert [r][..0] == [];
    assert LatestEntry([], digest, id) == None;
    assert LatestEntry([r], digest, id) == if r.fragmentId == id then Some(Entry(0, r)) else None;
  }

  lemma OneCall(identify: Identify, digestOf: DigestOf, call: Appending)
    requires BindingError(digestOf, call.record, call.contracts).None?
    ensures Log(identify, digestOf, [call]) == [call.record]
  {
    assert [call][..0] == [];
  }

  /** A HEALTHY record for a fragment, as `append` accepts it. */
  function Claim(digestOf: DigestOf, cs: ContractSet, g: Fragment, made: UtcTime): Record {
    Record(g.id, g.version, g.scope, g.application, g.surface, digestOf(cs), "", HEALTHY, made)
  }

  lemma ClaimLogged(identify: Identify, digestOf: DigestOf, f: Fragment, g: Fragment, made: UtcTime, p: Policy)
    requires f.id != g.id && Fits(Claim(digestOf, ContractSet("1", "1", [f, g]), g, made), p)
    ensures var cs := ContractSet("1", "1", [f, g]);
      var claim := Claim(digestOf, cs, g, made);
      && Log(identify, digestOf, [Appending(claim, cs)]) == [claim]
      && AllFit([claim], digestOf(cs), cs.fragments, p)
      && LatestRecord([claim], digestOf(cs), g.id) == Some(claim)
  {
    var cs := ContractSet("1", "1", [f, g]);
    var claim := Claim(digestOf, cs, g, made);
    OnlyMatch(f, g);
    OneCall(identify, digestOf, Appending(claim, cs));
    OneRecord(claim, digestOf(cs), f.id);
    OneRecord(claim, digestOf(cs), g.id);
  }

  /** Such logs exist: for any drifted dependency and any other that has not drifted and is not
    attested, one appended HEALTHY record of the second hides the drift for as long as it is
    fresh. */
  lemma DriftHidden(identify: Identify, digestOf: DigestOf, f: Fragment, g: Fragment, made: UtcTime,
      application: string, capability: string, p: Policy, s: SessionEvidence, now: int)
    requires TellsSetsApart(digestOf) && Permitted(p) && f.id != g.id
    requires ReadCapability(capability) && ReadEvidenceHolds(s)
    requires f.application == Some(application) && capability in f.capabilityKeys && HasDrifted(f)
    requires g.application == Some(application) && capability in g.capabilityKeys
    requires !HasDrifted(g) && !FullyAttested(g)
    requires made.Instant() <= now < made.Instant() + p.maxAgeSeconds * 1_000_000 <= LastInstant()
    ensures var cs := ContractSet("1", "1", [f, g]);
      var rows := Log(identify, digestOf, [Appending(Claim(digestOf, cs, g, made), cs)]);
      SupportState(digestOf, rows, cs, application, capability, p, s, now) == Ok(READ_SUPPORTED)
  {
    var cs := ContractSet("1", "1", [f, g]);
    var claim := Claim(digestOf, cs, g, made);
    ClaimLogged(identify, digestOf, f, g, made, p);
    LogReady(identify, digestOf, [Appending(claim, cs)], cs);
    assert Requires(cs.fragments, application, capability, g);
    assert FalselyClaimed([claim], digestOf(cs), p, now, g);
    ReadWithdrawnExactly(digestOf, [claim], cs, application, capability, p, s, now);
  }

  // ----- time

  lemma FreshEarlier(rows: seq<Record>, digest: string, p: Policy, now: int, later: int, id: string)
    requires now <= later && forall r :: r in rows ==> r.recordedAt.Instant() <= now
    requires Fresh(LatestRecord(rows, digest, id), p, later)
    ensures Fresh(LatestRecord(rows, digest, id), p, now)
  {
    LatestRecordFragment(rows, digest, id);
  }

  lemma GeneralNeverPromoted(digestOf: DigestOf, rows: seq<Record>, cs: ContractSet, application: string,
      capability: string, p: Policy, s: SessionEvidence, now: int, later: int)
    requires Ready(digestOf, rows, cs) && Permitted(p) && !ReadCapability(capability)
    requires now <= later && forall r :: r in rows ==> r.recordedAt.Instant() <= now
    requires SupportState(digestOf, rows, cs, application, capability, p, s, later) == Ok(READ_SUPPORTED)
    ensures SupportState(digestOf, rows, cs, application, capability, p, s, now) == Ok(READ_SUPPORTED)
  {
    SupportedExactly(digestOf, rows, cs, application, capability, p, s, now);
    SupportedExactly(digestOf, rows, cs, application, capability, p, s, later);
    forall f | Vouched(rows, digestOf(cs), p, later, f) ensures Vouched(rows, digestOf(cs), p, now, f) {
      FreshEarlier(rows, digestOf(cs), p, now, later, f.id);
    }
  }

  lemma ReadNeverPromoted(digestOf: DigestOf, rows: seq<Record>, cs: ContractSet, application: string,
      capability: string, p: Policy, s: SessionEvidence, now: int, later: int)
    requires Ready(digestOf, rows, cs) && Permitted(p) && ReadCapability(capability)
    requires now <= later && forall r :: r in rows ==> r.recordedAt.Instant() <= now
    requires SupportState(digestOf, rows, cs, application, capability, p, s, later) == Ok(READ_SUPPORTED)
    ensures SupportState(digestOf, rows, cs, application, capability, p, s, now) == Ok(READ_SUPPORTED)
  {
    ReadWithdrawnExactly(digestOf, rows, cs, application, capability, p, s, now);
    ReadWithdrawnExactly(digestOf, rows, cs, application, capability, p, s, later);
    forall f | FalselyClaimed(rows, digestOf(cs), p, later, f) ensures FalselyClaimed(rows, digestOf(cs), p, now, f) {
      FreshEarlier(rows, digestOf(cs), p, now, later, f.id);
    }
    forall f | Withdrawn(rows, digestOf(cs), p, now, f) ensures Withdrawn(rows, digestOf(cs), p, later, f) {
      if Fresh(LatestRecord(rows, digestOf(cs), f.id), p, later) {
        FreshEarlier(rows, digestOf(cs), p, now, later, f.id);
      }
    }
  }

  /** Once now has passed every record, the passing of time never promotes: what is supported
    later was supported before, reads included. */
  lemma TimeNeverPromotes(digestOf: DigestOf, rows: seq<Record>, cs: ContractSet, application: string,
      capability: string, p: Policy, s: SessionEvidence, now: int, later: int)
    requires Ready(digestOf, rows, cs) && Permitted(p)
    requires now <= later && forall r :: r in rows ==> r.recordedAt.Instant() <= now
    ensures SupportState(digestOf, rows, cs, application, capability, p, s, later) == Ok(READ_SUPPORTED) ==>
      SupportState(digestOf, rows, cs, application, capability, p, s, now) == Ok(READ_SUPPORTED)
  {
    if SupportState(digestOf, rows, cs, application, capability, p, s, later) == Ok(READ_SUPPORTED) {
      if ReadCapability(capability) {
        ReadNeverPromoted(digestOf, rows, cs, application, capability, p, s, now, later);
      } else {
        GeneralNeverPromoted(digestOf, rows, cs, application, capability, p, s, now, later);
      }
    }
  }
}
