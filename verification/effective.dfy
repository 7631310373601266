/** The support state of a capability, from its evidence (src/m365_mcp/effective_capabilities.py). */
module EffectiveCapabilities {
  import opened Ordering
  import opened Results

  datatype EffectiveState =
    | UNVERIFIED | DISCOVERED | READ_SUPPORTED | MUTATION_SUPPORTED | DEGRADED | BLOCKED | OUT_OF_SCOPE

  datatype Evidence = Evidence(
    authenticated: bool, accountContextValid: bool, uiAttested: bool, runtimeHealthy: bool, policyAllowed: bool,
    licenseAvailable: bool, liveEvidence: bool, uiDrifted: bool, uiStale: bool, uiReattestationRequired: bool,
    liveReadPath: bool)

  datatype ReasonCode =
    | POLICY_DENIED | RUNTIME_UNHEALTHY
    | AUTH_NOT_ATTESTED | ACCOUNT_CONTEXT_UNVERIFIED | LICENSE_UNVERIFIED | LIVE_EVIDENCE_ABSENT
    | LIVE_READ_PATH_UNAVAILABLE | UI_NOT_ATTESTED
    | UI_DRIFT | UI_EVIDENCE_STALE | UI_RE_ATTESTATION
    | LIVE_READ_PATH_VERIFIED | ALL_REQUIRED_EVIDENCE_PRESENT

  datatype Effective = Effective(state: EffectiveState, reasons: seq<ReasonCode>)

  predicate ReadDelivery(capability: string) {
    capability == "plans.read" || capability == "tasks.read" || capability == "project_snapshot.read"
  }

  function If(condition: bool, reason: ReasonCode): seq<ReasonCode> {
    if condition then [reason] else []
  }

  function Session(e: Evidence): seq<ReasonCode> {
    If(!e.authenticated, AUTH_NOT_ATTESTED) + If(!e.accountContextValid, ACCOUNT_CONTEXT_UNVERIFIED)
  }

  function ReadLifecycle(e: Evidence): Option<ReasonCode> {
    if e.uiDrifted then Some(UI_DRIFT)
    else if e.uiStale then Some(UI_EVIDENCE_STALE)
    else if e.uiReattestationRequired then Some(UI_RE_ATTESTATION)
    else None
  }

  function GeneralLifecycle(e: Evidence): Option<ReasonCode> {
    if e.uiDrifted then Some(UI_DRIFT)
    else if e.uiReattestationRequired then Some(UI_RE_ATTESTATION)
    else if e.uiStale then Some(UI_EVIDENCE_STALE)
    else None
  }

  function ReadMissing(e: Evidence): seq<ReasonCode> {
    Session(e) + If(!e.liveEvidence, LIVE_EVIDENCE_ABSENT) + If(!e.liveReadPath, LIVE_READ_PATH_UNAVAILABLE)
  }

  function GeneralMissing(e: Evidence): seq<ReasonCode> {
    Session(e) + If(!e.licenseAvailable, LICENSE_UNVERIFIED) + If(!e.liveEvidence, LIVE_EVIDENCE_ABSENT)
  }

  function EvaluateRead(e: Evidence): Effective {
    var missing := ReadMissing(e);
    if missing != [] then Effective(UNVERIFIED, missing)
    else
      match ReadLifecycle(e)
      case Some(reason) => Effective(DEGRADED, [reason])
      case None => Effective(READ_SUPPORTED, [LIVE_READ_PATH_VERIFIED])
  }

  function EvaluateGeneral(e: Evidence): Effective {
    var missing := GeneralMissing(e);
    match GeneralLifecycle(e)
    case Some(reason) =>
      if missing != [] then Effective(UNVERIFIED, missing + [reason]) else Effective(DEGRADED, [reason])
    case None =>
      var all := missing + If(!e.uiAttested, UI_NOT_ATTESTED);
      if all != [] then Effective(UNVERIFIED, all) else Effective(READ_SUPPORTED, [ALL_REQUIRED_EVIDENCE_PRESENT])
  }

  /** `_evaluate`. */
  function Evaluate(capability: string, e: Evidence): Effective {
    if !e.policyAllowed then Effective(BLOCKED, [POLICY_DENIED])
    else if !e.runtimeHealthy then Effective(BLOCKED, [RUNTIME_UNHEALTHY])
    else if ReadDelivery(capability) then EvaluateRead(e)
    else EvaluateGeneral(e)
  }

  predicate Open(e: Evidence) {
    e.policyAllowed && e.runtimeHealthy
  }

  predicate Degraded(e: Evidence) {
    e.uiDrifted || e.uiStale || e.uiReattestationRequired
  }

  /** The three reads that the live read path delivers. */
  ghost predicate ReadCapability(capability: string) {
    capability in ["plans.read", "tasks.read", "project_snapshot.read"]
  }

  lemma ReadDeliveryExact(capability: string)
    ensures ReadDelivery(capability) <==> ReadCapability(capability)
  {
  }

  /** The evidence that a capability needs besides the UI contract. */
  ghost predicate SessionHolds(capability: string, e: Evidence) {
    && e.authenticated && e.accountContextValid && e.liveEvidence
    && (if ReadCapability(capability) then e.liveReadPath else e.licenseAvailable)
  }

  /** The four states that can come out, each exactly characterised. Read delivery asks for the
    live read path, everything else for the license and for the attestation of the UI. */
  lemma EvaluateExact(capability: string, e: Evidence)
    ensures var s := Evaluate(capability, e).state;
      && (s == BLOCKED <==> !Open(e))
      && (s == READ_SUPPORTED <==>
        && Open(e) && SessionHolds(capability, e) && !Degraded(e) && (ReadCapability(capability) || e.uiAttested))
      && (s == DEGRADED <==> Open(e) && SessionHolds(capability, e) && Degraded(e))
      && (s == UNVERIFIED <==>
        Open(e) && (!SessionHolds(capability, e) || (!Degraded(e) && !ReadCapability(capability) && !e.uiAttested)))
  {
    ReadDeliveryExact(capability);
  }

  /** The reason given with every other state is a single one: what blocks, in the order policy and
    runtime; the gravest degradation, staleness before re-attestation for reads and after it otherwise;
    or what was verified. */
  lemma SingleReasonExact(capability: string, e: Evidence)
    ensures var r := Evaluate(capability, e);
      && (r.state == BLOCKED ==> r.reasons == if !e.policyAllowed then [POLICY_DENIED] else [RUNTIME_UNHEALTHY])
      && (r.state == DEGRADED ==>
        r.reasons == if e.uiDrifted then [UI_DRIFT]
          else if ReadCapability(capability) then (if e.uiStale then [UI_EVIDENCE_STALE] else [UI_RE_ATTESTATION])
          else if e.uiReattestationRequired then [UI_RE_ATTESTATION] else [UI_EVIDENCE_STALE])
      && (r.state == READ_SUPPORTED ==>
        r.reasons == if ReadCapability(capability) then [LIVE_READ_PATH_VERIFIED] else [ALL_REQUIRED_EVIDENCE_PRESENT])
  {
    ReadDeliveryExact(capability);
  }

  /** What the capability lacks, one code at a time. */
  ghost predicate Lacks(capability: string, e: Evidence, x: ReasonCode) {
    match x
    case AUTH_NOT_ATTESTED => !e.authenticated
    case ACCOUNT_CONTEXT_UNVERIFIED => !e.accountContextValid
    case LIVE_EVIDENCE_ABSENT => !e.liveEvidence
    case LICENSE_UNVERIFIED => !ReadCapability(capability) && !e.licenseAvailable
    case LIVE_READ_PATH_UNAVAILABLE => ReadCapability(capability) && !e.liveReadPath
    case UI_NOT_ATTESTED => !ReadCapability(capability) && !Degraded(e) && !e.uiAttested
    case UI_DRIFT => !ReadCapability(capability) && e.uiDrifted
    case UI_RE_ATTESTATION => !ReadCapability(capability) && e.uiReattestationRequired && !e.uiDrifted
    case UI_EVIDENCE_STALE => !ReadCapability(capability) && e.uiStale && !e.uiDrifted && !e.uiReattestationRequired
    case _ => false
  }

  /** The code alone when the capability lacks it, or nothing. */
  ghost function Lacked(capability: string, e: Evidence, x: ReasonCode): seq<ReasonCode> {
    if Lacks(capability, e, x) then [x] else []
  }

  lemma SessionLacked(capability: string, e: Evidence)
    ensures Session(e) == Lacked(capability, e, AUTH_NOT_ATTESTED) + Lacked(capability, e, ACCOUNT_CONTEXT_UNVERIFIED)
  {
  }

  lemma ReadLacked(capability: string, e: Evidence)
    requires ReadCapability(capability)
    ensures ReadMissing(e) == Session(e)
      + Lacked(capability, e, LICENSE_UNVERIFIED) + Lacked(capability, e, LIVE_EVIDENCE_ABSENT)
      + Lacked(capability, e, LIVE_READ_PATH_UNAVAILABLE)
  {
  }

  lemma GeneralLacked(capability: string, e: Evidence)
    requires !ReadCapability(capability)
    ensures GeneralMissing(e) == Session(e)
      + Lacked(capability, e, LICENSE_UNVERIFIED) + Lacked(capability, e, LIVE_EVIDENCE_ABSENT)
      + Lacked(capability, e, LIVE_READ_PATH_UNAVAILABLE)
  {
  }

  /** What an unverified capability is said to lack is exactly what it lacks, each once and in this
    order. */
  lemma MissingExact(capability: string, e: Evidence)
    requires Evaluate(capability, e).state == UNVERIFIED
    ensures Evaluate(capability, e).reasons ==
      Lacked(capability, e, AUTH_NOT_ATTESTED) + Lacked(capability, e, ACCOUNT_CONTEXT_UNVERIFIED)
        + Lacked(capability, e, LICENSE_UNVERIFIED) + Lacked(capability, e, LIVE_EVIDENCE_ABSENT)
        + Lacked(capability, e, LIVE_READ_PATH_UNAVAILABLE) + Lacked(capability, e, UI_DRIFT)
        + Lacked(capability, e, UI_RE_ATTESTATION) + Lacked(capability, e, UI_EVIDENCE_STALE)
        + Lacked(capability, e, UI_NOT_ATTESTED)
  {
    ReadDeliveryExact(capability);
    SessionLacked(capability, e);
    if ReadCapability(capability) {
      ReadLacked(capability, e);
    } else {
      GeneralLacked(capability, e);
    }
  }

  // ----- project_effective_capabilities_by_capability

  /** Refused unless the evidence covers exactly the registered capabilities. */
  function Project(capabilities: seq<string>, evidence: map<string, Evidence>): (r: Option<seq<Effective>>)
    ensures r.Some? <==> Elements(capabilities) == evidence.Keys
    ensures r.Some? ==>
      && |r.value| == |capabilities|
      && forall i | 0 <= i < |capabilities| :: r.value[i] == Evaluate(capabilities[i], evidence[capabilities[i]])
  {
    if Elements(capabilities) != evidence.Keys then None
    else Some(EvaluateAll(capabilities, evidence))
  }

  function EvaluateAll(capabilities: seq<string>, evidence: map<string, Evidence>): (r: seq<Effective>)
    requires forall c | c in capabilities :: c in evidence
    ensures |r| == |capabilities|
    ensures forall i | 0 <= i < |capabilities| :: r[i] == Evaluate(capabilities[i], evidence[capabilities[i]])
  {
    if capabilities == [] then []
    else [Evaluate(capabilities[0], evidence[capabilities[0]])] + EvaluateAll(capabilities[1..], evidence)
  }
}
