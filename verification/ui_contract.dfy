/** UI contract fragments and the attestation of a capability by the fragments it depends on
  (src/m365_mcp/ui_contract_store.py). */
module UIContract {
  import opened Results

  datatype UILifecycleState = HEALTHY | STALE | DRIFTED | RE_ATTESTATION_REQUIRED

  /** The status of a fragment or of one of its selectors. */
  datatype Status = ATTESTED | UNVERIFIED_LIVE | STATUS_DRIFTED

  datatype Scope = COMMON | APPLICATION_SCOPE | SURFACE

  datatype Fragment = Fragment(
    id: string, version: string, scope: Scope, application: Option<string>, surface: Option<string>,
    capabilityKeys: seq<string>, attested: bool, status: Status, selectors: map<string, Status>)
  {
    predicate Drifted() {
      status == STATUS_DRIFTED || exists name :: name in selectors && selectors[name] == STATUS_DRIFTED
    }

    predicate EffectivelyAttested() {
      && !Drifted() && attested && status == ATTESTED
      && forall name :: name in selectors ==> selectors[name] == ATTESTED
    }
  }

  datatype ContractSet = ContractSet(setVersion: string, legacyVersion: string, fragments: seq<Fragment>)

  type Overlay = map<string, UILifecycleState>

  /** What the manifest loader guarantees of fragment ids. */
  ghost predicate DistinctIds(fragments: seq<Fragment>) {
    forall i, j | 0 <= i < j < |fragments| :: fragments[i].id != fragments[j].id
  }

  function Ids(fragments: seq<Fragment>): seq<string> {
    if fragments == [] then [] else [fragments[0].id] + Ids(fragments[1..])
  }

  // ----- fragments_for_capability

  predicate DependsOn(f: Fragment, application: string, capability: string) {
    f.application == Some(application) && capability in f.capabilityKeys
  }

  function FragmentsForCapability(fragments: seq<Fragment>, application: string, capability: string): seq<Fragment> {
    Filter(fragments, f => DependsOn(f, application, capability))
  }

  function Filter(fragments: seq<Fragment>, keep: Fragment -> bool): seq<Fragment> {
    if fragments == [] then []
    else
      var last := fragments[|fragments| - 1];
      Filter(fragments[..|fragments| - 1], keep) + (if keep(last) then [last] else [])
  }

  lemma {:induction false} FilterExact(fragments: seq<Fragment>, keep: Fragment -> bool)
    ensures forall f :: f in Filter(fragments, keep) <==> f in fragments && keep(f)
    ensures Filter(fragments, keep) == [] <==> forall f :: f in fragments ==> !keep(f)
  {
    if fragments != [] {
      var front, last := fragments[..|fragments| - 1], fragments[|fragments| - 1];
      FilterExact(front, keep);
      assert fragments == front + [last];
    }
  }

  /** The fragments that a capability of an application depends on. */
  ghost predicate Requires(fragments: seq<Fragment>, application: string, capability: string, f: Fragment) {
    f in fragments && f.application == Some(application) && capability in f.capabilityKeys
  }

  lemma DependenciesExact(fragments: seq<Fragment>, application: string, capability: string)
    ensures forall f ::
      f in FragmentsForCapability(fragments, application, capability) <==>
        Requires(fragments, application, capability, f)
    ensures FragmentsForCapability(fragments, application, capability) == [] <==>
      forall f :: !Requires(fragments, application, capability, f)
  {
    FilterExact(fragments, f => DependsOn(f, application, capability));
  }

  lemma {:induction false} FilterConcat(a: seq<Fragment>, b: seq<Fragment>, keep: Fragment -> bool)
    ensures Filter(a + b, keep) == Filter(a, keep) + Filter(b, keep)
  {
    if b == [] {
      assert a + b == a;
    } else {
      assert (a + b)[..|a + b| - 1] == a + b[..|b| - 1];
      FilterConcat(a, b[..|b| - 1], keep);
    }
  }

  /** They come in the order of the set, each as often as the set has it. */
  lemma DependenciesInOrder(a: seq<Fragment>, f: Fragment, b: seq<Fragment>, application: string, capability: string)
    ensures var here := f.application == Some(application) && capability in f.capabilityKeys;
      FragmentsForCapability(a + [f] + b, application, capability) ==
        FragmentsForCapability(a, application, capability) + (if here then [f] else [])
          + FragmentsForCapability(b, application, capability)
  {
    var keep := f => DependsOn(f, application, capability);
    FilterConcat(a + [f], b, keep);
    FilterConcat(a, [f], keep);
    assert [f][..0] == [];
    assert Filter([f], keep) == Filter([], keep) + (if keep(f) then [f] else []);
  }

  /** In distinct fragments an id names one fragment. */
  ghost predicate IdsApart(fragments: seq<Fragment>) {
    forall f, g | f in fragments && g in fragments && f.id == g.id :: f == g
  }

  lemma DependenciesApart(fragments: seq<Fragment>, application: string, capability: string)
    requires DistinctIds(fragments)
    ensures IdsApart(FragmentsForCapability(fragments, application, capability))
  {
    FilterExact(fragments, f => DependsOn(f, application, capability));
  }

  // ----- attestation_for_capability

  datatype Reason =
    | UI_DEPENDENCY_UNDECLARED
    | UI_FRAGMENT_HEALTHY_WITHOUT_ATTESTATION(id: string)
    | UI_FRAGMENT_DRIFT(id: string)
    | UI_FRAGMENT_RE_ATTESTATION_REQUIRED(id: string)
    | UI_FRAGMENT_STALE(id: string)
    | UI_FRAGMENT_UNATTESTED(id: string)
    | UI_DEPENDENCIES_ATTESTED

  datatype Attestation = Attestation(
    dependencies: seq<string>, attested: bool, drifted: bool, stale: bool, reattestationRequired: bool,
    reasons: seq<Reason>, lifecycleStates: seq<(string, UILifecycleState)>)

  datatype Error = UnknownOverlayFragment

  function Get(m: Overlay, id: string): Option<UILifecycleState> {
    if id in m then Some(m[id]) else None
  }

  /** What the loop decides about one dependency: its lifecycle state, or that HEALTHY is claimed
    for a fragment that is not attested, or nothing. */
  datatype Standing = Lifecycle(state: UILifecycleState) | HealthyUnattested | Unknown

  function StandingOf(f: Fragment, overlay: Overlay): Standing {
    if f.Drifted() then Lifecycle(DRIFTED)
    else if Get(overlay, f.id) == Some(HEALTHY) && !f.EffectivelyAttested() then HealthyUnattested
    else
      match Get(overlay, f.id)
      case Some(state) => Lifecycle(state)
      case None => if f.EffectivelyAttested() then Lifecycle(HEALTHY) else Unknown
  }

  /** The dict `lifecycle` after these dependencies. */
  function LifecycleMap(deps: seq<Fragment>, overlay: Overlay): Overlay {
    if deps == [] then map[]
    else
      var last := deps[|deps| - 1];
      match StandingOf(last, overlay)
      case Lifecycle(state) => LifecycleMap(deps[..|deps| - 1], overlay)[last.id := state]
      case _ => LifecycleMap(deps[..|deps| - 1], overlay)
  }

  function InvalidHealthy(deps: seq<Fragment>, overlay: Overlay): seq<Fragment> {
    Filter(deps, f => StandingOf(f, overlay) == HealthyUnattested)
  }

  function InState(deps: seq<Fragment>, lifecycle: Overlay, state: UILifecycleState): seq<Fragment> {
    Filter(deps, (f: Fragment) => Get(lifecycle, f.id) == Some(state))
  }

  function Unattested(deps: seq<Fragment>): seq<Fragment> {
    Filter(deps, (f: Fragment) => !f.EffectivelyAttested())
  }

  function States(deps: seq<Fragment>, lifecycle: Overlay): seq<(string, UILifecycleState)> {
    if deps == [] then []
    else
      (if deps[0].id in lifecycle then [(deps[0].id, lifecycle[deps[0].id])] else []) + States(deps[1..], lifecycle)
  }

  function Reasons(fragments: seq<Fragment>, reason: string -> Reason): seq<Reason> {
    if fragments == [] then [] else [reason(fragments[0].id)] + Reasons(fragments[1..], reason)
  }

  /** The answer once the dict is filled. */
  function Verdict(deps: seq<Fragment>, invalid: seq<Fragment>, lifecycle: Overlay): Attestation {
    var ids, states := Ids(deps), States(deps, lifecycle);
    if invalid != [] then
      Attestation(ids, false, false, false, false,
        Reasons(invalid, id => UI_FRAGMENT_HEALTHY_WITHOUT_ATTESTATION(id)), states)
    else if InState(deps, lifecycle, DRIFTED) != [] then
      Attestation(ids, false, true, false, false,
        Reasons(InState(deps, lifecycle, DRIFTED), id => UI_FRAGMENT_DRIFT(id)), states)
    else if InState(deps, lifecycle, RE_ATTESTATION_REQUIRED) != [] then
      Attestation(ids, false, false, false, true,
        Reasons(InState(deps, lifecycle, RE_ATTESTATION_REQUIRED), id => UI_FRAGMENT_RE_ATTESTATION_REQUIRED(id)),
        states)
    else if InState(deps, lifecycle, STALE) != [] then
      Attestation(ids, false, false, true, false,
        Reasons(InState(deps, lifecycle, STALE), id => UI_FRAGMENT_STALE(id)), states)
    else if Unattested(deps) != [] then
      Attestation(ids, false, false, false, false, Reasons(Unattested(deps), id => UI_FRAGMENT_UNATTESTED(id)), states)
    else Attestation(ids, true, false, false, false, [UI_DEPENDENCIES_ATTESTED], states)
  }

  predicate Known(overlay: Overlay, fragments: seq<Fragment>) {
    forall id :: id in overlay ==> id in Ids(fragments)
  }

  /** `attestation_for_capability`. An absent overlay is empty. */
  function Attest(cs: ContractSet, application: string, capability: string, overlay: Overlay)
    : Result<Attestation, Error>
  {
    var deps := FragmentsForCapability(cs.fragments, application, capability);
    if deps == [] then Ok(Attestation([], false, false, false, false, [UI_DEPENDENCY_UNDECLARED], []))
    else if !Known(overlay, cs.fragments) then Err(UnknownOverlayFragment)
    else Ok(Verdict(deps, InvalidHealthy(deps, overlay), LifecycleMap(deps, overlay)))
  }

  lemma FrontOf(deps: seq<Fragment>, i: nat)
    requires i < |deps|
    ensures |deps[..i + 1]| == i + 1 && deps[..i + 1][..i] == deps[..i] && deps[..i + 1][i] == deps[i]
  {
  }

  method AttestationForCapability(cs: ContractSet, application: string, capability: string, overlay: Option<Overlay>)
    returns (r: Result<Attestation, Error>)
    ensures r == Attest(cs, application, capability, overlay.GetOr(map[]))
  {
    var deps := FragmentsForCapability(cs.fragments, application, capability);
    if deps == [] {
      return Ok(Attestation([], false, false, false, false, [UI_DEPENDENCY_UNDECLARED], []));
    }
    var normalized := overlay.GetOr(map[]);
    if !Known(normalized, cs.fragments) {
      return Err(UnknownOverlayFragment);
    }
    var lifecycle: Overlay := map[];
    var invalid: seq<Fragment> := [];
    for i := 0 to |deps|
      invariant lifecycle == LifecycleMap(deps[..i], normalized)
      invariant invalid == InvalidHealthy(deps[..i], normalized)
    {
      var f := deps[i];
      FrontOf(deps, i);
      var explicit := Get(normalized, f.id);
      if f.Drifted() {
        lifecycle := lifecycle[f.id := DRIFTED];
      } else if explicit == Some(HEALTHY) && !f.EffectivelyAttested() {
        invalid := invalid + [f];
      } else if explicit.Some? {
        lifecycle := lifecycle[f.id := explicit.value];
      } else if f.EffectivelyAttested() {
        lifecycle := lifecycle[f.id := HEALTHY];
      }
    }
    assert deps[..|deps|] == deps;
    r := Ok(Verdict(deps, invalid, lifecycle));
  }

  // ----- what the attestation means

  /** The dict holds each dependency's own state. */
  lemma {:induction false} LifecycleMapExact(deps: seq<Fragment>, overlay: Overlay, f: Fragment)
    requires IdsApart(deps) && f in deps
    ensures Get(LifecycleMap(deps, overlay), f.id) ==
      match StandingOf(f, overlay) case Lifecycle(state) => Some(state) case _ => None
  {
    var front, last := deps[..|deps| - 1], deps[|deps| - 1];
    assert deps == front + [last];
    assert last in deps && forall g :: g in front ==> g in deps;
    if f in front {
      assert IdsApart(front);
      LifecycleMapExact(front, overlay, f);
    } else {
      LifecycleMapOutside(front, overlay, f.id);
    }
  }

  lemma {:induction false} LifecycleMapOutside(deps: seq<Fragment>, overlay: Overlay, id: string)
    requires forall g :: g in deps ==> g.id != id
    ensures id !in LifecycleMap(deps, overlay)
  {
    if deps != [] {
      var front := deps[..|deps| - 1];
      assert deps == front + [deps[|deps| - 1]];
      LifecycleMapOutside(front, overlay, id);
    }
  }

  ghost predicate SomeStanding(deps: seq<Fragment>, overlay: Overlay, standing: Standing) {
    exists f :: f in deps && StandingOf(f, overlay) == standing
  }

  lemma InvalidHealthyExact(deps: seq<Fragment>, overlay: Overlay)
    ensures InvalidHealthy(deps, overlay) != [] <==> SomeStanding(deps, overlay, HealthyUnattested)
  {
    FilterExact(deps, f => StandingOf(f, overlay) == HealthyUnattested);
  }

  lemma InStateExact(deps: seq<Fragment>, overlay: Overlay, state: UILifecycleState)
    requires IdsApart(deps)
    ensures InState(deps, LifecycleMap(deps, overlay), state) != [] <==> SomeStanding(deps, overlay, Lifecycle(state))
  {
    var lifecycle := LifecycleMap(deps, overlay);
    FilterExact(deps, (f: Fragment) => Get(lifecycle, f.id) == Some(state));
    forall f | f in deps ensures Get(lifecycle, f.id) == Some(state) <==> StandingOf(f, overlay) == Lifecycle(state) {
      LifecycleMapExact(deps, overlay, f);
    }
  }

  // ----- the state of one dependency, in terms of its fields and the overlay

  /** The fragment is attested, and so is each of its selectors. */
  ghost predicate FullyAttested(f: Fragment) {
    f.attested && f.status == ATTESTED && forall name | name in f.selectors :: f.selectors[name] == ATTESTED
  }

  ghost predicate HasDrifted(f: Fragment) {
    f.status == STATUS_DRIFTED || exists name | name in f.selectors :: f.selectors[name] == STATUS_DRIFTED
  }

  ghost predicate Says(overlay: Overlay, f: Fragment, state: UILifecycleState) {
    f.id in overlay && overlay[f.id] == state
  }

  /** The overlay calls a fragment healthy that has not drifted but is not attested either. */
  ghost predicate ClaimedHealthy(f: Fragment, overlay: Overlay) {
    !HasDrifted(f) && !FullyAttested(f) && Says(overlay, f, HEALTHY)
  }

  ghost predicate InDrift(f: Fragment, overlay: Overlay) {
    HasDrifted(f) || Says(overlay, f, DRIFTED)
  }

  ghost predicate NeedsReattestation(f: Fragment, overlay: Overlay) {
    !HasDrifted(f) && Says(overlay, f, RE_ATTESTATION_REQUIRED)
  }

  ghost predicate IsStale(f: Fragment, overlay: Overlay) {
    !HasDrifted(f) && Says(overlay, f, STALE)
  }

  /** A dependency counts as attested and healthy: all of it is attested, and the overlay says
    HEALTHY or nothing of it. */
  ghost predicate Sound(f: Fragment, overlay: Overlay) {
    FullyAttested(f) && (f.id in overlay ==> overlay[f.id] == HEALTHY)
  }

  lemma FieldsExact(f: Fragment)
    ensures f.EffectivelyAttested() <==> FullyAttested(f)
    ensures f.Drifted() <==> HasDrifted(f)
  {
  }

  lemma StandingExact(f: Fragment, overlay: Overlay)
    ensures StandingOf(f, overlay) == HealthyUnattested <==> ClaimedHealthy(f, overlay)
    ensures StandingOf(f, overlay) == Lifecycle(DRIFTED) <==> InDrift(f, overlay)
    ensures StandingOf(f, overlay) == Lifecycle(RE_ATTESTATION_REQUIRED) <==> NeedsReattestation(f, overlay)
    ensures StandingOf(f, overlay) == Lifecycle(STALE) <==> IsStale(f, overlay)
    ensures StandingOf(f, overlay) == Lifecycle(HEALTHY) <==> Sound(f, overlay)
  {
    FieldsExact(f);
  }

  lemma UnattestedExact(deps: seq<Fragment>)
    ensures Unattested(deps) == [] <==> forall f :: f in deps ==> f.EffectivelyAttested()
  {
    FilterExact(deps, (f: Fragment) => !f.EffectivelyAttested());
  }

  lemma AttestedExact(deps: seq<Fragment>, overlay: Overlay)
    requires IdsApart(deps)
    ensures Verdict(deps, InvalidHealthy(deps, overlay), LifecycleMap(deps, overlay)).attested <==>
      forall f :: f in deps ==> Sound(f, overlay)
  {
    InvalidHealthyExact(deps, overlay);
    InStateExact(deps, overlay, DRIFTED);
    InStateExact(deps, overlay, RE_ATTESTATION_REQUIRED);
    InStateExact(deps, overlay, STALE);
    UnattestedExact(deps);
    forall f: Fragment ensures f.EffectivelyAttested() <==> FullyAttested(f) {
      FieldsExact(f);
    }
    forall f | f in deps ensures Sound(f, overlay) <==> StandingOf(f, overlay) == Lifecycle(HEALTHY) {
      StandingExact(f, overlay);
    }
    if forall f :: f in deps ==> Sound(f, overlay) {
      assert forall f :: f in deps ==> StandingOf(f, overlay) == Lifecycle(HEALTHY);
    } else {
      var f :| f in deps && !Sound(f, overlay);
      assert SomeStanding(deps, overlay, StandingOf(f, overlay));
    }
  }

  lemma AttestedIsClean(deps: seq<Fragment>, invalid: seq<Fragment>, lifecycle: Overlay)
    ensures var a := Verdict(deps, invalid, lifecycle);
      a.attested ==> !a.drifted && !a.stale && !a.reattestationRequired
  {
  }

  /** Some dependency is like this. */
  ghost predicate SomeDependency(fragments: seq<Fragment>, application: string, capability: string,
      like: Fragment -> bool)
  {
    exists f :: Requires(fragments, application, capability, f) && like(f)
  }

  lemma SomeStandingExact(fragments: seq<Fragment>, application: string, capability: string, overlay: Overlay,
      standing: Standing, like: Fragment -> bool)
    requires forall f :: StandingOf(f, overlay) == standing <==> like(f)
    ensures SomeStanding(FragmentsForCapability(fragments, application, capability), overlay, standing) <==>
      SomeDependency(fragments, application, capability, like)
  {
    DependenciesExact(fragments, application, capability);
  }

  /** The dependencies by what the overlay makes of them. */
  lemma StandingsExact(fragments: seq<Fragment>, application: string, capability: string, overlay: Overlay)
    ensures var deps := FragmentsForCapability(fragments, application, capability);
      && (SomeStanding(deps, overlay, HealthyUnattested) <==>
        SomeDependency(fragments, application, capability, f => ClaimedHealthy(f, overlay)))
      && (SomeStanding(deps, overlay, Lifecycle(DRIFTED)) <==>
        SomeDependency(fragments, application, capability, f => InDrift(f, overlay)))
      && (SomeStanding(deps, overlay, Lifecycle(RE_ATTESTATION_REQUIRED)) <==>
        SomeDependency(fragments, application, capability, f => NeedsReattestation(f, overlay)))
      && (SomeStanding(deps, overlay, Lifecycle(STALE)) <==>
        SomeDependency(fragments, application, capability, f => IsStale(f, overlay)))
  {
    forall f
      ensures StandingOf(f, overlay) == HealthyUnattested <==> ClaimedHealthy(f, overlay)
      ensures StandingOf(f, overlay) == Lifecycle(DRIFTED) <==> InDrift(f, overlay)
      ensures StandingOf(f, overlay) == Lifecycle(RE_ATTESTATION_REQUIRED) <==> NeedsReattestation(f, overlay)
      ensures StandingOf(f, overlay) == Lifecycle(STALE) <==> IsStale(f, overlay)
    {
      StandingExact(f, overlay);
    }
    SomeStandingExact(fragments, application, capability, overlay, HealthyUnattested,
      f => ClaimedHealthy(f, overlay));
    SomeStandingExact(fragments, application, capability, overlay, Lifecycle(DRIFTED), f => InDrift(f, overlay));
    SomeStandingExact(fragments, application, capability, overlay, Lifecycle(RE_ATTESTATION_REQUIRED),
      f => NeedsReattestation(f, overlay));
    SomeStandingExact(fragments, application, capability, overlay, Lifecycle(STALE), f => IsStale(f, overlay));
  }

  /** The flags of the attestation, for distinct fragment ids and a known overlay. A capability
    without dependencies has none of them. Otherwise it is attested exactly when every dependency
    is sound, and each degraded flag is raised exactly when some dependency is in that state and
    nothing that is checked earlier applies: first HEALTHY claimed without attestation, then
    drift, then re-attestation, then staleness. */
  lemma AttestationExact(cs: ContractSet, application: string, capability: string, overlay: Overlay)
    requires DistinctIds(cs.fragments) && Known(overlay, cs.fragments)
    ensures Attest(cs, application, capability, overlay).Ok?
    ensures var a := Attest(cs, application, capability, overlay).value;
      var claimed := SomeDependency(cs.fragments, application, capability, f => ClaimedHealthy(f, overlay));
      var drifted := SomeDependency(cs.fragments, application, capability, f => InDrift(f, overlay));
      var reattest := SomeDependency(cs.fragments, application, capability, f => NeedsReattestation(f, overlay));
      var stale := SomeDependency(cs.fragments, application, capability, f => IsStale(f, overlay));
      && (a.attested <==>
        && (exists f :: Requires(cs.fragments, application, capability, f))
        && forall f | Requires(cs.fragments, application, capability, f) :: Sound(f, overlay))
      && (a.drifted <==> drifted && !claimed)
      && (a.reattestationRequired <==> reattest && !claimed && !drifted)
      && (a.stale <==> stale && !claimed && !drifted && !reattest)
  {
    var deps := FragmentsForCapability(cs.fragments, application, capability);
    DependenciesExact(cs.fragments, application, capability);
    DependenciesApart(cs.fragments, application, capability);
    AttestedExact(deps, overlay);
    InvalidHealthyExact(deps, overlay);
    InStateExact(deps, overlay, DRIFTED);
    InStateExact(deps, overlay, RE_ATTESTATION_REQUIRED);
    InStateExact(deps, overlay, STALE);
    StandingsExact(cs.fragments, application, capability, overlay);
  }

  /** The attestation is refused exactly when there is a dependency and the overlay names a fragment
    that the set does not have. */
  lemma RefusedExactly(cs: ContractSet, application: string, capability: string, overlay: Overlay)
    ensures Attest(cs, application, capability, overlay).Err? <==>
      && (exists f :: Requires(cs.fragments, application, capability, f))
      && exists id :: id in overlay && forall f | f in cs.fragments :: f.id != id
  {
    DependenciesExact(cs.fragments, application, capability);
    KnownExact(overlay, cs.fragments);
  }

  lemma {:induction false} InIds(fragments: seq<Fragment>, id: string)
    ensures id in Ids(fragments) <==> exists f :: f in fragments && f.id == id
  {
    if fragments != [] {
      InIds(fragments[1..], id);
      assert fragments == [fragments[0]] + fragments[1..];
    }
  }

  lemma KnownExact(overlay: Overlay, fragments: seq<Fragment>)
    ensures Known(overlay, fragments) <==> forall id | id in overlay :: exists f :: f in fragments && f.id == id
  {
    forall id ensures id in Ids(fragments) <==> exists f :: f in fragments && f.id == id {
      InIds(fragments, id);
    }
  }

  // ----- reasons and states

  lemma {:induction false} ReasonsExact(fragments: seq<Fragment>, reason: string -> Reason, x: Reason)
    ensures x in Reasons(fragments, reason) <==> exists f :: f in fragments && x == reason(f.id)
  {
    if fragments != [] {
      ReasonsExact(fragments[1..], reason, x);
      assert fragments == [fragments[0]] + fragments[1..];
    }
  }

  lemma FilteredReasons(deps: seq<Fragment>, keep: Fragment -> bool, reason: string -> Reason, x: Reason)
    ensures x in Reasons(Filter(deps, keep), reason) <==> exists f :: f in deps && keep(f) && x == reason(f.id)
  {
    FilterExact(deps, keep);
    ReasonsExact(Filter(deps, keep), reason, x);
  }

  ghost predicate NamedStanding(deps: seq<Fragment>, overlay: Overlay, standing: Standing, id: string) {
    exists f :: f in deps && f.id == id && StandingOf(f, overlay) == standing
  }

  lemma InvalidReasons(deps: seq<Fragment>, overlay: Overlay, reason: string -> Reason, x: Reason, id: string)
    requires forall k :: x == reason(k) <==> k == id
    ensures x in Reasons(InvalidHealthy(deps, overlay), reason) <==>
      NamedStanding(deps, overlay, HealthyUnattested, id)
  {
    FilteredReasons(deps, f => StandingOf(f, overlay) == HealthyUnattested, reason, x);
  }

  lemma StateReasons(deps: seq<Fragment>, overlay: Overlay, state: UILifecycleState, reason: string -> Reason,
      x: Reason, id: string)
    requires IdsApart(deps) && forall k :: x == reason(k) <==> k == id
    ensures x in Reasons(InState(deps, LifecycleMap(deps, overlay), state), reason) <==>
      NamedStanding(deps, overlay, Lifecycle(state), id)
  {
    var lifecycle := LifecycleMap(deps, overlay);
    FilteredReasons(deps, (f: Fragment) => Get(lifecycle, f.id) == Some(state), reason, x);
    forall f | f in deps ensures Get(lifecycle, f.id) == Some(state) <==> StandingOf(f, overlay) == Lifecycle(state) {
      LifecycleMapExact(deps, overlay, f);
    }
  }

  lemma OtherReasons(fragments: seq<Fragment>, reason: string -> Reason, x: Reason)
    requires forall k :: x != reason(k)
    ensures x !in Reasons(fragments, reason)
  {
    ReasonsExact(fragments, reason, x);
  }

  /** What the verdict gives as its reasons, in terms of the standings. */
  ghost predicate ReasonHolds(deps: seq<Fragment>, overlay: Overlay, x: Reason) {
    var claimed := SomeStanding(deps, overlay, HealthyUnattested);
    var drifted := SomeStanding(deps, overlay, Lifecycle(DRIFTED));
    var reattest := SomeStanding(deps, overlay, Lifecycle(RE_ATTESTATION_REQUIRED));
    var stale := SomeStanding(deps, overlay, Lifecycle(STALE));
    match x
    case UI_DEPENDENCY_UNDECLARED => false
    case UI_FRAGMENT_HEALTHY_WITHOUT_ATTESTATION(id) => NamedStanding(deps, overlay, HealthyUnattested, id)
    case UI_FRAGMENT_DRIFT(id) => !claimed && NamedStanding(deps, overlay, Lifecycle(DRIFTED), id)
    case UI_FRAGMENT_RE_ATTESTATION_REQUIRED(id) =>
      !claimed && !drifted && NamedStanding(deps, overlay, Lifecycle(RE_ATTESTATION_REQUIRED), id)
    case UI_FRAGMENT_STALE(id) =>
      !claimed && !drifted && !reattest && NamedStanding(deps, overlay, Lifecycle(STALE), id)
    case UI_FRAGMENT_UNATTESTED(id) =>
      && !claimed && !drifted && !reattest && !stale
      && exists f :: f in deps && f.id == id && !f.EffectivelyAttested()
    case UI_DEPENDENCIES_ATTESTED =>
      !claimed && !drifted && !reattest && !stale && forall f :: f in deps ==> f.EffectivelyAttested()
  }

  lemma ClaimReasons(deps: seq<Fragment>, overlay: Overlay, x: Reason)
    requires InvalidHealthy(deps, overlay) != []
    ensures x in Verdict(deps, InvalidHealthy(deps, overlay), LifecycleMap(deps, overlay)).reasons <==>
      ReasonHolds(deps, overlay, x)
  {
    InvalidHealthyExact(deps, overlay);
    var reason: string -> Reason := id => UI_FRAGMENT_HEALTHY_WITHOUT_ATTESTATION(id);
    if x.UI_FRAGMENT_HEALTHY_WITHOUT_ATTESTATION? {
      InvalidReasons(deps, overlay, reason, x, x.id);
    } else {
      OtherReasons(InvalidHealthy(deps, overlay), reason, x);
    }
  }

  lemma DriftReasons(deps: seq<Fragment>, overlay: Overlay, x: Reason)
    requires IdsApart(deps)
    requires SomeStanding(deps, overlay, Lifecycle(DRIFTED)) && !SomeStanding(deps, overlay, HealthyUnattested)
    ensures x in Verdict(deps, InvalidHealthy(deps, overlay), LifecycleMap(deps, overlay)).reasons <==>
      ReasonHolds(deps, overlay, x)
  {
    InvalidHealthyExact(deps, overlay);
    InStateExact(deps, overlay, DRIFTED);
    var reason: string -> Reason := id => UI_FRAGMENT_DRIFT(id);
    if x.UI_FRAGMENT_DRIFT? {
      StateReasons(deps, overlay, DRIFTED, reason, x, x.id);
    } else {
      OtherReasons(InState(deps, LifecycleMap(deps, overlay), DRIFTED), reason, x);
    }
  }

  lemma ReattestReasons(deps: seq<Fragment>, overlay: Overlay, x: Reason)
    requires IdsApart(deps) && SomeStanding(deps, overlay, Lifecycle(RE_ATTESTATION_REQUIRED))
    requires !SomeStanding(deps, overlay, HealthyUnattested) && !SomeStanding(deps, overlay, Lifecycle(DRIFTED))
    ensures x in Verdict(deps, InvalidHealthy(deps, overlay), LifecycleMap(deps, overlay)).reasons <==>
      ReasonHolds(deps, overlay, x)
  {
    InvalidHealthyExact(deps, overlay);
    InStateExact(deps, overlay, DRIFTED);
    InStateExact(deps, overlay, RE_ATTESTATION_REQUIRED);
    var reason: string -> Reason := id => UI_FRAGMENT_RE_ATTESTATION_REQUIRED(id);
    if x.UI_FRAGMENT_RE_ATTESTATION_REQUIRED? {
      StateReasons(deps, overlay, RE_ATTESTATION_REQUIRED, reason, x, x.id);
    } else {
      OtherReasons(InState(deps, LifecycleMap(deps, overlay), RE_ATTESTATION_REQUIRED), reason, x);
    }
  }

  lemma StaleReasons(deps: seq<Fragment>, overlay: Overlay, x: Reason)
    requires IdsApart(deps) && SomeStanding(deps, overlay, Lifecycle(STALE))
    requires !SomeStanding(deps, overlay, HealthyUnattested) && !SomeStanding(deps, overlay, Lifecycle(DRIFTED))
    requires !SomeStanding(deps, overlay, Lifecycle(RE_ATTESTATION_REQUIRED))
    ensures x in Verdict(deps, InvalidHealthy(deps, overlay), LifecycleMap(deps, overlay)).reasons <==>
      ReasonHolds(deps, overlay, x)
  {
    InvalidHealthyExact(deps, overlay);
    InStateExact(deps, overlay, DRIFTED);
    InStateExact(deps, overlay, RE_ATTESTATION_REQUIRED);
    InStateExact(deps, overlay, STALE);
    var reason: string -> Reason := id => UI_FRAGMENT_STALE(id);
    if x.UI_FRAGMENT_STALE? {
      StateReasons(deps, overlay, STALE, reason, x, x.id);
    } else {
      OtherReasons(InState(deps, LifecycleMap(deps, overlay), STALE), reason, x);
    }
  }

  lemma UnattestedReasons(deps: seq<Fragment>, overlay: Overlay, x: Reason)
    requires IdsApart(deps)
    requires !SomeStanding(deps, overlay, HealthyUnattested) && !SomeStanding(deps, overlay, Lifecycle(DRIFTED))
    requires !SomeStanding(deps, overlay, Lifecycle(RE_ATTESTATION_REQUIRED))
    requires !SomeStanding(deps, overlay, Lifecycle(STALE))
    ensures x in Verdict(deps, InvalidHealthy(deps, overlay), LifecycleMap(deps, overlay)).reasons <==>
      ReasonHolds(deps, overlay, x)
  {
    InvalidHealthyExact(deps, overlay);
    InStateExact(deps, overlay, DRIFTED);
    InStateExact(deps, overlay, RE_ATTESTATION_REQUIRED);
    InStateExact(deps, overlay, STALE);
    UnattestedExact(deps);
    FilteredReasons(deps, (f: Fragment) => !f.EffectivelyAttested(), id => UI_FRAGMENT_UNATTESTED(id), x);
  }

  lemma VerdictReasons(deps: seq<Fragment>, overlay: Overlay, x: Reason)
    requires IdsApart(deps)
    ensures x in Verdict(deps, InvalidHealthy(deps, overlay), LifecycleMap(deps, overlay)).reasons <==>
      ReasonHolds(deps, overlay, x)
  {
    if SomeStanding(deps, overlay, HealthyUnattested) {
      InvalidHealthyExact(deps, overlay);
      ClaimReasons(deps, overlay, x);
    } else if SomeStanding(deps, overlay, Lifecycle(DRIFTED)) {
      DriftReasons(deps, overlay, x);
    } else if SomeStanding(deps, overlay, Lifecycle(RE_ATTESTATION_REQUIRED)) {
      ReattestReasons(deps, overlay, x);
    } else if SomeStanding(deps, overlay, Lifecycle(STALE)) {
      StaleReasons(deps, overlay, x);
    } else {
      UnattestedReasons(deps, overlay, x);
    }
  }

  /** Some dependency with this id is like this. */
  ghost predicate NamedDependency(fragments: seq<Fragment>, application: string, capability: string, id: string,
      like: Fragment -> bool)
  {
    exists f :: Requires(fragments, application, capability, f) && f.id == id && like(f)
  }

  lemma NamedExact(fragments: seq<Fragment>, application: string, capability: string, overlay: Overlay,
      standing: Standing, id: string, like: Fragment -> bool)
    requires forall f :: StandingOf(f, overlay) == standing <==> like(f)
    ensures NamedStanding(FragmentsForCapability(fragments, application, capability), overlay, standing, id) <==>
      NamedDependency(fragments, application, capability, id, like)
  {
    DependenciesExact(fragments, application, capability);
  }

  lemma NamedStandingsExact(fragments: seq<Fragment>, application: string, capability: string, overlay: Overlay,
      id: string)
    ensures var deps := FragmentsForCapability(fragments, application, capability);
      && (NamedStanding(deps, overlay, HealthyUnattested, id) <==>
        NamedDependency(fragments, application, capability, id, f => ClaimedHealthy(f, overlay)))
      && (NamedStanding(deps, overlay, Lifecycle(DRIFTED), id) <==>
        NamedDependency(fragments, application, capability, id, f => InDrift(f, overlay)))
      && (NamedStanding(deps, overlay, Lifecycle(RE_ATTESTATION_REQUIRED), id) <==>
        NamedDependency(fragments, application, capability, id, f => NeedsReattestation(f, overlay)))
      && (NamedStanding(deps, overlay, Lifecycle(STALE), id) <==>
        NamedDependency(fragments, application, capability, id, f => IsStale(f, overlay)))
  {
    forall f
      ensures StandingOf(f, overlay) == HealthyUnattested <==> ClaimedHealthy(f, overlay)
      ensures StandingOf(f, overlay) == Lifecycle(DRIFTED) <==> InDrift(f, overlay)
      ensures StandingOf(f, overlay) == Lifecycle(RE_ATTESTATION_REQUIRED) <==> NeedsReattestation(f, overlay)
      ensures StandingOf(f, overlay) == Lifecycle(STALE) <==> IsStale(f, overlay)
    {
      StandingExact(f, overlay);
    }
    NamedExact(fragments, application, capability, overlay, HealthyUnattested, id, f => ClaimedHealthy(f, overlay));
    NamedExact(fragments, application, capability, overlay, Lifecycle(DRIFTED), id, f => InDrift(f, overlay));
    NamedExact(fragments, application, capability, overlay, Lifecycle(RE_ATTESTATION_REQUIRED), id,
      f => NeedsReattestation(f, overlay));
    NamedExact(fragments, application, capability, overlay, Lifecycle(STALE), id, f => IsStale(f, overlay));
  }

  /** The reasons name exactly the dependencies to blame: all that are falsely claimed healthy; if there
    are none, all that have drifted; then those to be attested again; then the stale ones; then those
    that are not attested. */
  lemma ReasonsNameTheGuilty(cs: ContractSet, application: string, capability: string, overlay: Overlay, x: Reason)
    requires DistinctIds(cs.fragments) && Known(overlay, cs.fragments)
    requires Attest(cs, application, capability, overlay).Ok?
    ensures var claimed := SomeDependency(cs.fragments, application, capability, f => ClaimedHealthy(f, overlay));
      var drifted := SomeDependency(cs.fragments, application, capability, f => InDrift(f, overlay));
      var reattest := SomeDependency(cs.fragments, application, capability, f => NeedsReattestation(f, overlay));
      var stale := SomeDependency(cs.fragments, application, capability, f => IsStale(f, overlay));
      x in Attest(cs, application, capability, overlay).value.reasons <==>
        match x
        case UI_DEPENDENCY_UNDECLARED => !SomeDependency(cs.fragments, application, capability, f => true)
        case UI_FRAGMENT_HEALTHY_WITHOUT_ATTESTATION(id) =>
          NamedDependency(cs.fragments, application, capability, id, f => ClaimedHealthy(f, overlay))
        case UI_FRAGMENT_DRIFT(id) =>
          !claimed && NamedDependency(cs.fragments, application, capability, id, f => InDrift(f, overlay))
        case UI_FRAGMENT_RE_ATTESTATION_REQUIRED(id) =>
          && !claimed && !drifted
          && NamedDependency(cs.fragments, application, capability, id, f => NeedsReattestation(f, overlay))
        case UI_FRAGMENT_STALE(id) =>
          && !claimed && !drifted && !reattest
          && NamedDependency(cs.fragments, application, capability, id, f => IsStale(f, overlay))
        case UI_FRAGMENT_UNATTESTED(id) =>
          && !claimed && !drifted && !reattest && !stale
          && NamedDependency(cs.fragments, application, capability, id, f => !FullyAttested(f))
        case UI_DEPENDENCIES_ATTESTED => Attest(cs, application, capability, overlay).value.attested
  {
    var deps := FragmentsForCapability(cs.fragments, application, capability);
    DependenciesExact(cs.fragments, application, capability);
    if deps != [] {
      DependenciesApart(cs.fragments, application, capability);
      VerdictReasons(deps, overlay, x);
      StandingsExact(cs.fragments, application, capability, overlay);
      if x.UI_DEPENDENCIES_ATTESTED? {
        AttestedReason(deps, overlay);
      } else if !x.UI_DEPENDENCY_UNDECLARED? {
        NamedStandingsExact(cs.fragments, application, capability, overlay, x.id);
        forall f: Fragment ensures f.EffectivelyAttested() <==> FullyAttested(f) {
          FieldsExact(f);
        }
      }
    }
  }

  lemma AttestedReason(deps: seq<Fragment>, overlay: Overlay)
    requires IdsApart(deps)
    ensures Verdict(deps, InvalidHealthy(deps, overlay), LifecycleMap(deps, overlay)).attested <==>
      UI_DEPENDENCIES_ATTESTED in Verdict(deps, InvalidHealthy(deps, overlay), LifecycleMap(deps, overlay)).reasons
  {
    VerdictReasons(deps, overlay, UI_DEPENDENCIES_ATTESTED);
    InvalidHealthyExact(deps, overlay);
    InStateExact(deps, overlay, DRIFTED);
    InStateExact(deps, overlay, RE_ATTESTATION_REQUIRED);
    InStateExact(deps, overlay, STALE);
    UnattestedExact(deps);
  }

  lemma {:induction false} StatesExact(deps: seq<Fragment>, lifecycle: Overlay, id: string, state: UILifecycleState)
    ensures (id, state) in States(deps, lifecycle) <==>
      Get(lifecycle, id) == Some(state) && exists f :: f in deps && f.id == id
  {
    if deps != [] {
      StatesExact(deps[1..], lifecycle, id, state);
      assert deps == [deps[0]] + deps[1..];
    }
  }

  /** The state that the attestation lists for a dependency. */
  ghost predicate ListedAs(f: Fragment, overlay: Overlay, state: UILifecycleState) {
    match state
    case HEALTHY => Sound(f, overlay)
    case STALE => IsStale(f, overlay)
    case DRIFTED => InDrift(f, overlay)
    case RE_ATTESTATION_REQUIRED => NeedsReattestation(f, overlay)
  }

  lemma {:induction false} IdsAt(fragments: seq<Fragment>)
    ensures |Ids(fragments)| == |fragments| && forall i | 0 <= i < |fragments| :: Ids(fragments)[i] == fragments[i].id
  {
    if fragments != [] {
      IdsAt(fragments[1..]);
    }
  }

  lemma StatesListed(deps: seq<Fragment>, overlay: Overlay, id: string, state: UILifecycleState)
    requires IdsApart(deps)
    ensures (id, state) in States(deps, LifecycleMap(deps, overlay)) <==>
      exists f :: f in deps && f.id == id && ListedAs(f, overlay, state)
  {
    StatesExact(deps, LifecycleMap(deps, overlay), id, state);
    forall f | f in deps && f.id == id
      ensures Get(LifecycleMap(deps, overlay), id) == Some(state) <==> ListedAs(f, overlay, state)
    {
      LifecycleMapExact(deps, overlay, f);
      StandingExact(f, overlay);
    }
  }

  /** The attestation lists the ids of the dependencies in their order. */
  lemma DependenciesListed(cs: ContractSet, application: string, capability: string, overlay: Overlay)
    requires Attest(cs, application, capability, overlay).Ok?
    ensures var ids := Attest(cs, application, capability, overlay).value.dependencies;
      var deps := FragmentsForCapability(cs.fragments, application, capability);
      |ids| == |deps| && forall i | 0 <= i < |deps| :: ids[i] == deps[i].id
  {
    IdsAt(FragmentsForCapability(cs.fragments, application, capability));
  }

  /** It lists exactly the states of the dependencies that have one. */
  lemma LifecycleStatesExact(cs: ContractSet, application: string, capability: string, overlay: Overlay, id: string,
      state: UILifecycleState)
    requires DistinctIds(cs.fragments) && Known(overlay, cs.fragments)
    requires Attest(cs, application, capability, overlay).Ok?
    ensures (id, state) in Attest(cs, application, capability, overlay).value.lifecycleStates <==>
      exists f :: Requires(cs.fragments, application, capability, f) && f.id == id && ListedAs(f, overlay, state)
  {
    DependenciesExact(cs.fragments, application, capability);
    DependenciesApart(cs.fragments, application, capability);
    StatesListed(FragmentsForCapability(cs.fragments, application, capability), overlay, id, state);
  }

  // ----- unrelated fragments

  lemma StandingLocal(f: Fragment, a: Overlay, b: Overlay)
    requires Get(a, f.id) == Get(b, f.id)
    ensures StandingOf(f, a) == StandingOf(f, b)
  {
  }

  lemma {:induction false} LifecycleMapLocal(deps: seq<Fragment>, a: Overlay, b: Overlay)
    requires forall f :: f in deps ==> Get(a, f.id) == Get(b, f.id)
    ensures LifecycleMap(deps, a) == LifecycleMap(deps, b)
  {
    if deps != [] {
      var front, last := deps[..|deps| - 1], deps[|deps| - 1];
      assert deps == front + [last] && last in deps;
      StandingLocal(last, a, b);
      LifecycleMapLocal(front, a, b);
    }
  }

  lemma {:induction false} FilterLocal(deps: seq<Fragment>, p: Fragment -> bool, q: Fragment -> bool)
    requires forall f :: f in deps ==> p(f) == q(f)
    ensures Filter(deps, p) == Filter(deps, q)
  {
    if deps != [] {
      var front, last := deps[..|deps| - 1], deps[|deps| - 1];
      assert deps == front + [last] && last in deps;
      FilterLocal(front, p, q);
    }
  }

  lemma SameDependenciesSameAnswer(cs: ContractSet, ds: ContractSet, application: string, capability: string,
      a: Overlay, b: Overlay)
    requires Known(a, cs.fragments) && Known(b, ds.fragments)
    requires FragmentsForCapability(cs.fragments, application, capability)
          == FragmentsForCapability(ds.fragments, application, capability)
    requires forall f :: Requires(cs.fragments, application, capability, f) ==> Get(a, f.id) == Get(b, f.id)
    ensures Attest(cs, application, capability, a) == Attest(ds, application, capability, b)
  {
    var deps := FragmentsForCapability(cs.fragments, application, capability);
    DependenciesExact(cs.fragments, application, capability);
    LifecycleMapLocal(deps, a, b);
    forall f | f in deps ensures StandingOf(f, a) == StandingOf(f, b) {
      StandingLocal(f, a, b);
    }
    FilterLocal(deps, f => StandingOf(f, a) == HealthyUnattested, f => StandingOf(f, b) == HealthyUnattested);
  }

  /** Fragments of other applications, or without the capability among their keys. */
  ghost predicate Unrelated(fragments: seq<Fragment>, application: string, capability: string) {
    forall f :: !Requires(fragments, application, capability, f)
  }

  /** Adding, changing or removing fragments that do not list the capability leaves the attestation as it
    was, whatever known overlays say of them. */
  lemma UnrelatedFragmentsIrrelevant(cs: ContractSet, ds: ContractSet, before: seq<Fragment>, dropped: seq<Fragment>,
      added: seq<Fragment>, after: seq<Fragment>, application: string, capability: string, a: Overlay, b: Overlay)
    requires cs.fragments == before + dropped + after && ds.fragments == before + added + after
    requires Unrelated(dropped, application, capability) && Unrelated(added, application, capability)
    requires Known(a, cs.fragments) && Known(b, ds.fragments)
    requires forall f :: Requires(cs.fragments, application, capability, f) ==> Get(a, f.id) == Get(b, f.id)
    ensures Attest(cs, application, capability, a) == Attest(ds, application, capability, b)
  {
    var keep := f => DependsOn(f, application, capability);
    FilterConcat(before + dropped, after, keep);
    FilterConcat(before, dropped, keep);
    FilterConcat(before + added, after, keep);
    FilterConcat(before, added, keep);
    DependenciesExact(dropped, application, capability);
    DependenciesExact(added, application, capability);
    SameDependenciesSameAnswer(cs, ds, application, capability, a, b);
  }
}
