/** Checkpoint chains of one saga node (src/m365_mcp/execution_lifecycle.py) and the resume plan
  read off them (src/m365_mcp/xapp_checkpoint_resume.py).

  The formats of digests are not checked here. */
module Lifecycle {
  import opened Digests
  import opened Ordering
  import opened Results
  import opened Tokens
  import opened TypedLocks

  datatype LifecycleState = PLANNED | ACTIVE | CHECKPOINTED | COMPLETED | FAILED | INDETERMINATE

  predicate Terminal(s: LifecycleState) {
    s.COMPLETED? || s.FAILED? || s.INDETERMINATE?
  }

  predicate Allowed(from: LifecycleState, to: LifecycleState) {
    match from
    case PLANNED => to.ACTIVE? || to.FAILED?
    case ACTIVE => to.CHECKPOINTED? || Terminal(to)
    case CHECKPOINTED => to.ACTIVE? || to.CHECKPOINTED? || Terminal(to)
    case _ => false
  }

  datatype Checkpoint = Checkpoint(
    saga: string, index: int, nodeId: string, application: ApplicationKey, state: LifecycleState,
    idempotencyKey: string, lockKeys: seq<string>, stateIdentity: Option<string>,
    result: Option<string>, uncertainty: Option<string>)
  {
    /** The rules of the constructor. */
    ghost predicate Valid() {
      && index >= 0
      && Token(Strip(nodeId))
      && Distinct(lockKeys)
      && (state.COMPLETED? <==> result.Some?)
      && (state.INDETERMINATE? <==> uncertainty.Some?)
      && (uncertainty.Some? ==> Token(Strip(uncertainty.value)))
    }

    predicate SameBinding(c: Checkpoint) {
      && saga == c.saga && nodeId == c.nodeId && application == c.application
      && idempotencyKey == c.idempotencyKey && lockKeys == c.lockKeys && stateIdentity == c.stateIdentity
    }
  }

  datatype Error =
    | ForeignIdentity | ForeignLock | Malformed
    | InvalidTransition
    | EmptyChain | BadStart | BadIndex | BindingChanged | TerminalSuccessor

  // ----- start_checkpoint

  function LockKeyOf(hash: Digest): TypedLock -> string {
    (l: TypedLock) => LockKey(hash, l)
  }

  /** The keys of the canonical order. */
  function OrderedKeys(hash: Digest, locks: seq<TypedLock>): seq<string> {
    KeyList(LockKeyOf(hash), CanonicalOrder(hash, locks))
  }

  predicate Foreign(l: TypedLock, application: ApplicationKey) {
    l.application.Some? && l.application.value != application
  }

  function First(saga: string, nodeId: string, application: ApplicationKey, idempotencyKey: string,
      lockKeys: seq<string>, identity: Option<StateIdentity>): Checkpoint
  {
    Checkpoint(saga, 0, nodeId, application, PLANNED, idempotencyKey, lockKeys,
      match identity case None => None case Some(i) => Some(i.identityDigest), None, None)
  }

  ghost predicate AnyForeign(locks: seq<TypedLock>, application: ApplicationKey) {
    exists l :: l in locks && Foreign(l, application)
  }

  /** The checks of `start_checkpoint`, once the lock keys are in order. */
  ghost function StartWith(sagaDigest: string, saga: string, nodeId: string, application: ApplicationKey,
      idempotencyKey: string, foreignLock: bool, lockKeys: seq<string>, identity: Option<StateIdentity>)
    : Result<Checkpoint, Error>
  {
    if identity.Some? && identity.value.application != application then Err(ForeignIdentity)
    else if foreignLock then Err(ForeignLock)
    else if Strip(saga) == "" || !Token(Strip(nodeId)) then Err(Malformed)
    else
      var c := First(sagaDigest, Strip(nodeId), application, idempotencyKey, lockKeys, identity);
      if c.Valid() then Ok(c) else Err(Malformed)
  }

  ghost function StartCheckpoint(hash: Digest, saga: string, nodeId: string, application: ApplicationKey,
      idempotencyKey: string, locks: seq<TypedLock>, identity: Option<StateIdentity>)
    : Result<Checkpoint, Error>
  {
    StartWith(hash(Strip(saga)), saga, nodeId, application, idempotencyKey, AnyForeign(locks, application),
      OrderedKeys(hash, locks), identity)
  }

  lemma KeptLocksApart(hash: Digest, locks: seq<TypedLock>)
    ensures InjectiveOn(LockKeyOf(hash), ByKey(hash, locks).Values)
  {
    ByKeyExact(hash, locks);
  }

  /** The dict of `canonical_lock_order` keeps one lock for each key. */
  lemma OrderedKeysExact(hash: Digest, locks: seq<TypedLock>)
    ensures Distinct(OrderedKeys(hash, locks))
    ensures Elements(OrderedKeys(hash, locks)) == LockKeys(hash, Elements(locks))
  {
    ByKeyOrderable(hash, locks);
    CanonicalOrderExact(hash, locks);
    KeptLocksApart(hash, locks);
    DistinctKeyList(LockKeyOf(hash), CanonicalOrder(hash, locks));
    KeyListElements(LockKeyOf(hash), CanonicalOrder(hash, locks));
    KeysAreLockKeys(hash, Elements(CanonicalOrder(hash, locks)));
  }

  lemma KeysAreLockKeys(hash: Digest, locks: set<TypedLock>)
    ensures Keys(LockKeyOf(hash), locks) == LockKeys(hash, locks)
  {
  }

  lemma FirstValid(saga: string, nodeId: string, application: ApplicationKey, idempotencyKey: string,
      lockKeys: seq<string>, identity: Option<StateIdentity>)
    requires Token(Strip(nodeId)) && Distinct(lockKeys)
    ensures var c := First(saga, Strip(nodeId), application, idempotencyKey, lockKeys, identity);
      c.Valid() && Accepted([c])
  {
    TokenStrip(Strip(nodeId));
    var c := First(saga, Strip(nodeId), application, idempotencyKey, lockKeys, identity);
    assert FaultAt([c], 0).None?;
    assert FaultFrom([c], 1).None?;
  }

  lemma StartWithExact(sagaDigest: string, saga: string, nodeId: string, application: ApplicationKey,
      idempotencyKey: string, foreignLock: bool, lockKeys: seq<string>, identity: Option<StateIdentity>)
    requires Distinct(lockKeys)
    ensures var r := StartWith(sagaDigest, saga, nodeId, application, idempotencyKey, foreignLock, lockKeys, identity);
      var foreignIdentity := identity.Some? && identity.value.application != application;
      && (r == Err(ForeignIdentity) <==> foreignIdentity)
      && (r == Err(ForeignLock) <==> !foreignIdentity && foreignLock)
      && (r.Ok? <==> !foreignIdentity && !foreignLock && Strip(saga) != "" && Token(Strip(nodeId)))
      && (r.Ok? ==> r.value.Valid() && Accepted([r.value]) && r.value.lockKeys == lockKeys)
  {
    if Token(Strip(nodeId)) {
      FirstValid(sagaDigest, nodeId, application, idempotencyKey, lockKeys, identity);
    }
  }

  /** A start is refused only for a foreign identity or lock, an empty saga or a malformed node
    id: locks given twice are no fault. What it returns begins a chain. */
  lemma StartExact(hash: Digest, saga: string, nodeId: string, application: ApplicationKey, idempotencyKey: string,
      locks: seq<TypedLock>, identity: Option<StateIdentity>)
    ensures var r := StartCheckpoint(hash, saga, nodeId, application, idempotencyKey, locks, identity);
      var foreignIdentity := identity.Some? && identity.value.application != application;
      var foreignLock := exists l :: l in locks && l.application.Some? && l.application.value != application;
      && (r == Err(ForeignIdentity) <==> foreignIdentity)
      && (r == Err(ForeignLock) <==> !foreignIdentity && foreignLock)
      && (r.Ok? <==> !foreignIdentity && !foreignLock && Strip(saga) != "" && Token(Strip(nodeId)))
      && (r.Ok? ==> r.value.Valid() && Accepted([r.value]))
  {
    assert AnyForeign(locks, application) <==>
      exists l :: l in locks && l.application.Some? && l.application.value != application;
    OrderedKeysExact(hash, locks);
    StartWithExact(hash(Strip(saga)), saga, nodeId, application, idempotencyKey, AnyForeign(locks, application),
      OrderedKeys(hash, locks), identity);
  }

  /** A started checkpoint holds exactly the keys of the locks, each once and in the canonical order of
    the locks, and names its saga, node, application and identity. */
  lemma StartHolds(hash: Digest, saga: string, nodeId: string, application: ApplicationKey,
      idempotencyKey: string, locks: seq<TypedLock>, identity: Option<StateIdentity>)
    ensures var r := StartCheckpoint(hash, saga, nodeId, application, idempotencyKey, locks, identity);
      r.Ok? ==>
        && Elements(r.value.lockKeys) == LockKeys(hash, Elements(locks)) && Distinct(r.value.lockKeys)
        && |r.value.lockKeys| == |CanonicalOrder(hash, locks)|
        && (forall i | 0 <= i < |r.value.lockKeys| ::
             r.value.lockKeys[i] == LockKey(hash, CanonicalOrder(hash, locks)[i]))
        && r.value.saga == hash(Strip(saga)) && r.value.nodeId == Strip(nodeId)
        && r.value.application == application && r.value.idempotencyKey == idempotencyKey
        && (r.value.stateIdentity == if identity.None? then None else Some(identity.value.identityDigest))
        && r.value.index == 0 && r.value.state == PLANNED && r.value.result.None? && r.value.uncertainty.None?
  {
    OrderedKeysExact(hash, locks);
  }

  /** The order in which the locks are given does not matter. */
  lemma StartOrderIrrelevant(hash: Digest, saga: string, nodeId: string,
      application: ApplicationKey, idempotencyKey: string, a: seq<TypedLock>, b: seq<TypedLock>,
      identity: Option<StateIdentity>)
    requires CollisionFree(hash) && Elements(a) == Elements(b)
    ensures StartCheckpoint(hash, saga, nodeId, application, idempotencyKey, a, identity)
         == StartCheckpoint(hash, saga, nodeId, application, idempotencyKey, b, identity)
  {
    CanonicalOrderStable(hash, a, b);
    ForeignInSet(a, b, application);
  }

  lemma ForeignInSet(a: seq<TypedLock>, b: seq<TypedLock>, application: ApplicationKey)
    requires Elements(a) == Elements(b)
    ensures AnyForeign(a, application) <==> AnyForeign(b, application)
  {
    assert forall l :: l in a <==> l in Elements(a);
    assert forall l :: l in b <==> l in Elements(b);
  }

  // ----- transition_checkpoint

  datatype Move = Move(to: LifecycleState, result: Option<string>, uncertainty: Option<string>)

  ghost function TransitionCheckpoint(c: Checkpoint, m: Move): Result<Checkpoint, Error> {
    if !Allowed(c.state, m.to) then Err(InvalidTransition)
    else
      var next := c.(index := c.index + 1, state := m.to, result := m.result, uncertainty := m.uncertainty);
      if next.Valid() then Ok(next) else Err(Malformed)
  }

  // ----- validate_checkpoint_chain

  /** The fault that the loop reports at position i. */
  function FaultAt(cs: seq<Checkpoint>, i: nat): Option<Error>
    requires i < |cs|
  {
    if cs[i].index != i then Some(BadIndex)
    else if !cs[i].SameBinding(cs[0]) then Some(BindingChanged)
    else if i == 0 then None
    else if !Allowed(cs[i - 1].state, cs[i].state) then Some(InvalidTransition)
    else if Terminal(cs[i - 1].state) then Some(TerminalSuccessor)
    else None
  }

  /** The first fault from position i on. */
  function FaultFrom(cs: seq<Checkpoint>, i: nat): Option<Error>
    requires i <= |cs|
    decreases |cs| - i
  {
    if i == |cs| then None
    else if FaultAt(cs, i).Some? then FaultAt(cs, i)
    else FaultFrom(cs, i + 1)
  }

  function Fault(cs: seq<Checkpoint>): Option<Error> {
    if cs == [] then Some(EmptyChain)
    else if cs[0].index != 0 || cs[0].state != PLANNED then Some(BadStart)
    else FaultFrom(cs, 0)
  }

  predicate Accepted(cs: seq<Checkpoint>) {
    Fault(cs).None?
  }

  method ValidateCheckpointChain(cs: seq<Checkpoint>) returns (fault: Option<Error>)
    ensures fault == Fault(cs)
  {
    if cs == [] {
      return Some(EmptyChain);
    }
    var first := cs[0];
    if first.index != 0 || first.state != PLANNED {
      return Some(BadStart);
    }
    for expectedIndex := 0 to |cs|
      invariant FaultFrom(cs, 0) == FaultFrom(cs, expectedIndex)
    {
      var c := cs[expectedIndex];
      if c.index != expectedIndex {
        return Some(BadIndex);
      }
      if !c.SameBinding(first) {
        return Some(BindingChanged);
      }
      if expectedIndex > 0 {
        var previous := cs[expectedIndex - 1];
        if !Allowed(previous.state, c.state) {
          return Some(InvalidTransition);
        }
        if Terminal(previous.state) {
          return Some(TerminalSuccessor);
        }
      }
    }
    fault := None;
  }

  lemma {:induction false} FaultFromExact(cs: seq<Checkpoint>, i: nat)
    requires i <= |cs|
    ensures FaultFrom(cs, i).None? <==> forall k | i <= k < |cs| :: FaultAt(cs, k).None?
    ensures FaultFrom(cs, i).Some? ==> exists k | i <= k < |cs| :: FaultFrom(cs, i) == FaultAt(cs, k)
    decreases |cs| - i
  {
    if i < |cs| {
      FaultFromExact(cs, i + 1);
    }
  }

  /** The check for successors of a terminal checkpoint never decides: the transition table
    leaves terminal states no successor. */
  lemma TerminalCheckImplied(cs: seq<Checkpoint>)
    ensures Fault(cs) != Some(TerminalSuccessor)
  {
    FaultFromExact(cs, 0);
  }

  // ----- what an accepted chain looks like

  /** A checkpoint of the first state may come right before one of the second. */
  ghost predicate Precedes(before: LifecycleState, s: LifecycleState) {
    match s
    case PLANNED => false
    case ACTIVE => before.PLANNED? || before.CHECKPOINTED?
    case CHECKPOINTED => before.ACTIVE? || before.CHECKPOINTED?
    case FAILED => before.PLANNED? || before.ACTIVE? || before.CHECKPOINTED?
    case COMPLETED => before.ACTIVE? || before.CHECKPOINTED?
    case INDETERMINATE => before.ACTIVE? || before.CHECKPOINTED?
  }

  ghost predicate InSequence(cs: seq<Checkpoint>, i: nat)
    requires i < |cs|
  {
    if i == 0 then cs[0].state.PLANNED? else Precedes(cs[i - 1].state, cs[i].state)
  }

  /** Both belong to the same execution of the same node. */
  ghost predicate SameNode(c: Checkpoint, d: Checkpoint) {
    && c.saga == d.saga && c.nodeId == d.nodeId && c.application == d.application
    && c.idempotencyKey == d.idempotencyKey && c.lockKeys == d.lockKeys && c.stateIdentity == d.stateIdentity
  }

  /** Checkpoints of one node, numbered from zero: PLANNED only at the start, a result, a failure or
    an uncertainty only at the end, and every CHECKPOINTED after a spell of activity. */
  ghost predicate IsChain(cs: seq<Checkpoint>) {
    cs != [] && forall i | 0 <= i < |cs| :: cs[i].index == i && SameNode(cs[i], cs[0]) && InSequence(cs, i)
  }

  /** What is wrong with checkpoint k, when those before it form a chain. */
  ghost function Defect(cs: seq<Checkpoint>, k: nat): Option<Error>
    requires k < |cs|
  {
    if cs[k].index != k then Some(BadIndex)
    else if !SameNode(cs[k], cs[0]) then Some(BindingChanged)
    else if !InSequence(cs, k) then Some(InvalidTransition)
    else None
  }

  lemma FaultAtExact(cs: seq<Checkpoint>, i: nat)
    requires i < |cs| && cs[0].state.PLANNED?
    ensures FaultAt(cs, i) == Defect(cs, i)
  {
  }

  /** Accepted are exactly the chains. */
  lemma AcceptedExactlyChains(cs: seq<Checkpoint>)
    ensures Accepted(cs) <==> IsChain(cs)
  {
    if cs != [] && cs[0].state.PLANNED? {
      FaultFromExact(cs, 0);
      forall i | 0 <= i < |cs|
        ensures FaultAt(cs, i).None? <==> cs[i].index == i && SameNode(cs[i], cs[0]) && InSequence(cs, i)
      {
        FaultAtExact(cs, i);
      }
      assert cs[0].index != 0 ==> FaultAt(cs, 0).Some?;
    } else if cs != [] {
      assert !InSequence(cs, 0);
    }
  }

  lemma {:induction false} FirstFaultFrom(cs: seq<Checkpoint>, i: nat) returns (k: nat)
    requires i <= |cs| && FaultFrom(cs, i).Some?
    ensures i <= k < |cs| && FaultFrom(cs, i) == FaultAt(cs, k)
    ensures forall j | i <= j < k :: FaultAt(cs, j).None?
    decreases |cs| - i
  {
    if FaultAt(cs, i).Some? {
      k := i;
    } else {
      k := FirstFaultFrom(cs, i + 1);
    }
  }

  /** The fault reported is the defect of the first checkpoint that breaks the chain. */
  lemma FaultExact(cs: seq<Checkpoint>)
    ensures Fault(cs) == Some(EmptyChain) <==> cs == []
    ensures Fault(cs) == Some(BadStart) <==> cs != [] && !(cs[0].index == 0 && cs[0].state.PLANNED?)
    ensures Fault(cs).Some? && Fault(cs).value != EmptyChain && Fault(cs).value != BadStart ==>
      exists k :: 0 < k < |cs| && IsChain(cs[..k]) && Fault(cs) == Defect(cs, k)
  {
    if cs != [] && cs[0].index == 0 && cs[0].state.PLANNED? && Fault(cs).Some? {
      var k := FirstFaultFrom(cs, 0);
      forall j | 0 <= j <= k ensures FaultAt(cs, j) == Defect(cs, j) {
        FaultAtExact(cs, j);
      }
      assert IsChain(cs[..k]) by {
        forall i | 0 <= i < k ensures cs[..k][i].index == i && SameNode(cs[..k][i], cs[0]) && InSequence(cs[..k], i) {
          assert Defect(cs, i).None?;
        }
      }
    }
  }

  /** A transition succeeds exactly when the state may come next, a result comes with COMPLETED and
    only then, and an uncertainty, as a token, with INDETERMINATE and only then. */
  lemma TransitionExact(c: Checkpoint, m: Move)
    requires c.Valid()
    ensures TransitionCheckpoint(c, m).Ok? <==>
      && Precedes(c.state, m.to)
      && (m.result.Some? <==> m.to.COMPLETED?) && (m.uncertainty.Some? <==> m.to.INDETERMINATE?)
      && (m.uncertainty.Some? ==> Token(Strip(m.uncertainty.value)))
    ensures TransitionCheckpoint(c, m).Ok? ==>
      var next := TransitionCheckpoint(c, m).value;
      && SameNode(next, c) && next.index == c.index + 1
      && next.state == m.to && next.result == m.result && next.uncertainty == m.uncertainty && next.Valid()
    ensures TransitionCheckpoint(c, m) == Err(InvalidTransition) <==> !Precedes(c.state, m.to)
  {
  }

  // ----- accepted chains are the built ones

  /** The chain that starts with c and makes these moves. */
  ghost function Build(c: Checkpoint, moves: seq<Move>): Result<seq<Checkpoint>, Error>
    decreases |moves|
  {
    if moves == [] then Ok([c])
    else
      match TransitionCheckpoint(c, moves[0])
      case Err(e) => Err(e)
      case Ok(next) =>
        match Build(next, moves[1..])
        case Err(e) => Err(e)
        case Ok(rest) => Ok([c] + rest)
  }

  function MoveTo(c: Checkpoint): Move {
    Move(c.state, c.result, c.uncertainty)
  }

  function MovesOf(cs: seq<Checkpoint>): (ms: seq<Move>)
    ensures |ms| == |cs| && forall i | 0 <= i < |ms| :: ms[i] == MoveTo(cs[i])
  {
    seq(|cs|, i requires 0 <= i < |cs| => MoveTo(cs[i]))
  }

  /** b is what one transition makes of a. */
  ghost predicate Follows(a: Checkpoint, b: Checkpoint) {
    TransitionCheckpoint(a, MoveTo(b)) == Ok(b)
  }

  ghost predicate Linked(cs: seq<Checkpoint>) {
    forall i | 0 < i < |cs| :: Follows(cs[i - 1], cs[i])
  }

  ghost predicate AllValid(cs: seq<Checkpoint>) {
    forall i | 0 <= i < |cs| :: cs[i].Valid()
  }

  lemma {:induction false} BuildLinked(c: Checkpoint, moves: seq<Move>)
    requires Build(c, moves).Ok?
    ensures var cs := Build(c, moves).value; cs != [] && cs[0] == c && Linked(cs)
    decreases |moves|
  {
    if moves != [] {
      var next := TransitionCheckpoint(c, moves[0]).value;
      BuildLinked(next, moves[1..]);
      var rest := Build(next, moves[1..]).value;
      assert Follows(c, next);
      forall i | 0 < i < |[c] + rest| ensures Follows(([c] + rest)[i - 1], ([c] + rest)[i]) {
        if i > 1 {
          assert Follows(rest[i - 2], rest[i - 1]);
        }
      }
    }
  }

  lemma {:induction false} LinkedBuilds(cs: seq<Checkpoint>)
    requires cs != [] && Linked(cs)
    ensures Build(cs[0], MovesOf(cs)[1..]) == Ok(cs)
  {
    if |cs| == 1 {
      assert MovesOf(cs)[1..] == [];
      assert cs == [cs[0]];
    } else {
      var rest := cs[1..];
      forall i | 0 < i < |rest| ensures Follows(rest[i - 1], rest[i]) {
        assert Follows(cs[i], cs[i + 1]);
      }
      LinkedBuilds(rest);
      assert Follows(cs[0], cs[1]);
      assert MovesOf(cs)[1..][1..] == MovesOf(rest)[1..];
      assert cs == [cs[0]] + rest;
    }
  }

  lemma AcceptedStep(cs: seq<Checkpoint>, i: nat)
    requires 0 < i < |cs| && AllValid(cs)
    requires cs[i - 1].index == i - 1 && cs[i - 1].SameBinding(cs[0])
    ensures FaultAt(cs, i).None? <==> Follows(cs[i - 1], cs[i])
  {
  }

  lemma {:induction false} AcceptedPrefix(cs: seq<Checkpoint>, n: nat)
    requires 0 < n <= |cs| && AllValid(cs) && cs[0].index == 0
    ensures (forall k | 0 <= k < n :: FaultAt(cs, k).None?) <==> (forall k | 0 < k < n :: Follows(cs[k - 1], cs[k]))
  {
    if n > 1 {
      AcceptedPrefix(cs, n - 1);
      if forall k | 0 <= k < n - 1 :: FaultAt(cs, k).None? {
        assert FaultAt(cs, n - 2).None?;
        AcceptedStep(cs, n - 1);
      }
      assert (forall k | 0 <= k < n :: FaultAt(cs, k).None?) <==>
        (forall k | 0 <= k < n - 1 :: FaultAt(cs, k).None?) && FaultAt(cs, n - 1).None?;
      assert (forall k | 0 < k < n :: Follows(cs[k - 1], cs[k])) <==>
        (forall k | 0 < k < n - 1 :: Follows(cs[k - 1], cs[k])) && Follows(cs[n - 2], cs[n - 1]);
    }
  }

  ghost predicate Planned(cs: seq<Checkpoint>) {
    cs != [] && cs[0].index == 0 && cs[0].state == PLANNED
  }

  lemma AcceptedLinked(cs: seq<Checkpoint>)
    requires AllValid(cs)
    ensures Accepted(cs) <==> Planned(cs) && Linked(cs)
  {
    if Planned(cs) {
      FaultFromExact(cs, 0);
      AcceptedPrefix(cs, |cs|);
    }
  }

  /** The validator accepts exactly the chains that transitions build from a PLANNED checkpoint
    at index zero. */
  lemma AcceptedExactly(cs: seq<Checkpoint>)
    requires AllValid(cs)
    ensures Accepted(cs) <==> Planned(cs) && exists moves :: Build(cs[0], moves) == Ok(cs)
  {
    AcceptedLinked(cs);
    if Accepted(cs) {
      LinkedBuilds(cs);
    }
    if Planned(cs) {
      forall moves | Build(cs[0], moves) == Ok(cs) ensures Linked(cs) {
        BuildLinked(cs[0], moves);
      }
    }
  }

  function Last(cs: seq<Checkpoint>): Checkpoint
    requires cs != []
  {
    cs[|cs| - 1]
  }

  /** An accepted chain can be extended by exactly what a transition of its last checkpoint
    yields. */
  lemma ExtensionExact(cs: seq<Checkpoint>, c: Checkpoint)
    requires AllValid(cs) && Accepted(cs) && c.Valid()
    ensures Accepted(cs + [c]) <==> exists m :: TransitionCheckpoint(Last(cs), m) == Ok(c)
    ensures Accepted(cs + [c]) ==> c.index == |cs|
  {
    var longer := cs + [c];
    AcceptedLinked(cs);
    AcceptedLinked(longer);
    LastIndex(cs);
    var last := Last(cs);
    if m :| TransitionCheckpoint(last, m) == Ok(c) {
      assert m == MoveTo(c);
      forall i | 0 < i < |longer| ensures Follows(longer[i - 1], longer[i]) {
        if i < |cs| {
          assert Follows(cs[i - 1], cs[i]);
        }
      }
    }
    if Accepted(longer) {
      assert Follows(longer[|cs| - 1], longer[|cs|]);
    }
  }

  lemma LastIndex(cs: seq<Checkpoint>)
    requires Accepted(cs)
    ensures cs != [] && cs[|cs| - 1].index == |cs| - 1
  {
    FaultFromExact(cs, 0);
    assert FaultAt(cs, |cs| - 1).None?;
  }

  // ----- prepare_checkpoint_resume

  datatype ResumeState = RESUMABLE | TERMINAL | NOT_CHECKPOINTED

  datatype ResumePlan = ResumePlan(state: ResumeState, nodeId: string, index: int, next: Option<int>)

  function PrepareCheckpointResume(cs: seq<Checkpoint>): Result<ResumePlan, Error> {
    match Fault(cs)
    case Some(e) => Err(e)
    case None =>
      var latest := Last(cs);
      if latest.state == CHECKPOINTED then
        Ok(ResumePlan(RESUMABLE, latest.nodeId, latest.index, Some(latest.index + 1)))
      else if Terminal(latest.state) then Ok(ResumePlan(TERMINAL, latest.nodeId, latest.index, None))
      else Ok(ResumePlan(NOT_CHECKPOINTED, latest.nodeId, latest.index, None))
  }

  /** Some further checkpoint of this state is accepted. */
  ghost predicate ExtendedBy(cs: seq<Checkpoint>, s: LifecycleState) {
    exists c: Checkpoint :: c.Valid() && c.state == s && Accepted(cs + [c])
  }

  lemma ExtendedExact(cs: seq<Checkpoint>, s: LifecycleState)
    requires AllValid(cs) && Accepted(cs)
    ensures ExtendedBy(cs, s) <==> Precedes(Last(cs).state, s)
  {
    LastIndex(cs);
    if c: Checkpoint :| c.Valid() && c.state == s && Accepted(cs + [c]) {
      AcceptedExactlyChains(cs + [c]);
      assert InSequence(cs + [c], |cs|);
    }
    if Precedes(Last(cs).state, s) {
      var m := Move(s, if s.COMPLETED? then Some("") else None, if s.INDETERMINATE? then Some("x") else None);
      assert Token("x") by { assert forall c | c in "x" :: c == 'x'; }
      TokenStrip("x");
      TransitionExact(Last(cs), m);
      ExtensionExact(cs, TransitionCheckpoint(Last(cs), m).value);
    }
  }

  /** The resume plan says what can follow. RESUMABLE: both a renewed activity and another
    checkpoint. TERMINAL: nothing. NOT_CHECKPOINTED: anything in between. A resumable chain ends in a
    CHECKPOINTED checkpoint, and every accepted extension has the announced index. */
  lemma ResumeExact(cs: seq<Checkpoint>)
    requires AllValid(cs) && Accepted(cs)
    ensures PrepareCheckpointResume(cs).Ok?
    ensures var plan := PrepareCheckpointResume(cs).value;
      && plan.index == |cs| - 1 && plan.nodeId == Last(cs).nodeId
      && (plan.state == RESUMABLE <==> ExtendedBy(cs, ACTIVE) && ExtendedBy(cs, CHECKPOINTED))
      && (plan.state == TERMINAL <==> forall s :: !ExtendedBy(cs, s))
      && (plan.state == NOT_CHECKPOINTED <==>
        (exists s :: ExtendedBy(cs, s)) && !(ExtendedBy(cs, ACTIVE) && ExtendedBy(cs, CHECKPOINTED)))
      && (plan.state == RESUMABLE <==> Last(cs).state == CHECKPOINTED)
      && plan.next == (if plan.state == RESUMABLE then Some(|cs|) else None)
    ensures forall c: Checkpoint | c.Valid() && Accepted(cs + [c]) :: c.index == |cs|
  {
    LastIndex(cs);
    forall s ensures ExtendedBy(cs, s) <==> Precedes(Last(cs).state, s) {
      ExtendedExact(cs, s);
    }
    assert Precedes(Last(cs).state, FAILED) <==> !Terminal(Last(cs).state);
    forall c: Checkpoint | c.Valid() && Accepted(cs + [c]) ensures c.index == |cs| {
      ExtensionExact(cs, c);
    }
  }

  /** A chain that is not accepted has no resume plan, but its fault. */
  lemma ResumeRefused(cs: seq<Checkpoint>)
    ensures PrepareCheckpointResume(cs).Err? <==> !IsChain(cs)
    ensures PrepareCheckpointResume(cs).Err? ==> Some(PrepareCheckpointResume(cs).error) == Fault(cs)
  {
    AcceptedExactlyChains(cs);
  }
}
