/** Replay protection for one external operation (src/m365_mcp/idempotency_v2.py).

  SHA-256 is the parameter `hash`; an identity is the digest that stands for it. */
module Idempotency {
  import opened CanonicalJson
  import opened Digests
  import opened Results
  import opened Tokens

  datatype OperationPhase = RESERVED | COMPLETED | FAILED_PRE_EFFECT | EFFECT_UNVERIFIED

  datatype ReadBackOutcome = NOT_RUN | EFFECT_PRESENT | EFFECT_ABSENT | AMBIGUOUS

  datatype RetryAction =
    | EXECUTE | REPLAY_RESULT | RETRY_SAFE | READ_BACK_REQUIRED | DO_NOT_RETRY | DENY_BINDING_MISMATCH

  datatype Error = BadOperation | NotReserved

  function PayloadDigest(hash: Digest, value: Json): string {
    hash(Dumps(true, value))
  }

  function KeyPayload(operation: string, identity: string, request: string): Json {
    Obj(map["operation" := Str(operation), "identity_digest" := Str(identity), "request_digest" := Str(request)])
  }

  /** `make_idempotency_key`. */
  function MakeKey(hash: Digest, operation: string, identity: string, request: string): Result<string, Error> {
    if !Token(Strip(operation)) then Err(BadOperation)
    else Ok(PayloadDigest(hash, KeyPayload(Strip(operation), identity, request)))
  }

  datatype Record = Record(
    key: string, operation: string, identity: string, request: string,
    phase: OperationPhase, readBackRequired: bool, result: Option<string>)
  {
    /** The rules of the constructor. */
    predicate Valid() {
      Token(operation) && (phase.COMPLETED? <==> result.Some?)
    }

    function BindingMatches(hash: Digest, op: string, id: string, req: string): bool {
      operation == op && identity == id && request == req && Ok(key) == MakeKey(hash, op, id, req)
    }
  }

  function ReserveOperation(hash: Digest, operation: string, identity: string, payload: Json, readBackRequired: bool)
    : (r: Result<Record, Error>)
    ensures r.Ok? <==> Token(operation)
    ensures r.Ok? ==> r.value.Valid() && r.value.phase == RESERVED
  {
    TokenStrip(operation);
    match MakeKey(hash, operation, identity, PayloadDigest(hash, payload))
    case Err(e) => Err(e)
    case Ok(key) =>
      var record := Record(key, operation, identity, PayloadDigest(hash, payload), RESERVED, readBackRequired, None);
      if record.Valid() then Ok(record) else Err(BadOperation)
  }

  function AssociateResult(hash: Digest, r: Record, result: Json): Result<Record, Error> {
    if r.phase != RESERVED then Err(NotReserved)
    else Ok(r.(phase := COMPLETED, result := Some(PayloadDigest(hash, result))))
  }

  function MarkFailedPreEffect(r: Record): Result<Record, Error> {
    if r.phase != RESERVED then Err(NotReserved) else Ok(r.(phase := FAILED_PRE_EFFECT))
  }

  function MarkEffectUnverified(r: Record): Result<Record, Error> {
    if r.phase != RESERVED then Err(NotReserved) else Ok(r.(phase := EFFECT_UNVERIFIED))
  }

  /** `resolve_retry`. */
  function ResolveRetry(hash: Digest, record: Option<Record>, operation: string, identity: string, payload: Json,
      readBack: ReadBackOutcome): RetryAction
  {
    match record
    case None => EXECUTE
    case Some(r) =>
      if !r.BindingMatches(hash, operation, identity, PayloadDigest(hash, payload)) then DENY_BINDING_MISMATCH
      else if r.phase.COMPLETED? then REPLAY_RESULT
      else if r.phase.FAILED_PRE_EFFECT? then RETRY_SAFE
      else if !r.readBackRequired then (if r.phase.RESERVED? then RETRY_SAFE else DO_NOT_RETRY)
      else
        match readBack
        case EFFECT_PRESENT => DO_NOT_RETRY
        case EFFECT_ABSENT => RETRY_SAFE
        case _ => READ_BACK_REQUIRED
  }

  // ----- binding

  /** Requests, results and keys are hashed as texts in printable ASCII that read back as the value. */
  lemma DigestOfText(hash: Digest, v: Json)
    ensures exists text :: PayloadDigest(hash, v) == hash(text) && Printable(text) && Parse(text) == Some((v, ""))
  {
    CanonicalText(v);
  }

  lemma PayloadDigestInjective(hash: Digest, v: Json, w: Json)
    requires CollisionFree(hash) && PayloadDigest(hash, v) == PayloadDigest(hash, w)
    ensures v == w
  {
    DumpsInjective(true, v, w);
  }

  /** The record still carries the binding it was reserved with. */
  ghost predicate BoundTo(hash: Digest, r: Record, operation: string, identity: string, payload: Json) {
    && Token(operation)
    && r.operation == operation && r.identity == identity && r.request == PayloadDigest(hash, payload)
    && Ok(r.key) == MakeKey(hash, operation, identity, PayloadDigest(hash, payload))
  }

  lemma ReservedIsBound(hash: Digest, operation: string, identity: string, payload: Json, required: bool)
    requires Token(operation)
    ensures var r := ReserveOperation(hash, operation, identity, payload, required).value;
      BoundTo(hash, r, operation, identity, payload)
  {
  }

  lemma BindingMatchesExactly(hash: Digest, r: Record, operation: string, identity: string, payload: Json,
      op: string, id: string, request: string)
    requires BoundTo(hash, r, operation, identity, payload)
    ensures r.BindingMatches(hash, op, id, request) <==>
      op == operation && id == identity && request == PayloadDigest(hash, payload)
  {
  }

  lemma DeniedUnlessMatching(hash: Digest, r: Record, op: string, id: string, req: Json, readBack: ReadBackOutcome)
    ensures ResolveRetry(hash, Some(r), op, id, req, readBack) == DENY_BINDING_MISMATCH <==>
      !r.BindingMatches(hash, op, id, PayloadDigest(hash, req))
  {
  }

  /** A request is denied exactly when its operation, identity or payload is not the reserved
    one, whatever the phase and the read-back say. */
  lemma DeniedExactly(hash: Digest, r: Record, operation: string, identity: string, payload: Json, op: string,
      id: string, req: Json, readBack: ReadBackOutcome)
    requires CollisionFree(hash) && BoundTo(hash, r, operation, identity, payload)
    ensures ResolveRetry(hash, Some(r), op, id, req, readBack) == DENY_BINDING_MISMATCH <==>
      !(op == operation && id == identity && req == payload)
  {
    DeniedUnlessMatching(hash, r, op, id, req, readBack);
    BindingMatchesExactly(hash, r, operation, identity, payload, op, id, PayloadDigest(hash, req));
    if PayloadDigest(hash, req) == PayloadDigest(hash, payload) {
      PayloadDigestInjective(hash, req, payload);
    }
  }

  lemma KeyFields(k: string, l: string, m: string, a: string, b: string, c: string, x: string, y: string, z: string)
    requires k != l && l != m && k != m
    requires map[k := Str(a), l := Str(b), m := Str(c)] == map[k := Str(x), l := Str(y), m := Str(z)]
    ensures a == x && b == y && c == z
  {
    var f, g := map[k := Str(a), l := Str(b), m := Str(c)], map[k := Str(x), l := Str(y), m := Str(z)];
    assert f[k] == g[k] && f[l] == g[l] && f[m] == g[m];
  }

  /** A key is made exactly for an operation that is a semantic token apart from blanks around it. */
  lemma KeyRefused(hash: Digest, op: string, id: string, request: string)
    ensures MakeKey(hash, op, id, request).Ok? <==> Token(Strip(op))
  {
  }

  /** Two operations share a key only if they are the same operation on the same identity with
    the same request. */
  lemma KeyExact(hash: Digest, op: string, id: string, req: Json, op': string, id': string, req': Json)
    requires CollisionFree(hash) && Token(op) && Token(op')
    ensures MakeKey(hash, op, id, PayloadDigest(hash, req)) == MakeKey(hash, op', id', PayloadDigest(hash, req'))
      <==> op == op' && id == id' && req == req'
  {
    TokenStrip(op);
    TokenStrip(op');
    var d, d' := PayloadDigest(hash, req), PayloadDigest(hash, req');
    if MakeKey(hash, op, id, d) == MakeKey(hash, op', id', d') {
      PayloadDigestInjective(hash, KeyPayload(op, id, d), KeyPayload(op', id', d'));
      KeyFields("operation", "identity_digest", "request_digest", op, id, d, op', id', d');
      PayloadDigestInjective(hash, req, req');
    }
  }

  /** The answer to the operation's own request. A completed one replays its result, one that failed
    before its effect may be tried again, and for the others the read-back decides where it is
    required; where it is not, a reserved one may be tried again and an unverified one not. */
  lemma AnswerExact(hash: Digest, r: Record, operation: string, identity: string, payload: Json,
      readBack: ReadBackOutcome)
    requires BoundTo(hash, r, operation, identity, payload)
    ensures var action := ResolveRetry(hash, Some(r), operation, identity, payload, readBack);
      && (action == REPLAY_RESULT <==> r.phase == COMPLETED)
      && (action == RETRY_SAFE <==>
        || r.phase == FAILED_PRE_EFFECT || (r.phase == RESERVED && !r.readBackRequired)
        || ((r.phase == RESERVED || r.phase == EFFECT_UNVERIFIED) && r.readBackRequired && readBack == EFFECT_ABSENT))
      && (action == DO_NOT_RETRY <==>
        || (r.phase == EFFECT_UNVERIFIED && !r.readBackRequired)
        || ((r.phase == RESERVED || r.phase == EFFECT_UNVERIFIED) && r.readBackRequired && readBack == EFFECT_PRESENT))
      && (action == READ_BACK_REQUIRED <==>
        && (r.phase == RESERVED || r.phase == EFFECT_UNVERIFIED) && r.readBackRequired
        && (readBack == NOT_RUN || readBack == AMBIGUOUS))
  {
  }

  /** Without a record the operation is executed. A record whose key is not the one of its operation,
    identity and request is denied to everybody. */
  lemma UnboundAnswers(hash: Digest, r: Record, operation: string, identity: string, payload: Json,
      readBack: ReadBackOutcome)
    ensures ResolveRetry(hash, None, operation, identity, payload, readBack) == EXECUTE
    ensures Ok(r.key) != MakeKey(hash, r.operation, r.identity, r.request) ==>
      ResolveRetry(hash, Some(r), operation, identity, payload, readBack) == DENY_BINDING_MISMATCH
  {
  }

  /** A valid record has a token as its operation, and a result when it is completed and only then. */
  lemma ValidExact(r: Record)
    ensures r.Valid() <==>
      Token(r.operation) && (if r.phase == COMPLETED then r.result.Some? else r.result.None?)
  {
  }

  /** Only a reserved operation moves on, and its binding stays. */
  lemma OnlyReservedMoves(hash: Digest, r: Record, result: Json)
    ensures forall next |
      next in [AssociateResult(hash, r, result), MarkFailedPreEffect(r), MarkEffectUnverified(r)] ::
      && (next.Ok? <==> r.phase == RESERVED)
      && (next.Ok? ==>
        && next.value.phase != RESERVED
        && next.value == r.(phase := next.value.phase, result := next.value.result)
        && (r.Valid() ==> next.value.Valid()))
  {
  }
}

/** The external effect over whole runs of requests, attempts and crashes.

  Assumed of the driver: attempts run one at a time and an effect never lands after its attempt
  has ended; a read-back does not lie; FAILED_PRE_EFFECT is recorded only when the attempt had
  no effect; and RETRY_SAFE is followed by a fresh reservation and a new attempt. */
module EffectProtocol {
  import opened CanonicalJson
  import opened Digests
  import opened Idempotency
  import opened Results
  import opened Tokens

  /** `attempt` says, while an attempt runs, whether its effect has landed. */
  datatype World = World(record: Option<Record>, effects: nat, attempt: Option<bool>)

  datatype Request = Request(operation: string, identity: string, payload: Json)

  datatype Event =
    | Ask(request: Request, readBack: ReadBackOutcome)
    | Land
    | Complete(result: Json)
    | FailPreEffect
    | LeaveUnverified
    | Crash

  const START := World(None, 0, None)

  predicate Truthful(w: World, readBack: ReadBackOutcome) {
    match readBack
    case EFFECT_PRESENT => w.effects > 0
    case EFFECT_ABSENT => w.effects == 0
    case _ => true
  }

  predicate Enabled(w: World, e: Event) {
    match e
    case Ask(_, readBack) => w.attempt.None? && Truthful(w, readBack)
    case Land => w.attempt == Some(false)
    case FailPreEffect => w.attempt == Some(false)
    case _ => w.attempt.Some?
  }

  function Action(hash: Digest, w: World, q: Request, readBack: ReadBackOutcome): RetryAction {
    ResolveRetry(hash, w.record, q.operation, q.identity, q.payload, readBack)
  }

  /** The attempt ends with this transition of the record, which the driver made while it was
    reserved. */
  function Ending(w: World, next: Record -> Result<Record, Idempotency.Error>): World {
    match w.record
    case None => w.(attempt := None)
    case Some(r) =>
      match next(r)
      case Ok(moved) => w.(record := Some(moved), attempt := None)
      case Err(_) => w.(attempt := None)
  }

  function Step(hash: Digest, required: bool, w: World, e: Event): World {
    match e
    case Ask(q, readBack) =>
      var action := Action(hash, w, q, readBack);
      if action.EXECUTE? || action.RETRY_SAFE? then
        (match ReserveOperation(hash, q.operation, q.identity, q.payload, required)
         case Ok(record) => w.(record := Some(record), attempt := Some(false))
         case Err(_) => w)
      else w
    case Land => w.(effects := w.effects + 1, attempt := Some(true))
    case Complete(result) => Ending(w, r => AssociateResult(hash, r, result))
    case FailPreEffect => Ending(w, r => MarkFailedPreEffect(r))
    case LeaveUnverified => Ending(w, r => MarkEffectUnverified(r))
    case Crash => w.(attempt := None)
  }

  function Run(hash: Digest, required: bool, w: World, events: seq<Event>): Option<World>
    decreases |events|
  {
    if events == [] then Some(w)
    else if Enabled(w, events[0]) then Run(hash, required, Step(hash, required, w, events[0]), events[1..])
    else None
  }

  ghost predicate Inv(required: bool, w: World) {
    && (w.record.Some? ==> w.record.value.readBackRequired == required)
    && (w.attempt.Some? ==> w.record.Some? && w.record.value.phase == RESERVED)
    && (w.attempt == Some(false) ==> w.effects == 0)
    && (w.record.None? || w.record.value.phase == FAILED_PRE_EFFECT ==> w.effects == 0)
    && w.effects <= 1
  }

  /** With read-back required, a new attempt starts only when no effect has happened. */
  lemma AttemptNeedsNoEffect(hash: Digest, w: World, q: Request, readBack: ReadBackOutcome)
    requires Inv(true, w) && Truthful(w, readBack)
    requires Action(hash, w, q, readBack).EXECUTE? || Action(hash, w, q, readBack).RETRY_SAFE?
    ensures w.effects == 0
  {
  }

  lemma StepInv(hash: Digest, w: World, e: Event)
    requires Inv(true, w) && Enabled(w, e)
    ensures Inv(true, Step(hash, true, w, e))
  {
    if e.Ask? {
      var action := Action(hash, w, e.request, e.readBack);
      if action.EXECUTE? || action.RETRY_SAFE? {
        AttemptNeedsNoEffect(hash, w, e.request, e.readBack);
      }
    }
  }

  lemma {:induction false} RunInv(hash: Digest, w: World, events: seq<Event>)
    requires Inv(true, w) && Run(hash, true, w, events).Some?
    ensures Inv(true, Run(hash, true, w, events).value)
    decreases |events|
  {
    if events != [] {
      StepInv(hash, w, events[0]);
      RunInv(hash, Step(hash, true, w, events[0]), events[1..]);
    }
  }

  /** The effect happens at most once in every run. */
  ghost predicate AtMostOnce(hash: Digest, required: bool) {
    forall events :: Run(hash, required, START, events).Some? ==> Run(hash, required, START, events).value.effects <= 1
  }

  lemma RunFront(hash: Digest, required: bool, w: World, e: Event, rest: seq<Event>)
    requires Enabled(w, e)
    ensures Run(hash, required, w, [e] + rest) == Run(hash, required, Step(hash, required, w, e), rest)
  {
  }

  /** Without read-back, a request starts a new attempt on a reservation that an attempt left
    behind, as it does on none at all. */
  lemma ReservationRetried(hash: Digest, q: Request, w: World)
    requires Token(q.operation) && w.attempt.None?
    requires w.record.None? || w.record == Some(ReserveOperation(hash, q.operation, q.identity, q.payload, false).value)
    ensures Step(hash, false, w, Ask(q, NOT_RUN)) ==
      World(Some(ReserveOperation(hash, q.operation, q.identity, q.payload, false).value), w.effects, Some(false))
  {
  }

  lemma ThreeSteps(hash: Digest, w: World, a: Event, b: Event, c: Event, rest: seq<Event>, w1: World, w2: World,
      w3: World)
    requires Enabled(w, a) && Step(hash, false, w, a) == w1
    requires Enabled(w1, b) && Step(hash, false, w1, b) == w2
    requires Enabled(w2, c) && Step(hash, false, w2, c) == w3
    ensures Run(hash, false, w, [a] + ([b] + ([c] + rest))) == Run(hash, false, w3, rest)
  {
    RunFront(hash, false, w, a, [b] + ([c] + rest));
    RunFront(hash, false, w1, b, [c] + rest);
    RunFront(hash, false, w2, c, rest);
  }

  /** The world with this reservation, after a number of effects, and its attempt. */
  function Reserved(hash: Digest, q: Request, effects: nat, attempt: Option<bool>): World
    requires Token(q.operation)
  {
    World(Some(ReserveOperation(hash, q.operation, q.identity, q.payload, false).value), effects, attempt)
  }

  lemma OneRound(hash: Digest, q: Request, w: World, rest: seq<Event>)
    requires Token(q.operation) && (w == World(None, w.effects, None) || w == Reserved(hash, q, w.effects, None))
    ensures Run(hash, false, w, [Ask(q, NOT_RUN)] + ([Land] + ([Crash] + rest))) ==
      Run(hash, false, Reserved(hash, q, w.effects + 1, None), rest)
  {
    ReservationRetried(hash, q, w);
    ThreeSteps(hash, w, Ask(q, NOT_RUN), Land, Crash, rest, Reserved(hash, q, w.effects, Some(false)),
      Reserved(hash, q, w.effects + 1, Some(true)), Reserved(hash, q, w.effects + 1, None));
  }

  /** A crash after the effect leaves a reservation that reads as safe to retry: the effect can
    then happen twice. */
  lemma TwiceWithoutReadBack(hash: Digest, q: Request)
    requires Token(q.operation)
    ensures exists events ::
      && Run(hash, false, START, events).Some?
      && Run(hash, false, START, events).value.effects == 2
  {
    var again := [Ask(q, NOT_RUN)] + ([Land] + ([Crash] + []));
    OneRound(hash, q, START, again);
    OneRound(hash, q, Reserved(hash, q, 1, None), []);
    var events := [Ask(q, NOT_RUN)] + ([Land] + ([Crash] + again));
    assert Run(hash, false, START, events).Some?;
  }

  /** At most one effect in every run, exactly when read-back is required. */
  lemma AtMostOnceExactly(hash: Digest, required: bool)
    ensures AtMostOnce(hash, required) <==> required
  {
    if required {
      forall events | Run(hash, true, START, events).Some?
        ensures Run(hash, true, START, events).value.effects <= 1
      {
        RunInv(hash, START, events);
      }
    } else {
      assert Token("op") by { assert forall c | c in "op" :: c == 'o' || c == 'p'; }
      TwiceWithoutReadBack(hash, Request("op", "", Null));
    }
  }

  /** In every reachable state, with read-back required and a truthful read-back, the answer to the
    stored request is right about the world: RETRY_SAFE only when no effect has happened,
    DO_NOT_RETRY only when it has. An undecided operation is decided by a conclusive read-back
    and by nothing else. */
  lemma AnswersAreRight(hash: Digest, events: seq<Event>, w: World, q: Request, readBack: ReadBackOutcome)
    requires Run(hash, true, START, events) == Some(w) && Truthful(w, readBack)
    requires w.record.Some? && BoundTo(hash, w.record.value, q.operation, q.identity, q.payload)
    ensures var action := Action(hash, w, q, readBack);
      var undecided := w.record.value.phase == RESERVED || w.record.value.phase == EFFECT_UNVERIFIED;
      && (action == RETRY_SAFE ==> w.effects == 0)
      && (action == DO_NOT_RETRY ==> w.effects == 1)
      && (action == REPLAY_RESULT <==> w.record.value.phase == COMPLETED)
      && (action == READ_BACK_REQUIRED <==> undecided && (readBack == NOT_RUN || readBack == AMBIGUOUS))
      && (undecided && (readBack == EFFECT_PRESENT || readBack == EFFECT_ABSENT) ==>
        action == if w.effects == 0 then RETRY_SAFE else DO_NOT_RETRY)
  {
    RunInv(hash, START, events);
  }

  // ----- what a stored record fixes

  /** The record, if any, carries this binding. */
  ghost predicate Bound(hash: Digest, w: World, q: Request) {
    && (w.attempt.Some? ==> w.record.Some?)
    && (w.record.Some? ==> BoundTo(hash, w.record.value, q.operation, q.identity, q.payload))
  }

  lemma AskBound(hash: Digest, required: bool, w: World, q: Request, readBack: ReadBackOutcome)
    requires w.record.Some? && Bound(hash, w, q)
    ensures var next := Step(hash, required, w, Ask(q, readBack));
      next.record.Some? && Bound(hash, next, q)
  {
  }

  lemma OtherDenied(hash: Digest, required: bool, w: World, q: Request, other: Request,
      readBack: ReadBackOutcome)
    requires w.record.Some? && Bound(hash, w, q)
    ensures CollisionFree(hash) && other != q ==>
      && Action(hash, w, other, readBack) == DENY_BINDING_MISMATCH
      && Step(hash, required, w, Ask(other, readBack)) == w
  {
    if CollisionFree(hash) {
      DeniedExactly(hash, w.record.value, q.operation, q.identity, q.payload,
        other.operation, other.identity, other.payload, readBack);
    }
  }

  lemma EndingBound(hash: Digest, w: World, q: Request, next: Record -> Result<Record, Idempotency.Error>)
    requires w.record.Some? && Bound(hash, w, q)
    requires next(w.record.value).Ok? ==>
      next(w.record.value).value == w.record.value.(phase := next(w.record.value).value.phase,
                                                    result := next(w.record.value).value.result)
    ensures Ending(w, next).record.Some? && Bound(hash, Ending(w, next), q)
  {
  }

  lemma StepBound(hash: Digest, required: bool, w: World, e: Event, q: Request)
    requires CollisionFree(hash) && w.record.Some? && Bound(hash, w, q)
    ensures Step(hash, required, w, e).record.Some? && Bound(hash, Step(hash, required, w, e), q)
  {
    match e
    case Ask(r, readBack) =>
      if r == q {
        AskBound(hash, required, w, q, readBack);
      } else {
        OtherDenied(hash, required, w, q, r, readBack);
      }
    case Complete(result) => EndingBound(hash, w, q, r => AssociateResult(hash, r, result));
    case FailPreEffect => EndingBound(hash, w, q, r => MarkFailedPreEffect(r));
    case LeaveUnverified => EndingBound(hash, w, q, r => MarkEffectUnverified(r));
    case Land =>
    case Crash =>
  }

  /** Once an operation is stored, a request for any other is denied and changes nothing, in
    every later state. */
  lemma {:induction false} StoredBindingHolds(hash: Digest, required: bool, w: World, q: Request, events: seq<Event>)
    requires w.record.Some? && Bound(hash, w, q)
    ensures CollisionFree(hash) && Run(hash, required, w, events).Some? ==>
      OthersDenied(hash, required, Run(hash, required, w, events).value, q)
    decreases |events|
  {
    if CollisionFree(hash) && Run(hash, required, w, events).Some? {
      if events != [] {
        StepBound(hash, required, w, events[0], q);
        StoredBindingHolds(hash, required, Step(hash, required, w, events[0]), q, events[1..]);
      } else {
        forall other: Request, readBack | other != q
          ensures Action(hash, w, other, readBack) == DENY_BINDING_MISMATCH
          ensures Step(hash, required, w, Ask(other, readBack)) == w
        {
          OtherDenied(hash, required, w, q, other, readBack);
        }
      }
    }
  }

  /** The operation is stored, and every other request is denied and changes nothing. */
  ghost predicate OthersDenied(hash: Digest, required: bool, w: World, q: Request) {
    && w.record.Some? && Bound(hash, w, q)
    && forall other: Request, readBack | other != q ::
      && Action(hash, w, other, readBack) == DENY_BINDING_MISMATCH
      && Step(hash, required, w, Ask(other, readBack)) == w
  }

  // ----- the result that is replayed

  /** The last transition was the completion with result v, and only requests followed it. */
  ghost predicate CompletedBy(hash: Digest, events: seq<Event>, k: nat, v: Json, r: Record) {
    && k < |events| && events[k] == Complete(v) && r.result == Some(hash(Dumps(true, v)))
    && forall j | k < j < |events| :: events[j].Ask?
  }

  lemma CompletedLater(hash: Digest, e: Event, rest: seq<Event>, r: Record)
    requires exists k: nat, v: Json :: CompletedBy(hash, rest, k, v, r)
    ensures exists k: nat, v: Json :: CompletedBy(hash, [e] + rest, k, v, r)
  {
    var k: nat, v: Json :| CompletedBy(hash, rest, k, v, r);
    var events := [e] + rest;
    forall j | k + 1 < j < |events| ensures events[j].Ask? {
      assert events[j] == rest[j - 1];
    }
    assert CompletedBy(hash, events, k + 1, v, r);
  }

  ghost predicate AttemptReserved(w: World) {
    w.attempt.Some? ==> w.record.Some? && w.record.value.phase == RESERVED
  }

  ghost predicate Completed(w: World) {
    w.attempt.None? && w.record.Some? && w.record.value.phase == COMPLETED
  }

  lemma StepReserved(hash: Digest, required: bool, w: World, e: Event)
    requires AttemptReserved(w) && Enabled(w, e)
    ensures AttemptReserved(Step(hash, required, w, e))
    ensures Completed(w) ==> e.Ask? && Step(hash, required, w, e) == w
    ensures !Completed(w) && Completed(Step(hash, required, w, e)) ==>
      e.Complete? && Step(hash, required, w, e).record.value.result == Some(hash(Dumps(true, e.result)))
  {
  }

  lemma {:induction false} ResultOrigin(hash: Digest, required: bool, w: World, events: seq<Event>, last: World)
    requires AttemptReserved(w) && Run(hash, required, w, events) == Some(last) && Completed(last)
    ensures (Completed(w) && w == last && forall e | e in events :: e.Ask?)
      || exists k: nat, v: Json :: CompletedBy(hash, events, k, v, last.record.value)
    decreases |events|
  {
    if events != [] {
      var e, rest := events[0], events[1..];
      var next := Step(hash, required, w, e);
      assert events == [e] + rest;
      StepReserved(hash, required, w, e);
      ResultOrigin(hash, required, next, rest, last);
      if exists k: nat, v: Json :: CompletedBy(hash, rest, k, v, last.record.value) {
        CompletedLater(hash, e, rest, last.record.value);
      } else if !Completed(w) {
        assert CompletedBy(hash, events, 0, e.result, last.record.value);
      }
    }
  }

  /** In every run the result of a completed record is the digest of what completed it. */
  lemma CompletedCarriesResult(hash: Digest, required: bool, events: seq<Event>, w: World)
    requires Run(hash, required, START, events) == Some(w) && w.record.Some? && w.record.value.phase == COMPLETED
    ensures exists k: nat, v: Json :: CompletedBy(hash, events, k, v, w.record.value)
  {
    RunReserved(hash, required, START, events);
    ResultOrigin(hash, required, START, events, w);
  }

  lemma {:induction false} RunReserved(hash: Digest, required: bool, w: World, events: seq<Event>)
    requires AttemptReserved(w) && Run(hash, required, w, events).Some?
    ensures AttemptReserved(Run(hash, required, w, events).value)
    decreases |events|
  {
    if events != [] {
      StepReserved(hash, required, w, events[0]);
      RunReserved(hash, required, Step(hash, required, w, events[0]), events[1..]);
    }
  }

  /** How an attempt on a reserved record goes on: its effect lands once, and it ends by completing the
    record with the digest of the result, by recording a failure or an unverified effect, or in a crash
    that leaves the reservation behind. */
  lemma AttemptExact(hash: Digest, required: bool, w: World, e: Event)
    requires w.attempt.Some? && AttemptReserved(w) && !e.Ask?
    ensures var r := w.record.value;
      Step(hash, required, w, e) ==
        match e
        case Ask(_, _) => w
        case Land => World(Some(r), w.effects + 1, Some(true))
        case Complete(v) =>
          World(Some(r.(phase := COMPLETED, result := Some(hash(Dumps(true, v))))), w.effects, None)
        case FailPreEffect => World(Some(r.(phase := FAILED_PRE_EFFECT)), w.effects, None)
        case LeaveUnverified => World(Some(r.(phase := EFFECT_UNVERIFIED)), w.effects, None)
        case Crash => World(Some(r), w.effects, None)
  {
  }

  /** A request starts an attempt, on a new reservation, exactly when its operation is a token and the
    answer is EXECUTE or RETRY_SAFE; otherwise it changes nothing. */
  lemma AskExact(hash: Digest, required: bool, w: World, q: Request, readBack: ReadBackOutcome)
    ensures var next := Step(hash, required, w, Ask(q, readBack));
      var action := ResolveRetry(hash, w.record, q.operation, q.identity, q.payload, readBack);
      if Token(q.operation) && (action == EXECUTE || action == RETRY_SAFE) then
        && next.effects == w.effects && next.attempt == Some(false) && next.record.Some?
        && BoundTo(hash, next.record.value, q.operation, q.identity, q.payload)
        && next.record.value.phase == RESERVED && next.record.value.readBackRequired == required
      else next == w
  {
  }

  /** What can happen: while no attempt runs any request, with any read-back that does not lie; while
    one runs its effect, once, and its end, which is a failure only before the effect. */
  lemma EventsExact(w: World, e: Event)
    ensures Enabled(w, e) <==>
      match e
      case Ask(_, readBack) =>
        && w.attempt.None? && (readBack == EFFECT_PRESENT ==> w.effects >= 1)
        && (readBack == EFFECT_ABSENT ==> w.effects == 0)
      case Land => w.attempt == Some(false)
      case FailPreEffect => w.attempt == Some(false)
      case Complete(_) => w.attempt.Some?
      case LeaveUnverified => w.attempt.Some?
      case Crash => w.attempt.Some?
  {
  }

  /** A completed record is final, result included. */
  lemma {:induction false} CompletedIsFinal(hash: Digest, required: bool, w: World, events: seq<Event>)
    requires w.attempt.None? && w.record.Some? && w.record.value.phase == COMPLETED
    requires Run(hash, required, w, events).Some?
    ensures Run(hash, required, w, events).value == w
    decreases |events|
  {
    if events != [] {
      assert Step(hash, required, w, events[0]) == w;
      CompletedIsFinal(hash, required, w, events[1..]);
    }
  }
}
