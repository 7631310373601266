/** Typed lock identities and the global acquisition order (src/m365_mcp/typed_locks.py).

  SHA-256 is a parameter `hash`. Where distinct texts must have distinct digests,
  `CollisionFree(hash)` says so. */
module TypedLocks {
  import opened Digests
  import opened Results
  import opened Ordering
  import opened CanonicalJson
  import opened Tokens

  datatype LockScope = PROFILE | ACCOUNT | APPLICATION | CONTAINER | RESOURCE

  datatype ApplicationKey = PLANNER | OUTLOOK

  datatype StateIdentityLevel = ACCOUNT_LEVEL | CONTAINER_LEVEL | RESOURCE_LEVEL

  /** The parts of a state identity that locks use. */
  datatype StateIdentity = StateIdentity(application: ApplicationKey, level: StateIdentityLevel, identityDigest: string)

  datatype TypedLock = TypedLock(
    scope: LockScope,
    accountKeyDigest: Option<string>,
    profileKeyDigest: Option<string>,
    application: Option<ApplicationKey>,
    stateIdentityDigest: Option<string>)
  {
    /** The field combinations that the constructor accepts for each scope. */
    predicate Valid() {
      match scope
      case PROFILE =>
        profileKeyDigest.Some? && accountKeyDigest.None? && application.None? && stateIdentityDigest.None?
      case ACCOUNT =>
        accountKeyDigest.Some? && profileKeyDigest.None? && application.None? && stateIdentityDigest.None?
      case APPLICATION =>
        accountKeyDigest.Some? && application.Some? && profileKeyDigest.None? && stateIdentityDigest.None?
      case _ =>
        accountKeyDigest.Some? && application.Some? && profileKeyDigest.None? && stateIdentityDigest.Some?
    }
  }

  /** Which fields a valid lock carries, field by field. */
  lemma ValidExact(l: TypedLock)
    ensures l.Valid() <==>
      && (l.profileKeyDigest.Some? <==> l.scope.PROFILE?)
      && (l.accountKeyDigest.Some? <==> !l.scope.PROFILE?)
      && (l.application.Some? <==> l.scope.APPLICATION? || l.scope.CONTAINER? || l.scope.RESOURCE?)
      && (l.stateIdentityDigest.Some? <==> l.scope.CONTAINER? || l.scope.RESOURCE?)
  {
  }

  function Rank(s: LockScope): nat {
    match s
    case PROFILE => 0
    case ACCOUNT => 1
    case APPLICATION => 2
    case CONTAINER => 3
    case RESOURCE => 4
  }

  function ScopeName(s: LockScope): string {
    match s
    case PROFILE => "PROFILE"
    case ACCOUNT => "ACCOUNT"
    case APPLICATION => "APPLICATION"
    case CONTAINER => "CONTAINER"
    case RESOURCE => "RESOURCE"
  }

  function ApplicationName(a: ApplicationKey): string {
    match a
    case PLANNER => "planner"
    case OUTLOOK => "outlook"
  }

  function ApplicationText(a: Option<ApplicationKey>): Option<string> {
    match a
    case None => None
    case Some(key) => Some(ApplicationName(key))
  }

  function Field(name: string, value: Option<string>): map<string, Json> {
    match value
    case None => map[]
    case Some(v) => map[name := Str(v)]
  }

  function CanonicalPayload(l: TypedLock): Json {
    Obj(map["scope" := Str(ScopeName(l.scope))]
      + Field("profile_key_digest", l.profileKeyDigest)
      + Field("account_key_digest", l.accountKeyDigest)
      + Field("application", ApplicationText(l.application))
      + Field("state_identity_digest", l.stateIdentityDigest))
  }

  function LockKey(hash: Digest, l: TypedLock): string {
    hash(Dumps(true, CanonicalPayload(l)))
  }

  /** `(int(self.scope), self.lock_key)` as one text: the scope first, then the key. */
  function OrderKey(hash: Digest, l: TypedLock): string {
    [Rank(l.scope) as char] + LockKey(hash, l)
  }

  function OrderOf(hash: Digest): TypedLock -> string {
    (l: TypedLock) => OrderKey(hash, l)
  }

  /** From broad to narrow: a profile, an account, an application, a container, a resource. */
  ghost predicate Broader(a: LockScope, b: LockScope) {
    match a
    case PROFILE => !b.PROFILE?
    case ACCOUNT => b.APPLICATION? || b.CONTAINER? || b.RESOURCE?
    case APPLICATION => b.CONTAINER? || b.RESOURCE?
    case CONTAINER => b.RESOURCE?
    case RESOURCE => false
  }

  /** The global order of acquisition: broader locks first, and by lock key within one scope. */
  ghost predicate AcquiredBefore(hash: Digest, a: TypedLock, b: TypedLock) {
    Broader(a.scope, b.scope) || (a.scope == b.scope && Less(LockKey(hash, a), LockKey(hash, b)))
  }

  ghost predicate InAcquisitionOrder(hash: Digest, r: seq<TypedLock>) {
    forall i, j | 0 <= i < j < |r| :: AcquiredBefore(hash, r[i], r[j])
  }

  /** The text order of order keys is the global order of acquisition. */
  lemma OrderKeyIsPair(hash: Digest, a: TypedLock, b: TypedLock)
    ensures Less(OrderKey(hash, a), OrderKey(hash, b)) <==> AcquiredBefore(hash, a, b)
  {
  }

  function At(m: map<string, Json>, k: string): Option<Json> {
    if k in m then Some(m[k]) else None
  }

  lemma AtField(m: map<string, Json>, name: string, value: Option<string>, k: string)
    ensures At(m + Field(name, value), k)
         == if k == name && value.Some? then Some(Str(value.value)) else At(m, k)
  {
  }

  lemma AtFourFields(m: map<string, Json>, k1: string, k2: string, k3: string, k4: string,
      v1: Option<string>, v2: Option<string>, v3: Option<string>, v4: Option<string>, k: string)
    ensures At(m + Field(k1, v1) + Field(k2, v2) + Field(k3, v3) + Field(k4, v4), k)
         == if k == k4 && v4.Some? then AsJson(v4)
            else if k == k3 && v3.Some? then AsJson(v3)
            else if k == k2 && v2.Some? then AsJson(v2)
            else if k == k1 && v1.Some? then AsJson(v1)
            else At(m, k)
  {
    AtField(m, k1, v1, k);
    AtField(m + Field(k1, v1), k2, v2, k);
    AtField(m + Field(k1, v1) + Field(k2, v2), k3, v3, k);
    AtField(m + Field(k1, v1) + Field(k2, v2) + Field(k3, v3), k4, v4, k);
  }

  /** A payload with four optional fields shows each of them. */
  lemma PayloadAt(k0: string, k1: string, k2: string, k3: string, k4: string, s: Json, v1: Option<string>,
      v2: Option<string>, v3: Option<string>, v4: Option<string>)
    requires Distinct([k0, k1, k2, k3, k4])
    ensures var m := map[k0 := s] + Field(k1, v1) + Field(k2, v2) + Field(k3, v3) + Field(k4, v4);
      && At(m, k0) == Some(s) && At(m, k1) == AsJson(v1) && At(m, k2) == AsJson(v2)
      && At(m, k3) == AsJson(v3) && At(m, k4) == AsJson(v4)
  {
    DistinctFive(k0, k1, k2, k3, k4);
    AtFourFields(map[k0 := s], k1, k2, k3, k4, v1, v2, v3, v4, k0);
    AtFourFields(map[k0 := s], k1, k2, k3, k4, v1, v2, v3, v4, k1);
    AtFourFields(map[k0 := s], k1, k2, k3, k4, v1, v2, v3, v4, k2);
    AtFourFields(map[k0 := s], k1, k2, k3, k4, v1, v2, v3, v4, k3);
    AtFourFields(map[k0 := s], k1, k2, k3, k4, v1, v2, v3, v4, k4);
  }

  lemma DistinctFive(k0: string, k1: string, k2: string, k3: string, k4: string)
    ensures Distinct([k0, k1, k2, k3, k4]) <==>
      && k0 != k1 && k0 != k2 && k0 != k3 && k0 != k4 && k1 != k2 && k1 != k3 && k1 != k4
      && k2 != k3 && k2 != k4 && k3 != k4
  {
    var s := [k0, k1, k2, k3, k4];
    assert s[0] == k0 && s[1] == k1 && s[2] == k2 && s[3] == k3 && s[4] == k4;
  }

  function AsJson(v: Option<string>): Option<Json> {
    match v
    case None => None
    case Some(t) => Some(Str(t))
  }

  lemma LockPayloadAt(l: TypedLock)
    ensures var m := CanonicalPayload(l).fields;
      && At(m, "scope") == Some(Str(ScopeName(l.scope)))
      && At(m, "profile_key_digest") == AsJson(l.profileKeyDigest)
      && At(m, "account_key_digest") == AsJson(l.accountKeyDigest)
      && At(m, "application") == AsJson(ApplicationText(l.application))
      && At(m, "state_identity_digest") == AsJson(l.stateIdentityDigest)
  {
    assert "profile_key_digest"[0] == 'p' && "account_key_digest"[0] == 'a';
    DistinctFive("scope", "profile_key_digest", "account_key_digest", "application", "state_identity_digest");
    PayloadAt("scope", "profile_key_digest", "account_key_digest", "application", "state_identity_digest",
      Str(ScopeName(l.scope)), l.profileKeyDigest, l.accountKeyDigest, ApplicationText(l.application),
      l.stateIdentityDigest);
  }

  /** A lock key is the hash of a text in printable ASCII that reads back as the payload, which names the
    scope and the application. */
  lemma LockTextExact(hash: Digest, l: TypedLock)
    ensures exists text ::
      LockKey(hash, l) == hash(text) && Printable(text) && Parse(text) == Some((CanonicalPayload(l), ""))
    ensures At(CanonicalPayload(l).fields, "scope") == Some(Str(
      match l.scope
      case PROFILE => "PROFILE"
      case ACCOUNT => "ACCOUNT"
      case APPLICATION => "APPLICATION"
      case CONTAINER => "CONTAINER"
      case RESOURCE => "RESOURCE"))
    ensures At(CanonicalPayload(l).fields, "application") ==
      match l.application
      case None => None
      case Some(PLANNER) => Some(Str("planner"))
      case Some(OUTLOOK) => Some(Str("outlook"))
  {
    CanonicalText(CanonicalPayload(l));
    LockPayloadAt(l);
  }

  lemma NamesInjective(s: LockScope, t: LockScope, a: Option<ApplicationKey>, b: Option<ApplicationKey>)
    ensures ScopeName(s) == ScopeName(t) ==> s == t
    ensures ApplicationText(a) == ApplicationText(b) ==> a == b
  {
  }

  /** The payload tells all locks apart. */
  lemma PayloadInjective(a: TypedLock, b: TypedLock)
    requires CanonicalPayload(a) == CanonicalPayload(b)
    ensures a == b
  {
    LockPayloadAt(a);
    LockPayloadAt(b);
    NamesInjective(a.scope, b.scope, a.application, b.application);
  }

  lemma LockKeyInjective(hash: Digest, a: TypedLock, b: TypedLock)
    requires CollisionFree(hash) && LockKey(hash, a) == LockKey(hash, b)
    ensures a == b
  {
    DumpsInjective(true, CanonicalPayload(a), CanonicalPayload(b));
    PayloadInjective(a, b);
  }

  // ----- constructors

  datatype LockError = EmptyKey | AccountLevelIdentity

  /** `_opaque_digest`; None for an empty key. */
  function OpaqueDigest(hash: Digest, key: string): Option<string> {
    if Strip(key) == "" then None else Some(hash(Strip(key)))
  }

  function ProfileLock(hash: Digest, profileKey: string): Result<TypedLock, LockError> {
    match OpaqueDigest(hash, profileKey)
    case None => Err(EmptyKey)
    case Some(digest) => Ok(TypedLock(PROFILE, None, Some(digest), None, None))
  }

  function AccountLock(hash: Digest, accountKey: string): Result<TypedLock, LockError> {
    match OpaqueDigest(hash, accountKey)
    case None => Err(EmptyKey)
    case Some(digest) => Ok(TypedLock(ACCOUNT, Some(digest), None, None, None))
  }

  function ApplicationLock(hash: Digest, accountKey: string, application: ApplicationKey)
    : Result<TypedLock, LockError>
  {
    match OpaqueDigest(hash, accountKey)
    case None => Err(EmptyKey)
    case Some(digest) => Ok(TypedLock(APPLICATION, Some(digest), None, Some(application), None))
  }

  function StateLock(hash: Digest, accountKey: string, identity: StateIdentity): Result<TypedLock, LockError> {
    if identity.level == ACCOUNT_LEVEL then Err(AccountLevelIdentity)
    else
      match OpaqueDigest(hash, accountKey)
      case None => Err(EmptyKey)
      case Some(digest) =>
        var scope := if identity.level == CONTAINER_LEVEL then CONTAINER else RESOURCE;
        Ok(TypedLock(scope, Some(digest), None, Some(identity.application), Some(identity.identityDigest)))
  }

  /** What a caller asks to be locked. */
  datatype Target =
    | ProfileTarget(key: string)
    | AccountTarget(key: string)
    | ApplicationTarget(key: string, application: ApplicationKey)
    | StateTarget(key: string, identity: StateIdentity)
  {
    function Lock(hash: Digest): Result<TypedLock, LockError> {
      match this
      case ProfileTarget(key) => ProfileLock(hash, key)
      case AccountTarget(key) => AccountLock(hash, key)
      case ApplicationTarget(key, application) => ApplicationLock(hash, key, application)
      case StateTarget(key, identity) => StateLock(hash, key, identity)
    }

    /** The target without the blanks around its key. */
    function Trimmed(): Target {
      this.(key := Strip(key))
    }
  }

  /** A lock is refused for a state identity of the account level, and otherwise exactly for a blank key.
    It carries the digest of the key without the blanks around it, and what the target names. */
  lemma LockExact(hash: Digest, a: Target)
    ensures var r := a.Lock(hash);
      var accountLevel := a.StateTarget? && a.identity.level.ACCOUNT_LEVEL?;
      && (r == Err(AccountLevelIdentity) <==> accountLevel)
      && (r == Err(EmptyKey) <==> !accountLevel && Strip(a.key) == "")
      && (r.Ok? ==>
        && r.value.profileKeyDigest == (if a.ProfileTarget? then Some(hash(Strip(a.key))) else None)
        && r.value.accountKeyDigest == (if a.ProfileTarget? then None else Some(hash(Strip(a.key))))
        && r.value.application ==
             (if a.ApplicationTarget? then Some(a.application)
              else if a.StateTarget? then Some(a.identity.application) else None)
        && r.value.stateIdentityDigest == (if a.StateTarget? then Some(a.identity.identityDigest) else None))
  {
  }

  lemma SameLockSameTarget(hash: Digest, a: Target, b: Target)
    requires CollisionFree(hash) && a.Lock(hash).Ok? && a.Lock(hash) == b.Lock(hash)
    ensures a.Trimmed() == b.Trimmed()
  {
  }

  lemma TrimmedLock(hash: Digest, a: Target, b: Target)
    requires a.Trimmed() == b.Trimmed()
    ensures a.Lock(hash) == b.Lock(hash)
  {
  }

  lemma TargetLockValid(hash: Digest, a: Target)
    ensures a.Lock(hash).Ok? ==> a.Lock(hash).value.Valid()
  {
  }

  /** The constructors build valid locks, and two targets get the same lock key exactly when they
    are the same target, up to blanks around the key. */
  lemma TargetsDistinct(hash: Digest, a: Target, b: Target, l: TypedLock, m: TypedLock)
    requires CollisionFree(hash) && a.Lock(hash) == Ok(l) && b.Lock(hash) == Ok(m)
    ensures l.Valid()
    ensures LockKey(hash, l) == LockKey(hash, m) <==> a.Trimmed() == b.Trimmed()
  {
    TargetLockValid(hash, a);
    if LockKey(hash, l) == LockKey(hash, m) {
      LockKeyInjective(hash, l, m);
      SameLockSameTarget(hash, a, b);
    }
    if a.Trimmed() == b.Trimmed() {
      TrimmedLock(hash, a, b);
    }
  }

  // ----- canonical_lock_order

  /** `by_key`: the last lock with each key. */
  function ByKey(hash: Digest, locks: seq<TypedLock>): map<string, TypedLock> {
    if locks == [] then map[]
    else
      var last := locks[|locks| - 1];
      ByKey(hash, locks[..|locks| - 1])[LockKey(hash, last) := last]
  }

  lemma {:induction false} ByKeyExact(hash: Digest, locks: seq<TypedLock>)
    ensures forall k | k in ByKey(hash, locks) ::
      ByKey(hash, locks)[k] in locks && LockKey(hash, ByKey(hash, locks)[k]) == k
    ensures forall l | l in locks :: LockKey(hash, l) in ByKey(hash, locks)
  {
    if locks != [] {
      var front := locks[..|locks| - 1];
      ByKeyExact(hash, front);
      assert locks == front + [locks[|locks| - 1]];
    }
  }

  lemma ByKeyOrderable(hash: Digest, locks: seq<TypedLock>)
    ensures InjectiveOn(OrderOf(hash), ByKey(hash, locks).Values)
  {
    ByKeyExact(hash, locks);
    var m := ByKey(hash, locks);
    forall x, y | x in m.Values && y in m.Values && OrderOf(hash)(x) == OrderOf(hash)(y) ensures x == y {
      assert OrderKey(hash, x)[1..] == LockKey(hash, x) && OrderKey(hash, y)[1..] == LockKey(hash, y);
    }
  }

  /** The result of `canonical_lock_order`. */
  function CanonicalOrder(hash: Digest, locks: seq<TypedLock>): seq<TypedLock> {
    ByKeyOrderable(hash, locks);
    SortBy(OrderOf(hash), ByKey(hash, locks).Values)
  }

  function LockKeys(hash: Digest, locks: set<TypedLock>): set<string> {
    set l | l in locks :: LockKey(hash, l)
  }

  lemma ByKeyValues(hash: Digest, locks: seq<TypedLock>)
    ensures ByKey(hash, locks).Values <= Elements(locks)
    ensures LockKeys(hash, ByKey(hash, locks).Values) == LockKeys(hash, Elements(locks))
  {
    ByKeyExact(hash, locks);
    var m := ByKey(hash, locks);
    forall k | k in LockKeys(hash, Elements(locks)) ensures k in LockKeys(hash, m.Values) {
      var l :| l in Elements(locks) && LockKey(hash, l) == k;
      assert m[k] in m.Values && LockKey(hash, m[k]) == k;
    }
  }

  lemma SameKeysSameLocks(hash: Digest, a: set<TypedLock>, b: set<TypedLock>)
    requires CollisionFree(hash) && LockKeys(hash, b) <= LockKeys(hash, a)
    ensures b <= a
  {
    forall l | l in b ensures l in a {
      assert LockKey(hash, l) in LockKeys(hash, a);
      var x :| x in a && LockKey(hash, x) == LockKey(hash, l);
      LockKeyInjective(hash, x, l);
    }
  }

  /** From broad to narrow and by lock key within a scope, hence without duplicates, and with exactly
    the lock keys of the input; when no digests collide, with exactly its locks. */
  lemma CanonicalOrderExact(hash: Digest, locks: seq<TypedLock>)
    ensures InAcquisitionOrder(hash, CanonicalOrder(hash, locks))
    ensures IncreasingBy(OrderOf(hash), CanonicalOrder(hash, locks)) && Distinct(CanonicalOrder(hash, locks))
    ensures Elements(CanonicalOrder(hash, locks)) <= Elements(locks)
    ensures LockKeys(hash, Elements(CanonicalOrder(hash, locks))) == LockKeys(hash, Elements(locks))
    ensures CollisionFree(hash) ==> Elements(CanonicalOrder(hash, locks)) == Elements(locks)
  {
    ByKeyOrderable(hash, locks);
    ByKeyValues(hash, locks);
    SortByIncreasing(OrderOf(hash), ByKey(hash, locks).Values);
    KeyOrderDistinct(OrderOf(hash), CanonicalOrder(hash, locks));
    KeyOrderIsAcquisitionOrder(hash, CanonicalOrder(hash, locks));
    if CollisionFree(hash) {
      SameKeysSameLocks(hash, Elements(CanonicalOrder(hash, locks)), Elements(locks));
    }
  }

  /** `canonical_lock_order`. */
  method CanonicalLockOrder(hash: Digest, locks: seq<TypedLock>) returns (r: seq<TypedLock>)
    ensures r == CanonicalOrder(hash, locks)
    ensures InAcquisitionOrder(hash, r)
    ensures LockKeys(hash, Elements(r)) == LockKeys(hash, Elements(locks))
  {
    var byKey: map<string, TypedLock> := map[];
    for i := 0 to |locks|
      invariant byKey == ByKey(hash, locks[..i])
    {
      assert locks[..i + 1][..i] == locks[..i];
      byKey := byKey[LockKey(hash, locks[i]) := locks[i]];
    }
    assert locks[..|locks|] == locks;
    r := SortedLocks(hash, locks, byKey);
    CanonicalOrderExact(hash, locks);
  }

  /** `sorted(by_key.values(), key=...)` */
  function SortedLocks(hash: Digest, ghost locks: seq<TypedLock>, byKey: map<string, TypedLock>): (r: seq<TypedLock>)
    requires byKey == ByKey(hash, locks)
    ensures r == CanonicalOrder(hash, locks)
  {
    ByKeyOrderable(hash, locks);
    SortBy(OrderOf(hash), byKey.Values)
  }

  lemma KeyOrderIsAcquisitionOrder(hash: Digest, r: seq<TypedLock>)
    requires IncreasingBy(OrderOf(hash), r)
    ensures InAcquisitionOrder(hash, r)
  {
    forall i, j | 0 <= i < j < |r| ensures AcquiredBefore(hash, r[i], r[j]) {
      assert Less(OrderOf(hash)(r[i]), OrderOf(hash)(r[j]));
      OrderKeyIsPair(hash, r[i], r[j]);
    }
  }

  /** What a lies around: a profile around everything else, an account around its applications and
    states, an application around states, a container around resources. */
  ghost predicate Encloses(a: Target, b: Target) {
    match a
    case ProfileTarget(_) => !b.ProfileTarget?
    case AccountTarget(_) => b.ApplicationTarget? || b.StateTarget?
    case ApplicationTarget(_, _) => b.StateTarget?
    case StateTarget(_, identity) =>
      identity.level.CONTAINER_LEVEL? && b.StateTarget? && b.identity.level.RESOURCE_LEVEL?
  }

  lemma EnclosingBroader(hash: Digest, a: Target, b: Target, l: TypedLock, m: TypedLock)
    requires a.Lock(hash) == Ok(l) && b.Lock(hash) == Ok(m) && Encloses(a, b)
    ensures Broader(l.scope, m.scope)
  {
  }

  lemma NarrowerNotBefore(hash: Digest, a: TypedLock, b: TypedLock)
    requires Broader(a.scope, b.scope)
    ensures a != b && !AcquiredBefore(hash, b, a)
  {
  }

  lemma BroaderFirst(hash: Digest, r: seq<TypedLock>, i: nat, j: nat)
    requires InAcquisitionOrder(hash, r) && i < |r| && j < |r| && Broader(r[i].scope, r[j].scope)
    ensures i < j
  {
    NarrowerNotBefore(hash, r[i], r[j]);
  }

  /** In every canonical order the lock of a target comes before the locks of what it encloses,
    whatever the keys. */
  lemma EnclosingFirst(hash: Digest, locks: seq<TypedLock>, r: seq<TypedLock>, a: Target, b: Target, i: nat, j: nat)
    requires r == CanonicalOrder(hash, locks) && i < |r| && j < |r|
    requires a.Lock(hash) == Ok(r[i]) && b.Lock(hash) == Ok(r[j]) && Encloses(a, b)
    ensures i < j
  {
    CanonicalOrderExact(hash, locks);
    EnclosingBroader(hash, a, b, r[i], r[j]);
    BroaderFirst(hash, r, i, j);
  }

  /** The input matters only as a set, and ordering twice changes nothing. */
  lemma CanonicalOrderStable(hash: Digest, a: seq<TypedLock>, b: seq<TypedLock>)
    requires CollisionFree(hash) && Elements(a) == Elements(b)
    ensures CanonicalOrder(hash, a) == CanonicalOrder(hash, b)
    ensures CanonicalOrder(hash, CanonicalOrder(hash, a)) == CanonicalOrder(hash, a)
  {
    CanonicalOrderExact(hash, a);
    CanonicalOrderExact(hash, b);
    InKeyOrderUnique(OrderOf(hash), CanonicalOrder(hash, a), CanonicalOrder(hash, b));
    var r := CanonicalOrder(hash, a);
    CanonicalOrderExact(hash, r);
    InKeyOrderUnique(OrderOf(hash), CanonicalOrder(hash, r), r);
  }
}
