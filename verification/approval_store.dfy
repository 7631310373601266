/** Single-use approvals (src/m365_mcp/approval_store.py): the store as an object, and the same
  transactions interleaved statement by statement.

  The table is a map keyed by approval id. Times are instants; the clock and the random token
  are arguments. */
module Approvals {
  import opened Results

  datatype PlanDigest = PlanDigest(schema: string, algorithm: string, value: string, nodeCount: int)

  datatype Row = Row(digest: PlanDigest, createdAt: int, expiresAt: Option<int>, consumedAt: Option<int>)

  type Table = map<string, Row>

  datatype Status = CONSUMED | NOT_FOUND | DIGEST_MISMATCH | ALREADY_CONSUMED | EXPIRED

  datatype Consumption = Consumption(status: Status, id: string, at: Option<int>)

  datatype Grant = Grant(id: string, digest: PlanDigest, createdAt: int, expiresAt: Option<int>)

  datatype Error = InvalidId | ExpiryNotLater | AlreadyExists

  predicate UrlSafe(c: char) {
    'a' <= c <= 'z' || 'A' <= c <= 'Z' || '0' <= c <= '9' || c == '-' || c == '_'
  }

  predicate ValidId(id: string) {
    16 <= |id| <= 128 && forall c | c in id :: UrlSafe(c)
  }

  // ----- the atomic map that the store stands for

  /** Putting a grant into the table. Both integrity constraints raise the same error. */
  function AtomicIssue(t: Table, g: Grant): (Table, Result<Grant, Error>) {
    if !ValidId(g.id) then (t, Err(InvalidId))
    else if g.expiresAt.Some? && g.expiresAt.value <= g.createdAt then (t, Err(ExpiryNotLater))
    else if g.id in t || g.digest.nodeCount < 2 then (t, Err(AlreadyExists))
    else (t[g.id := Row(g.digest, g.createdAt, g.expiresAt, None)], Ok(g))
  }

  datatype Call = Call(id: string, digest: PlanDigest, at: int)

  /** The grant is there for this digest, and the attempt is strictly before its expiry. */
  predicate Covers(t: Table, c: Call) {
    c.id in t && t[c.id].digest == c.digest && (t[c.id].expiresAt.Some? ==> c.at < t[c.id].expiresAt.value)
  }

  /** The grant can be spent by this attempt. */
  predicate Spendable(t: Table, c: Call) {
    Covers(t, c) && t[c.id].consumedAt.None?
  }

  function Spent(t: Table, c: Call): Table
    requires c.id in t
  {
    t[c.id := t[c.id].(consumedAt := Some(c.at))]
  }

  /** The refusal that reading the row leads to, if any, in the order of the checks. */
  function Refusal(t: Table, c: Call): Option<Consumption> {
    if c.id !in t then Some(Consumption(NOT_FOUND, c.id, None))
    else
      var row := t[c.id];
      if row.digest != c.digest then Some(Consumption(DIGEST_MISMATCH, c.id, None))
      else if row.consumedAt.Some? then Some(Consumption(ALREADY_CONSUMED, c.id, row.consumedAt))
      else if row.expiresAt.Some? && c.at >= row.expiresAt.value then Some(Consumption(EXPIRED, c.id, None))
      else None
  }

  /** Spending a grant in one indivisible step. */
  function AtomicConsume(t: Table, c: Call): (Table, Consumption) {
    match Refusal(t, c)
    case Some(refusal) => (t, refusal)
    case None => (Spent(t, c), Consumption(CONSUMED, c.id, Some(c.at)))
  }

  /** When a grant is issued, with each error in its order. What is returned and stored is the grant as
    it was asked for, unspent; it is spendable by exactly the attempts that name it with its digest
    before its expiry, nothing else becomes or stops being spendable, and a refused issue changes
    nothing. */
  lemma IssueExact(t: Table, g: Grant, c: Call)
    ensures var (u, r) := AtomicIssue(t, g);
      var wellFormed := 16 <= |g.id| <= 128 && forall ch | ch in g.id ::
        'a' <= ch <= 'z' || 'A' <= ch <= 'Z' || '0' <= ch <= '9' || ch == '-' || ch == '_';
      var timely := g.expiresAt.None? || g.createdAt < g.expiresAt.value;
      && (r == Err(InvalidId) <==> !wellFormed)
      && (r == Err(ExpiryNotLater) <==> wellFormed && !timely)
      && (r == Err(AlreadyExists) <==> wellFormed && timely && (g.id in t || g.digest.nodeCount < 2))
      && (r.Err? ==> u == t)
      && (r.Ok? ==>
        && r.value == g && u.Keys == t.Keys + {g.id} && (forall id | id in t :: u[id] == t[id])
        && u[g.id].digest == g.digest && u[g.id].createdAt == g.createdAt
        && u[g.id].expiresAt == g.expiresAt && u[g.id].consumedAt == None
        && (Spendable(u, c) <==>
          if c.id == g.id then c.digest == g.digest && (g.expiresAt.Some? ==> c.at < g.expiresAt.value)
          else Spendable(t, c)))
  {
  }

  /** Each outcome of an attempt, exactly. Only a success changes the table, and only the
    consumption time of that grant; the answer names the grant and, if it is spent, when. */
  lemma ConsumeExact(t: Table, c: Call)
    ensures var (u, r) := AtomicConsume(t, c);
      var matches := c.id in t && t[c.id].digest == c.digest;
      var unspent := c.id in t && t[c.id].consumedAt.None?;
      var inTime := c.id in t && (t[c.id].expiresAt.None? || c.at < t[c.id].expiresAt.value);
      && (r.status == NOT_FOUND <==> c.id !in t)
      && (r.status == DIGEST_MISMATCH <==> c.id in t && !matches)
      && (r.status == ALREADY_CONSUMED <==> matches && !unspent)
      && (r.status == EXPIRED <==> matches && unspent && !inTime)
      && (r.status == CONSUMED <==> matches && unspent && inTime)
      && (r.status != CONSUMED ==> u == t)
      && (r.status == CONSUMED ==> u == t[c.id := t[c.id].(consumedAt := Some(c.at))])
      && r.id == c.id
      && r.at == (if r.status == CONSUMED then Some(c.at)
                  else if r.status == ALREADY_CONSUMED then t[c.id].consumedAt else None)
  {
  }

  /** An attempt succeeds exactly when the grant is spendable, and then never again, for
    anyone. */
  lemma ConsumeOnce(t: Table, c: Call, d: Call)
    requires c.id == d.id
    ensures AtomicConsume(t, c).1.status == CONSUMED <==> Spendable(t, c)
    ensures AtomicConsume(t, c).1.status == CONSUMED ==>
      var again := AtomicConsume(AtomicConsume(t, c).0, d).1;
      again == if d.digest == c.digest then Consumption(ALREADY_CONSUMED, d.id, Some(c.at))
               else Consumption(DIGEST_MISMATCH, d.id, None)
  {
  }

  // ----- the store

  class ApprovalStore {
    var rows: Table

    /** Opens a store on what its file holds; a new file holds nothing. */
    constructor (stored: Table)
      ensures rows == stored
    {
      rows := stored;
    }

    method Issue(digest: PlanDigest, approvalId: Option<string>, token: string, createdAt: Option<int>,
        expiresAt: Option<int>, now: int)
      returns (r: Result<Grant, Error>)
      modifies this
      ensures var id := if approvalId.GetOr("") == "" then token else approvalId.value;
        (rows, r) == AtomicIssue(old(rows), Grant(id, digest, createdAt.GetOr(now), expiresAt))
    {
      var id := token;
      if approvalId.Some? && approvalId.value != "" {
        id := approvalId.value;
      }
      if !ValidId(id) {
        return Err(InvalidId);
      }
      var created := createdAt.GetOr(now);
      if expiresAt.Some? && expiresAt.value <= created {
        return Err(ExpiryNotLater);
      }
      if id in rows || digest.nodeCount < 2 {
        return Err(AlreadyExists);
      }
      rows := rows[id := Row(digest, created, expiresAt, None)];
      r := Ok(Grant(id, digest, created, expiresAt));
    }

    method Consume(id: string, digest: PlanDigest, consumedAt: Option<int>, now: int)
      returns (r: Result<Consumption, Error>)
      modifies this
      ensures !ValidId(id) ==> r == Err(InvalidId) && rows == old(rows)
      ensures ValidId(id) ==>
        var atomic := AtomicConsume(old(rows), Call(id, digest, consumedAt.GetOr(now)));
        rows == atomic.0 && r == Ok(atomic.1)
    {
      if !ValidId(id) {
        return Err(InvalidId);
      }
      var at := consumedAt.GetOr(now);
      if id !in rows {
        return Ok(Consumption(NOT_FOUND, id, None));
      }
      var row := rows[id];
      if !(row.digest.schema == digest.schema && row.digest.algorithm == digest.algorithm
           && row.digest.value == digest.value && row.digest.nodeCount == digest.nodeCount) {
        return Ok(Consumption(DIGEST_MISMATCH, id, None));
      }
      if row.consumedAt.Some? {
        return Ok(Consumption(ALREADY_CONSUMED, id, row.consumedAt));
      }
      if row.expiresAt.Some? && at >= row.expiresAt.value {
        return Ok(Consumption(EXPIRED, id, None));
      }
      var rowcount := 0;
      if rows[id].consumedAt.None? && rows[id].digest == digest {
        rows := rows[id := rows[id].(consumedAt := Some(at))];
        rowcount := 1;
      }
      if rowcount != 1 {
        return Ok(Consumption(ALREADY_CONSUMED, id, None));
      }
      r := Ok(Consumption(CONSUMED, id, Some(at)));
    }
  }
}

/** The statements of many `consume` and `issue` calls, interleaved in any way, with crashes.

  `locked` says whether BEGIN IMMEDIATE opens the transaction. When it does, the connection holds
  the write lock from BEGIN to COMMIT or ROLLBACK, and its UPDATE takes effect at COMMIT.
  When it does not, every statement stands alone and takes effect at once. */
module ApprovalProtocol {
  import opened Results
  import opened Approvals

  datatype Outcome = Returned(result: Consumption) | Raised

  /** `Settled`: the grant is spent in the table, and the answer has not been given yet. */
  datatype Pc = Waiting | Begun | Checked | Written | Settled | Done(outcome: Outcome)

  /** One `consume` call with a well-formed id, on its own connection. */
  datatype Session = Session(call: Call, pc: Pc)

  datatype State = State(rows: Table, lock: Option<nat>, sessions: seq<Session>)

  datatype Event =
    | Begin(who: nat) | Select(who: nat) | Update(who: nat) | Commit(who: nat) | Answer(who: nat) | Crash(who: nat)
    | Issue(grant: Grant)

  function Start(rows: Table, calls: seq<Call>): State {
    State(rows, None, seq(|calls|, i requires 0 <= i < |calls| => Session(calls[i], Waiting)))
  }

  predicate Enabled(locked: bool, s: State, e: Event) {
    match e
    case Issue(_) => locked ==> s.lock.None?
    case Begin(i) => i < |s.sessions| && s.sessions[i].pc.Waiting? && (locked ==> s.lock.None?)
    case Select(i) => i < |s.sessions| && s.sessions[i].pc.Begun?
    case Update(i) => i < |s.sessions| && s.sessions[i].pc.Checked?
    case Commit(i) => i < |s.sessions| && s.sessions[i].pc.Written?
    case Answer(i) => i < |s.sessions| && s.sessions[i].pc.Settled?
    case Crash(i) => i < |s.sessions| && !s.sessions[i].pc.Done?
  }

  function Goto(s: State, i: nat, pc: Pc): State
    requires i < |s.sessions|
  {
    s.(sessions := s.sessions[i := s.sessions[i].(pc := pc)])
  }

  /** A transaction of its own ends. */
  function Leave(s: State, i: nat, pc: Pc): State
    requires i < |s.sessions|
  {
    Goto(s, i, pc).(lock := if s.lock == Some(i) then None else s.lock)
  }

  function Finish(s: State, i: nat, outcome: Outcome): State
    requires i < |s.sessions|
  {
    Leave(s, i, Done(outcome))
  }

  function Won(c: Call): Outcome {
    Returned(Consumption(CONSUMED, c.id, Some(c.at)))
  }

  function Fallback(c: Call): Outcome {
    Returned(Consumption(ALREADY_CONSUMED, c.id, None))
  }

  /** The WHERE clause of the UPDATE. */
  predicate Matched(t: Table, c: Call) {
    c.id in t && t[c.id].consumedAt.None? && t[c.id].digest == c.digest
  }

  function Step(locked: bool, s: State, e: Event): State
    requires Enabled(locked, s, e)
  {
    match e
    case Issue(g) => s.(rows := AtomicIssue(s.rows, g).0)
    case Begin(i) => Goto(s, i, Begun).(lock := if locked then Some(i) else s.lock)
    case Select(i) =>
      (match Refusal(s.rows, s.sessions[i].call)
       case Some(refusal) => Finish(s, i, Returned(refusal))
       case None => Goto(s, i, Checked))
    case Update(i) =>
      var c := s.sessions[i].call;
      if !Matched(s.rows, c) then Finish(s, i, Fallback(c))
      else if locked then Goto(s, i, Written)
      else Leave(s, i, Settled).(rows := Spent(s.rows, c))
    case Commit(i) =>
      var c := s.sessions[i].call;
      Leave(s, i, Settled).(rows := if c.id in s.rows then Spent(s.rows, c) else s.rows)
    case Answer(i) => Finish(s, i, Won(s.sessions[i].call))
    case Crash(i) => Finish(s, i, Raised)
  }

  function Run(locked: bool, s: State, events: seq<Event>): Option<State>
    decreases |events|
  {
    if events == [] then Some(s)
    else if Enabled(locked, s, events[0]) then Run(locked, Step(locked, s, events[0]), events[1..])
    else None
  }

  /** How far a call has come. */
  ghost function Stage(pc: Pc): nat {
    match pc
    case Waiting => 0
    case Begun => 1
    case Checked => 2
    case Written => 3
    case Settled => 4
    case Done(_) => 5
  }

  ghost predicate Moves(e: Event, i: nat) {
    !e.Issue? && e.who == i
  }

  /** A call only goes forward, and only by its own steps: it begins once and answers once. */
  lemma StepAdvances(locked: bool, s: State, e: Event, i: nat)
    requires Enabled(locked, s, e) && i < |s.sessions|
    ensures var t := Step(locked, s, e);
      && |t.sessions| == |s.sessions| && t.sessions[i].call == s.sessions[i].call
      && (Moves(e, i) ==> Stage(t.sessions[i].pc) > Stage(s.sessions[i].pc))
      && (!Moves(e, i) ==> t.sessions[i] == s.sessions[i])
  {
  }

  // ----- grants are immutable

  /** Grants stay, keep what they were issued with, and are spent at most once. */
  ghost predicate Grows(t: Table, u: Table) {
    forall id | id in t ::
      && id in u
      && u[id] == t[id].(consumedAt := u[id].consumedAt)
      && (t[id].consumedAt.Some? ==> u[id].consumedAt == t[id].consumedAt)
  }

  lemma GrowsTransitive(t: Table, u: Table, v: Table)
    requires Grows(t, u) && Grows(u, v)
    ensures Grows(t, v)
  {
  }

  // ----- the invariant

  predicate InTransaction(pc: Pc) {
    pc.Begun? || pc.Checked? || pc.Written?
  }

  ghost predicate LockInv(locked: bool, s: State) {
    if locked then
      forall i | 0 <= i < |s.sessions| :: InTransaction(s.sessions[i].pc) <==> s.lock == Some(i)
    else
      s.lock.None? && forall i | 0 <= i < |s.sessions| :: !s.sessions[i].pc.Written?
  }

  predicate IsWinner(p: Session) {
    p.pc.Done? && p.pc.outcome.Returned? && p.pc.outcome.result.status == CONSUMED
  }

  /** What the table says about a session, given how far it has come. */
  ghost predicate SessionInv(locked: bool, t: Table, p: Session) {
    match p.pc
    case Waiting => true
    case Begun => true
    case Checked => Covers(t, p.call) && (locked ==> Spendable(t, p.call))
    case Written => Spendable(t, p.call)
    case Settled => Covers(t, p.call) && t[p.call.id].consumedAt == Some(p.call.at)
    case Done(outcome) =>
      && (IsWinner(p) ==> Covers(t, p.call) && t[p.call.id].consumedAt == Some(p.call.at) && outcome == Won(p.call))
      && (locked ==> outcome != Fallback(p.call))
  }

  ghost predicate SessionsInv(locked: bool, s: State) {
    forall i | 0 <= i < |s.sessions| :: SessionInv(locked, s.rows, s.sessions[i])
  }

  /** The session has spent its grant, and its answer is given or still to come. */
  predicate HasSpent(p: Session) {
    p.pc.Settled? || IsWinner(p)
  }

  /** At most one call wins each approval. */
  ghost predicate OneWinner(s: State) {
    forall i, j | 0 <= i < j < |s.sessions| && HasSpent(s.sessions[i]) && HasSpent(s.sessions[j]) ::
      s.sessions[i].call.id != s.sessions[j].call.id
  }

  ghost predicate Inv(locked: bool, s: State) {
    LockInv(locked, s) && SessionsInv(locked, s) && OneWinner(s)
  }

  lemma StartInv(locked: bool, rows: Table, calls: seq<Call>)
    ensures Inv(locked, Start(rows, calls))
  {
  }

  lemma StepLock(locked: bool, s: State, e: Event)
    requires LockInv(locked, s) && Enabled(locked, s, e)
    ensures LockInv(locked, Step(locked, s, e))
  {
  }

  lemma StepGrows(locked: bool, s: State, e: Event)
    requires Inv(locked, s) && Enabled(locked, s, e)
    ensures Grows(s.rows, Step(locked, s, e).rows)
  {
    if e.Commit? {
      assert SessionInv(locked, s.rows, s.sessions[e.who]);
    }
  }

  /** The table changes only when a grant is issued or spent, and in the locked protocol never
    while another session is inside its transaction. */
  lemma OthersKept(locked: bool, s: State, e: Event, i: nat)
    requires Inv(locked, s) && Enabled(locked, s, e)
    requires i < |s.sessions| && (e.Issue? || e.who != i)
    ensures SessionInv(locked, Step(locked, s, e).rows, s.sessions[i])
  {
    StepGrows(locked, s, e);
    assert SessionInv(locked, s.rows, s.sessions[i]);
    if !e.Issue? {
      assert SessionInv(locked, s.rows, s.sessions[e.who]);
    }
  }

  lemma SelfKept(locked: bool, s: State, e: Event)
    requires Inv(locked, s) && Enabled(locked, s, e) && !e.Issue?
    ensures SessionInv(locked, Step(locked, s, e).rows, Step(locked, s, e).sessions[e.who])
  {
    assert SessionInv(locked, s.rows, s.sessions[e.who]);
  }

  /** A session that settles in this step spends a grant that was not spent before it. */
  lemma SettlingSpends(locked: bool, s: State, e: Event)
    requires Inv(locked, s) && Enabled(locked, s, e) && !e.Issue?
    requires Step(locked, s, e).sessions[e.who].pc.Settled?
    ensures Spendable(s.rows, s.sessions[e.who].call)
    ensures Step(locked, s, e).rows == Spent(s.rows, s.sessions[e.who].call)
  {
    assert SessionInv(locked, s.rows, s.sessions[e.who]);
  }

  /** A winning answer comes only from a settled session. */
  lemma WinnerWasSettled(locked: bool, s: State, e: Event)
    requires Enabled(locked, s, e) && !e.Issue? && IsWinner(Step(locked, s, e).sessions[e.who])
    ensures s.sessions[e.who].pc.Settled? && Step(locked, s, e).rows == s.rows
  {
  }

  lemma StepOneWinner(locked: bool, s: State, e: Event)
    requires Inv(locked, s) && Enabled(locked, s, e)
    ensures OneWinner(Step(locked, s, e))
  {
    var t := Step(locked, s, e);
    if !e.Issue? && t.sessions[e.who].pc.Settled? {
      SettlingSpends(locked, s, e);
      forall k | 0 <= k < |s.sessions| && HasSpent(s.sessions[k])
        ensures s.sessions[k].call.id != s.sessions[e.who].call.id
      {
        assert SessionInv(locked, s.rows, s.sessions[k]);
      }
    } else if !e.Issue? && IsWinner(t.sessions[e.who]) {
      WinnerWasSettled(locked, s, e);
    }
  }

  lemma StepInv(locked: bool, s: State, e: Event)
    requires Inv(locked, s) && Enabled(locked, s, e)
    ensures Inv(locked, Step(locked, s, e))
  {
    StepLock(locked, s, e);
    StepOneWinner(locked, s, e);
    var t := Step(locked, s, e);
    forall i | 0 <= i < |t.sessions| ensures SessionInv(locked, t.rows, t.sessions[i]) {
      if e.Issue? || e.who != i {
        OthersKept(locked, s, e, i);
      } else {
        SelfKept(locked, s, e);
      }
    }
  }

  lemma {:induction false} RunInv(locked: bool, s: State, events: seq<Event>)
    requires Inv(locked, s) && Run(locked, s, events).Some?
    ensures Inv(locked, Run(locked, s, events).value)
    ensures Grows(s.rows, Run(locked, s, events).value.rows)
    decreases |events|
  {
    if events != [] {
      var t := Step(locked, s, events[0]);
      StepInv(locked, s, events[0]);
      StepGrows(locked, s, events[0]);
      RunInv(locked, t, events[1..]);
      GrowsTransitive(s.rows, t.rows, Run(locked, t, events[1..]).value.rows);
    }
  }

  /** Whatever the interleaving, with or without the transaction: each approval is won at most
    once; a winner named the issued digest and came strictly before expiry; and issued grants
    never change except by being spent once. */
  lemma SingleUse(locked: bool, rows: Table, calls: seq<Call>, events: seq<Event>, s: State)
    requires Run(locked, Start(rows, calls), events) == Some(s)
    ensures OneWinner(s)
    ensures forall i | 0 <= i < |s.sessions| && IsWinner(s.sessions[i]) ::
      && Covers(s.rows, s.sessions[i].call)
      && s.rows[s.sessions[i].call.id].consumedAt == Some(s.sessions[i].call.at)
    ensures Grows(rows, s.rows)
  {
    StartInv(locked, rows, calls);
    RunInv(locked, Start(rows, calls), events);
    forall i | 0 <= i < |s.sessions| && IsWinner(s.sessions[i])
      ensures Covers(s.rows, s.sessions[i].call)
      ensures s.rows[s.sessions[i].call.id].consumedAt == Some(s.sessions[i].call.at)
    {
      assert SessionInv(locked, s.rows, s.sessions[i]);
    }
  }

  /** With the transaction, the UPDATE always finds its row: the fallback is never returned. */
  lemma FallbackUnreachable(rows: Table, calls: seq<Call>, events: seq<Event>, s: State)
    requires Run(true, Start(rows, calls), events) == Some(s)
    ensures forall i | 0 <= i < |s.sessions| ::
      && (s.sessions[i].pc.Checked? ==> Matched(s.rows, s.sessions[i].call))
      && s.sessions[i].pc != Done(Fallback(s.sessions[i].call))
  {
    StartInv(true, rows, calls);
    RunInv(true, Start(rows, calls), events);
    forall i | 0 <= i < |s.sessions|
      ensures s.sessions[i].pc.Checked? ==> Matched(s.rows, s.sessions[i].call)
      ensures s.sessions[i].pc != Done(Fallback(s.sessions[i].call))
    {
      assert SessionInv(true, s.rows, s.sessions[i]);
    }
  }

  // ----- the calls behave like indivisible ones

  datatype Op = Granted(grant: Grant) | Consumed(call: Call, result: Consumption)

  /** The operation that takes effect in this step, if one does: an issue, a spending, whether or
    not its answer is ever given, or a refusal. */
  function Ended(locked: bool, s: State, e: Event): seq<Op>
    requires Enabled(locked, s, e)
  {
    match e
    case Issue(g) => [Granted(g)]
    case Answer(_) => []
    case _ =>
      match Step(locked, s, e).sessions[e.who].pc
      case Settled => [Consumed(s.sessions[e.who].call, Won(s.sessions[e.who].call).result)]
      case Done(Returned(result)) => [Consumed(s.sessions[e.who].call, result)]
      case _ => []
  }

  function History(locked: bool, s: State, events: seq<Event>): seq<Op>
    requires Run(locked, s, events).Some?
    decreases |events|
  {
    if events == [] then []
    else Ended(locked, s, events[0]) + History(locked, Step(locked, s, events[0]), events[1..])
  }

  /** Results agree; without the transaction, up to the time of an earlier consumption. */
  predicate Agrees(locked: bool, actual: Consumption, atomic: Consumption) {
    actual == atomic || (!locked && actual == atomic.(at := None) && atomic.status == ALREADY_CONSUMED)
  }

  /** Under the transaction the results are equal. */
  lemma AgreesExact(actual: Consumption, atomic: Consumption)
    ensures Agrees(true, actual, atomic) <==> actual == atomic
    ensures Agrees(false, actual, atomic) <==>
      && actual.status == atomic.status && actual.id == atomic.id
      && (actual.at == atomic.at || (actual.status == ALREADY_CONSUMED && actual.at.None?))
  {
  }

  /** Runs the operations one after the other on the atomic map; None if a result differs. */
  function Replay(locked: bool, t: Table, ops: seq<Op>): Option<Table>
    decreases |ops|
  {
    if ops == [] then Some(t)
    else
      match ops[0]
      case Granted(g) => Replay(locked, AtomicIssue(t, g).0, ops[1..])
      case Consumed(c, result) =>
        if Agrees(locked, result, AtomicConsume(t, c).1) then Replay(locked, AtomicConsume(t, c).0, ops[1..])
        else None
  }

  /** A step in which an operation takes effect does to the table what the atomic operation does;
    any other step leaves the table alone. */
  lemma StepRefines(locked: bool, s: State, e: Event)
    requires Inv(locked, s) && Enabled(locked, s, e)
    ensures Replay(locked, s.rows, Ended(locked, s, e)) == Some(Step(locked, s, e).rows)
  {
    if !e.Issue? {
      var t := Step(locked, s, e);
      var c := s.sessions[e.who].call;
      assert SessionInv(locked, s.rows, s.sessions[e.who]);
      match t.sessions[e.who].pc {
        case Settled =>
          SettlingSpends(locked, s, e);
          assert [Consumed(c, Won(c).result)][1..] == [];
        case Done(Returned(result)) =>
          if e.Answer? {
            return;
          }
          assert Ended(locked, s, e) == [Consumed(c, result)];
          assert Agrees(locked, result, AtomicConsume(s.rows, c).1) && t.rows == AtomicConsume(s.rows, c).0;
          assert [Consumed(c, result)][1..] == [];
        case _ =>
      }
    } else {
      assert [Granted(e.grant)][1..] == [];
    }
  }

  lemma ReplayAppend(locked: bool, t: Table, a: seq<Op>, b: seq<Op>)
    requires |a| <= 1 && Replay(locked, t, a).Some?
    ensures Replay(locked, t, a + b) == Replay(locked, Replay(locked, t, a).value, b)
  {
    if a == [] {
      assert a + b == b;
    } else {
      assert a[1..] == [] && (a + b)[1..] == b && (a + b)[0] == a[0];
    }
  }

  /** Every interleaved run gives the same results and the same table as its operations run one
    after the other, in the order in which they took effect. */
  lemma {:induction false} RunRefines(locked: bool, s: State, events: seq<Event>)
    requires Inv(locked, s) && Run(locked, s, events).Some?
    ensures Replay(locked, s.rows, History(locked, s, events)) == Some(Run(locked, s, events).value.rows)
    decreases |events|
  {
    if events != [] {
      var e := events[0];
      var t := Step(locked, s, e);
      StepRefines(locked, s, e);
      StepInv(locked, s, e);
      RunRefines(locked, t, events[1..]);
      ReplayAppend(locked, s.rows, Ended(locked, s, e), History(locked, t, events[1..]));
    }
  }

  /** The answer that a session has given or is about to give. */
  function AnswerOf(p: Session): Option<Consumption> {
    match p.pc
    case Settled => Some(Won(p.call).result)
    case Done(Returned(result)) => Some(result)
    case _ => None
  }

  lemma StepAnswers(locked: bool, s: State, e: Event, i: nat, result: Consumption)
    requires Enabled(locked, s, e) && i < |s.sessions|
    requires AnswerOf(Step(locked, s, e).sessions[i]) == Some(result)
    ensures Step(locked, s, e).sessions[i].call == s.sessions[i].call
    ensures AnswerOf(s.sessions[i]) == Some(result) || Ended(locked, s, e) == [Consumed(s.sessions[i].call, result)]
  {
  }

  /** Every answer given is that of an operation in the history. */
  lemma {:induction false} AnswersInHistory(locked: bool, s: State, events: seq<Event>, i: nat, result: Consumption)
    requires Run(locked, s, events).Some? && i < |s.sessions| == |Run(locked, s, events).value.sessions|
    requires AnswerOf(s.sessions[i]) != Some(result)
    requires AnswerOf(Run(locked, s, events).value.sessions[i]) == Some(result)
    ensures Consumed(s.sessions[i].call, result) in History(locked, s, events)
    decreases |events|
  {
    var t := Step(locked, s, events[0]);
    if AnswerOf(t.sessions[i]) == Some(result) {
      StepAnswers(locked, s, events[0], i, result);
    } else {
      AnswersInHistory(locked, t, events[1..], i, result);
    }
  }

  predicate Spends(op: Op, id: string) {
    op.Consumed? && op.call.id == id && op.result.status == CONSUMED
  }

  lemma {:induction false} NeverSpentAgain(locked: bool, t: Table, ops: seq<Op>, id: string)
    requires id in t && t[id].consumedAt.Some? && Replay(locked, t, ops).Some?
    ensures forall op | op in ops :: !Spends(op, id)
    decreases |ops|
  {
    if ops != [] {
      assert ops == [ops[0]] + ops[1..];
      match ops[0]
      case Granted(g) => NeverSpentAgain(locked, AtomicIssue(t, g).0, ops[1..], id);
      case Consumed(c, _) => NeverSpentAgain(locked, AtomicConsume(t, c).0, ops[1..], id);
    }
  }

  /** In a history that replays, each approval is spent at most once, answered or not. */
  lemma {:induction false} SpentOnce(locked: bool, t: Table, ops: seq<Op>, i: nat, j: nat, id: string)
    requires Replay(locked, t, ops).Some? && i < j < |ops|
    ensures !(Spends(ops[i], id) && Spends(ops[j], id))
    decreases i
  {
    var next := match ops[0] case Granted(g) => AtomicIssue(t, g).0 case Consumed(c, _) => AtomicConsume(t, c).0;
    assert ops[j] == ops[1..][j - 1];
    if i > 0 {
      assert ops[i] == ops[1..][i - 1];
      SpentOnce(locked, next, ops[1..], i - 1, j - 1, id);
    } else if Spends(ops[0], id) {
      NeverSpentAgain(locked, next, ops[1..], id);
    }
  }

  /** So over every run each approval is spent at most once, also when an answer is lost. */
  lemma NoGrantSpentTwice(locked: bool, rows: Table, calls: seq<Call>, events: seq<Event>, i: nat, j: nat, id: string)
    requires Run(locked, Start(rows, calls), events).Some?
    requires i < j < |History(locked, Start(rows, calls), events)|
    ensures var ops := History(locked, Start(rows, calls), events); !(Spends(ops[i], id) && Spends(ops[j], id))
  {
    StartInv(locked, rows, calls);
    RunRefines(locked, Start(rows, calls), events);
    SpentOnce(locked, rows, History(locked, Start(rows, calls), events), i, j, id);
  }

  /** A call can die between its COMMIT and its answer: the grant is then spent for good, and
    nobody is told so. */
  lemma SpentWithoutAnswer(c: Call, rows: Table)
    requires Spendable(rows, c)
    ensures exists events, s ::
      && Run(true, Start(rows, [c]), events) == Some(s)
      && |s.sessions| == 1 && s.sessions[0].pc == Done(Raised)
      && s.rows == Spent(rows, c) && s.lock.None?
      && History(true, Start(rows, [c]), events) == [Consumed(c, Won(c).result)]
  {
    var s0 := Start(rows, [c]);
    var s1 := Step(true, s0, Begin(0));
    var s2 := Step(true, s1, Select(0));
    var s3 := Step(true, s2, Update(0));
    var s4 := Step(true, s3, Commit(0));
    var s5 := Step(true, s4, Crash(0));
    var tail := [Update(0)] + ([Commit(0)] + ([Crash(0)] + []));
    HistoryFront(true, s4, Crash(0), []);
    HistoryFront(true, s3, Commit(0), [Crash(0)] + []);
    HistoryFront(true, s2, Update(0), [Commit(0)] + ([Crash(0)] + []));
    HistoryFront(true, s1, Select(0), tail);
    HistoryFront(true, s0, Begin(0), [Select(0)] + tail);
    assert Run(true, s5, []) == Some(s5);
  }

  lemma HistoryFront(locked: bool, s: State, e: Event, rest: seq<Event>)
    requires Enabled(locked, s, e)
    ensures Run(locked, s, [e] + rest) == Run(locked, Step(locked, s, e), rest)
    ensures Run(locked, s, [e] + rest).Some? ==>
      History(locked, s, [e] + rest) == Ended(locked, s, e) + History(locked, Step(locked, s, e), rest)
  {
    assert ([e] + rest)[1..] == rest;
  }

  /** Two calls for one grant, this far on their way. */
  function Two(rows: Table, c: Call, first: Pc, second: Pc): State {
    State(rows, None, [Session(c, first), Session(c, second)])
  }

  lemma TwoMoved(rows: Table, c: Call, first: Pc, second: Pc, pc: Pc)
    ensures Goto(Two(rows, c, first, second), 0, pc) == Two(rows, c, pc, second)
    ensures Goto(Two(rows, c, first, second), 1, pc) == Two(rows, c, first, pc)
  {
  }

  /** Without the transaction both can pass the checks. */
  lemma BothChecked(c: Call, rows: Table, rest: seq<Event>)
    requires Spendable(rows, c)
    ensures Run(false, Start(rows, [c, c]), [Begin(0)] + ([Begin(1)] + ([Select(0)] + ([Select(1)] + rest)))) ==
      Run(false, Two(rows, c, Checked, Checked), rest)
  {
    assert Start(rows, [c, c]) == Two(rows, c, Waiting, Waiting);
    TwoMoved(rows, c, Waiting, Waiting, Begun);
    TwoMoved(rows, c, Begun, Waiting, Begun);
    TwoMoved(rows, c, Begun, Begun, Checked);
    TwoMoved(rows, c, Checked, Begun, Checked);
    HistoryFront(false, Two(rows, c, Checked, Begun), Select(1), rest);
    HistoryFront(false, Two(rows, c, Begun, Begun), Select(0), [Select(1)] + rest);
    HistoryFront(false, Two(rows, c, Begun, Waiting), Begin(1), [Select(0)] + ([Select(1)] + rest));
    HistoryFront(false, Two(rows, c, Waiting, Waiting), Begin(0), [Begin(1)] + ([Select(0)] + ([Select(1)] + rest)));
  }

  lemma OneTurnedAway(c: Call, rows: Table)
    requires Spendable(rows, c)
    ensures Run(false, Two(rows, c, Checked, Checked), [Update(0)] + ([Update(1)] + ([Answer(0)] + []))) ==
      Some(Two(Spent(rows, c), c, Done(Won(c)), Done(Fallback(c))))
  {
    var spent := Spent(rows, c);
    TwoMoved(rows, c, Checked, Checked, Settled);
    TwoMoved(spent, c, Settled, Checked, Done(Fallback(c)));
    TwoMoved(spent, c, Settled, Done(Fallback(c)), Done(Won(c)));
    assert Run(false, Two(spent, c, Done(Won(c)), Done(Fallback(c))), []) ==
      Some(Two(spent, c, Done(Won(c)), Done(Fallback(c))));
    HistoryFront(false, Two(spent, c, Settled, Done(Fallback(c))), Answer(0), []);
    HistoryFront(false, Two(spent, c, Settled, Checked), Update(1), [Answer(0)] + []);
    HistoryFront(false, Two(rows, c, Checked, Checked), Update(0), [Update(1)] + ([Answer(0)] + []));
  }

  /** The conditional UPDATE then turns the second call away through the fallback. */
  lemma FallbackNeededWithoutLock(c: Call, rows: Table)
    requires Spendable(rows, c)
    ensures exists events, s ::
      && Run(false, Start(rows, [c, c]), events) == Some(s)
      && |s.sessions| == 2
      && s.sessions[0].pc == Done(Won(c))
      && s.sessions[1].pc == Done(Fallback(c))
  {
    BothChecked(c, rows, [Update(0)] + ([Update(1)] + ([Answer(0)] + [])));
    OneTurnedAway(c, rows);
  }
}
