/** The guarded sign-in state (src/planner_mcp/auth.py), the classification of a live page
  (src/planner_browser_worker/auth_flow.py, auth_state_machine.py) and the observation of the
  sign-in surface (src/planner_browser_worker/observation.py). */
module Auth {
  import opened Ordering
  import opened Results

  datatype AuthState =
    | UNKNOWN | READY | AUTH_REQUIRED | MFA_REQUIRED | WAITING_FOR_MFA
    | AUTHENTICATED | SESSION_EXPIRED | AUTH_FAILED

  predicate CanTransition(current: AuthState, target: AuthState) {
    match current
    case UNKNOWN => target.READY? || target.AUTH_REQUIRED? || target.AUTHENTICATED?
    case READY => target.AUTH_REQUIRED? || target.AUTHENTICATED?
    case AUTH_REQUIRED => target.MFA_REQUIRED? || target.AUTHENTICATED? || target.AUTH_FAILED?
    case MFA_REQUIRED => target.WAITING_FOR_MFA? || target.AUTH_FAILED? || target.AUTHENTICATED?
    case WAITING_FOR_MFA => target.AUTHENTICATED? || target.AUTH_FAILED? || target.MFA_REQUIRED?
    case AUTHENTICATED => target.SESSION_EXPIRED? || target.AUTH_REQUIRED?
    case SESSION_EXPIRED => target.AUTH_REQUIRED? || target.AUTHENTICATED?
    case AUTH_FAILED => target.AUTH_REQUIRED?
  }

  /** The states that can be left for each state. */
  ghost predicate MayBecome(current: AuthState, target: AuthState) {
    match target
    case UNKNOWN => false
    case READY => current.UNKNOWN?
    case AUTH_REQUIRED =>
      current.UNKNOWN? || current.READY? || current.AUTHENTICATED? || current.SESSION_EXPIRED? || current.AUTH_FAILED?
    case MFA_REQUIRED => current.AUTH_REQUIRED? || current.WAITING_FOR_MFA?
    case WAITING_FOR_MFA => current.MFA_REQUIRED?
    case AUTHENTICATED => !current.AUTHENTICATED? && !current.AUTH_FAILED?
    case SESSION_EXPIRED => current.AUTHENTICATED?
    case AUTH_FAILED => current.AUTH_REQUIRED? || current.MFA_REQUIRED? || current.WAITING_FOR_MFA?
  }

  lemma TransitionsExact(current: AuthState, target: AuthState)
    ensures CanTransition(current, target) <==> MayBecome(current, target)
  {
  }

  datatype Move = Move(from: AuthState, to: AuthState)

  /** The fields of a context, as a value; `challenge` is the number of the challenge held. */
  datatype Fields = Fields(state: AuthState, challenge: Option<string>, history: seq<Move>)

  const FRESH := Fields(UNKNOWN, None, [])

  function Transitioned(c: Fields, target: AuthState): Option<Fields> {
    if !CanTransition(c.state, target) then None
    else
      Some(Fields(target, if target.WAITING_FOR_MFA? || target.MFA_REQUIRED? then c.challenge else None,
        c.history + [Move(c.state, target)]))
  }

  class AuthContext {
    var state: AuthState
    var challenge: Option<string>
    var history: seq<Move>

    function Value(): Fields
      reads this
    {
      Fields(state, challenge, history)
    }

    constructor ()
      ensures Value() == FRESH
    {
      state := UNKNOWN;
      challenge := None;
      history := [];
    }

    /** Refused, and without effect, when the move is illegal. */
    method Transition(target: AuthState) returns (legal: bool)
      modifies this
      ensures legal <==> MayBecome(old(state), target)
      ensures Value() == Transitioned(old(Value()), target).GetOr(old(Value()))
      ensures legal ==>
        && state == target && history == old(history) + [Move(old(state), target)]
        && challenge == (if target.MFA_REQUIRED? || target.WAITING_FOR_MFA? then old(challenge) else None)
    {
      TransitionsExact(state, target);
      if !CanTransition(state, target) {
        return false;
      }
      history := history + [Move(state, target)];
      state := target;
      if target != WAITING_FOR_MFA && target != MFA_REQUIRED {
        challenge := None;
      }
      legal := true;
    }
  }

  // ----- one page

  /** What a page shows: whether it is the one open page on the Planner surface, whether its body
    can be read, the two-digit numbers bound to a number-matching phrase, and the markers for
    approval, sign-in and an expired session. */
  datatype Page = Page(
    plannerSurface: bool, readable: bool, candidates: seq<string>, approval: bool, signIn: bool, expired: bool)

  function ClassifyPage(p: Page): AuthState {
    if |p.candidates| == 1 then MFA_REQUIRED
    else if p.approval then WAITING_FOR_MFA
    else if p.signIn then AUTH_REQUIRED
    else if p.expired then SESSION_EXPIRED
    else UNKNOWN
  }

  /** The number, when all candidates agree on one. */
  function ResolveUnique(candidates: seq<string>): Option<string> {
    if |Elements(candidates)| == 1 then Some(candidates[0]) else None
  }

  datatype Reading = Reading(state: AuthState, number: Option<string>, ambiguous: bool)

  /** `classify_live`. */
  function ClassifyLive(p: Page): Reading {
    var state := ClassifyPage(p);
    if state.MFA_REQUIRED? then
      (match ResolveUnique(p.candidates)
       case None => Reading(UNKNOWN, None, true)
       case Some(number) => Reading(state, Some(number), false))
    else if state.WAITING_FOR_MFA? then Reading(state, None, false)
    else if |p.candidates| > 1 then Reading(UNKNOWN, None, true)
    else Reading(state, None, false)
  }

  /** A number is reported exactly when the page shows one candidate, and it is that candidate.
    Several candidates are never resolved, even when they agree; they read as ambiguous, except
    beside an approval marker, which wins. */
  lemma ClassifyLiveExact(p: Page)
    ensures ClassifyLive(p).state == MFA_REQUIRED <==> |p.candidates| == 1
    ensures ClassifyLive(p).number == if |p.candidates| == 1 then Some(p.candidates[0]) else None
    ensures ClassifyLive(p).ambiguous <==> |p.candidates| > 1 && !p.approval
    ensures ClassifyLive(p).ambiguous ==> ClassifyLive(p).state == UNKNOWN
    ensures ClassifyLive(p).state == WAITING_FOR_MFA <==> |p.candidates| != 1 && p.approval
    ensures ClassifyLive(p).state == AUTH_REQUIRED <==> p.candidates == [] && !p.approval && p.signIn
    ensures ClassifyLive(p).state == SESSION_EXPIRED <==> p.candidates == [] && !p.approval && !p.signIn && p.expired
    ensures ClassifyLive(p).state !in {READY, AUTHENTICATED, AUTH_FAILED}
  {
    if |p.candidates| == 1 {
      assert p.candidates == [p.candidates[0]];
      assert Elements(p.candidates) == {p.candidates[0]};
    }
  }

  /** `advance_live_auth_state`: whether the move, if one was needed, was legal. */
  method AdvanceLiveAuthState(context: AuthContext, p: Page) returns (r: Reading, legal: bool)
    modifies context
    ensures r.state == ClassifyLive(p).state && r.number == ClassifyLive(p).number
    ensures r.ambiguous == ClassifyLive(p).ambiguous
    ensures context.Value() == Advanced(old(context.Value()), p)
    ensures legal <==> r.state == UNKNOWN || r.state == old(context.state) || MayBecome(old(context.state), r.state)
  {
    r := ClassifyLive(p);
    legal := true;
    if r.state != UNKNOWN && r.state != context.state {
      legal := context.Transition(r.state);
    }
  }

  function Advanced(c: Fields, p: Page): Fields {
    var state := ClassifyLive(p).state;
    if state == UNKNOWN || state == c.state then c else Transitioned(c, state).GetOr(c)
  }

  // ----- observe_signin_state

  predicate InFlight(s: AuthState) {
    s.AUTH_REQUIRED? || s.MFA_REQUIRED? || s.WAITING_FOR_MFA?
  }

  /** The context and the answer after one observation; None when the page cannot be read. */
  function Observed(c: Fields, p: Page): (Fields, Option<Reading>) {
    if p.plannerSurface && c.state.AUTHENTICATED? then (c, Some(Reading(AUTHENTICATED, None, false)))
    else if p.plannerSurface && InFlight(c.state) then
      (Transitioned(c, AUTHENTICATED).GetOr(c), Some(Reading(AUTHENTICATED, None, false)))
    else if p.plannerSurface && (c.state.UNKNOWN? || c.state.READY?) then (c, Some(Reading(UNKNOWN, None, false)))
    else if !p.readable then (c, None)
    else (Advanced(c, p), Some(ClassifyLive(p)))
  }

  method ObserveSigninState(context: AuthContext, p: Page) returns (r: Option<Reading>)
    modifies context
    ensures (context.Value(), r) == Observed(old(context.Value()), p)
  {
    if p.plannerSurface {
      if context.state == AUTHENTICATED {
        return Some(Reading(AUTHENTICATED, None, false));
      }
      if context.state == AUTH_REQUIRED || context.state == MFA_REQUIRED || context.state == WAITING_FOR_MFA {
        var legal := context.Transition(AUTHENTICATED);
        return Some(Reading(AUTHENTICATED, None, false));
      }
      if context.state == UNKNOWN || context.state == READY {
        return Some(Reading(UNKNOWN, None, false));
      }
    }
    if !p.readable {
      return None;
    }
    var reading := ClassifyLive(p);
    if reading.state == UNKNOWN {
      return Some(Reading(UNKNOWN, None, reading.ambiguous));
    }
    var advanced, legal := AdvanceLiveAuthState(context, p);
    r := Some(reading);
  }

  // ----- runs

  /** The moves are allowed, and lead from UNKNOWN to the current state one after the other. */
  ghost predicate Path(c: Fields) {
    && (forall i | 0 <= i < |c.history| :: MayBecome(c.history[i].from, c.history[i].to))
    && (forall i | 0 < i < |c.history| :: c.history[i].from == c.history[i - 1].to)
    && (if c.history == [] then c.state == UNKNOWN
        else c.history[0].from == UNKNOWN && c.history[|c.history| - 1].to == c.state)
  }

  /** What a context filled by observations only never does. */
  ghost predicate Inv(c: Fields) {
    && Path(c)
    && c.challenge.None?
    && (c.history != [] ==> c.history[0].to == AUTH_REQUIRED)
    && (forall i | 0 <= i < |c.history| ::
         c.history[i].to != UNKNOWN && c.history[i].to != READY && c.history[i].to != AUTH_FAILED)
    && (c.history == [] <==> c.state == UNKNOWN)
    && c.state != READY && c.state != AUTH_FAILED
  }

  lemma TransitionInv(c: Fields, target: AuthState)
    requires Inv(c) && target != UNKNOWN && target != READY && target != AUTH_FAILED
    requires c.state == UNKNOWN ==> target == AUTH_REQUIRED || !CanTransition(c.state, target)
    ensures Inv(Transitioned(c, target).GetOr(c))
  {
  }

  lemma ObservedInv(c: Fields, p: Page)
    requires Inv(c)
    ensures Inv(Observed(c, p).0)
  {
    ClassifyLiveExact(p);
    if p.plannerSurface && InFlight(c.state) {
      TransitionInv(c, AUTHENTICATED);
    } else if Observed(c, p).0 != c {
      TransitionInv(c, ClassifyLive(p).state);
    }
  }

  /** The context after these observations. */
  function After(pages: seq<Page>): Fields {
    if pages == [] then FRESH else Observed(After(pages[..|pages| - 1]), pages[|pages| - 1]).0
  }

  /** The answer to observation i. */
  function Answer(pages: seq<Page>, i: nat): Option<Reading>
    requires i < |pages|
  {
    Observed(After(pages[..i]), pages[i]).1
  }

  /** From a fresh context and any pages: the history is a connected path of allowed moves from
    UNKNOWN to the current state, its first move is to AUTH_REQUIRED, READY and AUTH_FAILED are
    never reached, and no challenge is ever held. */
  lemma {:induction false} RunInv(pages: seq<Page>)
    ensures Inv(After(pages))
  {
    if pages != [] {
      RunInv(pages[..|pages| - 1]);
      ObservedInv(After(pages[..|pages| - 1]), pages[|pages| - 1]);
    }
  }

  /** Leaving UNKNOWN takes an AUTH_REQUIRED answer. */
  lemma FirstMove(c: Fields, p: Page)
    requires Inv(c) && c.state == UNKNOWN && Observed(c, p).0.state != UNKNOWN
    ensures Observed(c, p).1 == Some(Reading(AUTH_REQUIRED, None, false))
  {
  }

  lemma {:induction false} LeftUnknown(pages: seq<Page>)
    requires After(pages).state != UNKNOWN
    ensures exists i | 0 <= i < |pages| :: Answer(pages, i) == Some(Reading(AUTH_REQUIRED, None, false))
  {
    var front, last := pages[..|pages| - 1], pages[|pages| - 1];
    RunInv(front);
    if After(front).state == UNKNOWN {
      FirstMove(After(front), last);
      assert pages[..|front|] == front;
      assert Answer(pages, |front|) == Some(Reading(AUTH_REQUIRED, None, false));
    } else {
      LeftUnknown(front);
      var i :| 0 <= i < |front| && Answer(front, i) == Some(Reading(AUTH_REQUIRED, None, false));
      assert pages[..i] == front[..i];
      assert Answer(pages, i) == Answer(front, i);
    }
  }

  /** AUTHENTICATED is answered only on the Planner surface and after an earlier observation
    that answered AUTH_REQUIRED. */
  lemma AuthenticatedNeedsSignIn(pages: seq<Page>, i: nat)
    requires i < |pages| && Answer(pages, i).Some? && Answer(pages, i).value.state == AUTHENTICATED
    ensures pages[i].plannerSurface
    ensures exists j | 0 <= j < i :: Answer(pages, j) == Some(Reading(AUTH_REQUIRED, None, false))
  {
    ClassifyLiveExact(pages[i]);
    RunInv(pages[..i]);
    LeftUnknown(pages[..i]);
    var j :| 0 <= j < i && Answer(pages[..i], j) == Some(Reading(AUTH_REQUIRED, None, false));
    assert pages[..i][..j] == pages[..j];
    assert Answer(pages, j) == Answer(pages[..i], j);
  }

  /** What a page outside the Planner surface reads as: one candidate is a number to enter, an approval
    marker comes next, then several candidates, which stay unresolved, then a sign-in form and an
    expired session. */
  ghost function PageReads(p: Page): Reading {
    if |p.candidates| == 1 then Reading(MFA_REQUIRED, Some(p.candidates[0]), false)
    else if p.approval then Reading(WAITING_FOR_MFA, None, false)
    else if |p.candidates| >= 2 then Reading(UNKNOWN, None, true)
    else if p.signIn then Reading(AUTH_REQUIRED, None, false)
    else if p.expired then Reading(SESSION_EXPIRED, None, false)
    else Reading(UNKNOWN, None, false)
  }

  lemma PageReadsExact(p: Page)
    ensures ClassifyLive(p) == PageReads(p)
  {
    ClassifyLiveExact(p);
  }

  /** The context after a reading: the state that was read if the move to it is legal, and otherwise
    nothing changes. A number held for entry is kept only while it is being entered. */
  ghost function Follows(c: Fields, target: AuthState): Fields {
    if MayBecome(c.state, target) then
      Fields(target, if target.MFA_REQUIRED? || target.WAITING_FOR_MFA? then c.challenge else None,
        c.history + [Move(c.state, target)])
    else c
  }

  /** Every observation exactly. On the Planner surface a context that is signed in, or on its way there,
    is AUTHENTICATED, and one that has not begun stays UNKNOWN; elsewhere, and after an expired session or
    a failure, the page decides, if it can be read. */
  lemma ObservationExact(c: Fields, p: Page)
    ensures var (next, answer) := Observed(c, p);
      if p.plannerSurface && c.state !in {UNKNOWN, READY, SESSION_EXPIRED, AUTH_FAILED} then
        answer == Some(Reading(AUTHENTICATED, None, false)) && next == Follows(c, AUTHENTICATED)
      else if p.plannerSurface && c.state in {UNKNOWN, READY} then
        answer == Some(Reading(UNKNOWN, None, false)) && next == c
      else if !p.readable then
        answer == None && next == c
      else
        answer == Some(PageReads(p)) && next == Follows(c, PageReads(p).state)
  {
    PageReadsExact(p);
    TransitionsExact(c.state, AUTHENTICATED);
    TransitionsExact(c.state, ClassifyLive(p).state);
  }

  /** AUTHENTICATED is answered exactly on the Planner surface, to a context that is signed in or on
    its way there. */
  lemma AuthenticatedExactly(c: Fields, p: Page)
    ensures Observed(c, p).1 == Some(Reading(AUTHENTICATED, None, false)) <==>
      p.plannerSurface && (c.state.AUTHENTICATED? || InFlight(c.state))
  {
    ClassifyLiveExact(p);
  }

  /** A sign-in form, and then any page on the Planner surface, sign a fresh context in. */
  lemma SignInReached(form: Page, planner: Page)
    requires !form.plannerSurface && PageReads(form).state.AUTH_REQUIRED? && form.readable && planner.plannerSurface
    ensures After([form, planner]) ==
      Fields(AUTHENTICATED, None, [Move(UNKNOWN, AUTH_REQUIRED), Move(AUTH_REQUIRED, AUTHENTICATED)])
    ensures Answer([form, planner], 1) == Some(Reading(AUTHENTICATED, None, false))
  {
    var pages := [form, planner];
    assert pages[..1] == [form] && [form][..0] == [];
    assert After([]) == FRESH;
    ObservationExact(FRESH, form);
    assert After([form]) == Fields(AUTH_REQUIRED, None, [Move(UNKNOWN, AUTH_REQUIRED)]);
    ObservationExact(After([form]), planner);
  }

  /** Two candidates beside an approval marker are reported as waiting, not as ambiguous. */
  lemma ApprovalHidesAmbiguity(a: string, b: string)
    requires a != b
    ensures ClassifyLive(Page(false, true, [a, b], true, false, false)) == Reading(WAITING_FOR_MFA, None, false)
  {
  }
}
