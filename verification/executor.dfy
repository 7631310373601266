/** Bounded serialized execution (src/m365_browser_worker/executor.py).

  Every call of `execute` is a task with a program counter. The event loop runs one task at a
  time, and a task gives up control only where it really waits: in the queue of the operation
  lock, or inside `work()`. Both locks are modelled step by step, so that "nobody ever waits
  for the state lock" is proved and not assumed. The operation lock is the fair lock of
  asyncio: a FIFO queue, an immediate acquire when the lock is free and nobody queues, and a
  moment between release and hand-over in which it is free although somebody queues. */
module Executor {
  import opened Results
  import opened Ordering

  type Task = nat

  // ----- the fields of the executor and the bodies under the state lock

  datatype Fields = Fields(admitted: int, active: bool)

  datatype ExecutorSnapshot = ExecutorSnapshot(active: bool, queued: int, maxQueue: int)

  /** The admission check; `None` is the WORKER_BUSY rejection. */
  function Admit(f: Fields, maxQueue: int): Option<Fields> {
    if f.admitted >= maxQueue + 1 then None else Some(f.(admitted := f.admitted + 1))
  }

  function Activate(f: Fields): Fields { f.(active := true) }

  function Deactivate(f: Fields): Fields { f.(active := false) }

  function Leave(f: Fields): Fields { f.(admitted := f.admitted - 1) }

  function Snapshot(f: Fields, maxQueue: int): ExecutorSnapshot {
    var waiting := f.admitted - (if f.active then 1 else 0);
    ExecutorSnapshot(f.active, if waiting < 0 then 0 else waiting, maxQueue)
  }

  class ProfileSerializedExecutor {
    const maxQueue: int
    var admitted: int
    var active: bool

    constructor (maxQueue: int)
      requires maxQueue >= 0
      ensures this.maxQueue == maxQueue && Now() == Fields(0, false)
    {
      this.maxQueue := maxQueue;
      admitted, active := 0, false;
    }

    ghost function Now(): Fields
      reads this
    {
      Fields(admitted, active)
    }

    /** The body of the first `async with self._state_lock`. */
    method TryAdmit() returns (ok: bool)
      modifies this
      ensures ok <==> Admit(old(Now()), maxQueue).Some?
      ensures Now() == if ok then Admit(old(Now()), maxQueue).value else old(Now())
    {
      var capacity := maxQueue + 1;
      if admitted >= capacity {
        return false;
      }
      admitted := admitted + 1;
      return true;
    }

    method SetActive()
      modifies this
      ensures Now() == Activate(old(Now()))
    {
      active := true;
    }

    method ClearActive()
      modifies this
      ensures Now() == Deactivate(old(Now()))
    {
      active := false;
    }

    method Depart()
      modifies this
      ensures Now() == Leave(old(Now()))
    {
      admitted := admitted - 1;
    }

    method TakeSnapshot() returns (s: ExecutorSnapshot)
      ensures s == Snapshot(Now(), maxQueue)
    {
      var queued := admitted - (if active then 1 else 0);
      if queued < 0 {
        queued := 0;
      }
      s := ExecutorSnapshot(active, queued, maxQueue);
    }
  }

  /** Building an executor: a negative queue bound is refused. */
  method Create(maxQueue: int) returns (r: Option<ProfileSerializedExecutor>)
    ensures r.None? <==> maxQueue < 0
    ensures r.Some? ==> fresh(r.value) && r.value.maxQueue == maxQueue && r.value.Now() == Fields(0, false)
  {
    if maxQueue < 0 {
      return None;
    }
    var executor := new ProfileSerializedExecutor(maxQueue);
    r := Some(executor);
  }

  // ----- the protocol

  /** Where a call of `execute` stands. `At...` is before a lock is taken, `In...` is inside the
    body under the state lock. */
  datatype Pc =
    | Entering | InAdmit | Rejected
    | AtOperation | Queued
    | AtActivate | InActivate
    | Working
    | AtDeactivate | InDeactivate
    | AtRelease
    | AtLeave | InLeave
    | Done

  datatype State = State(
    maxQueue: nat,
    fields: Fields,
    pcs: map<Task, Pc>,
    running: Option<Task>,
    stateLock: Option<Task>,
    operationLock: Option<Task>,
    queue: seq<Task>,
    // history: admission numbers, started work, and what each call found when it was admitted
    tickets: map<Task, nat>,
    starts: seq<Task>,
    found: map<Task, Found>)

  /** How many works had been started at admission, and whether one was in progress. */
  datatype Found = Found(started: nat, busy: bool)

  datatype Event =
    | Call(t: Task)      // somebody calls execute
    | Micro              // the running task takes its next step
    | Suspend            // the running work() awaits something
    | Resume(t: Task)    // the loop resumes a work()
    | Finish             // the running work() returns, raises or is cancelled
    | HandOver           // the free operation lock goes to the head of its queue
    | Cancel(t: Task)    // a queued call is cancelled

  function Initial(maxQueue: nat): State {
    State(maxQueue, Fields(0, false), map[], None, None, None, [], map[], [], map[])
  }

  predicate Is(s: State, t: Task, pc: Pc) {
    t in s.pcs && s.pcs[t] == pc
  }

  function Goto(s: State, t: Task, pc: Pc): State {
    s.(pcs := s.pcs[t := pc])
  }

  /** Takes the state lock; a held lock would make the step impossible. */
  function TakeState(s: State, t: Task, pc: Pc): Option<State> {
    if s.stateLock.None? then Some(Goto(s, t, pc).(stateLock := Some(t))) else None
  }

  function AdmitStep(s: State, t: Task): State {
    match Admit(s.fields, s.maxQueue)
    case None => Goto(s, t, Rejected).(stateLock := None, running := None)
    case Some(f) =>
      Goto(s, t, AtOperation).(stateLock := None, fields := f,
        tickets := s.tickets[t := |s.tickets|],
        found := s.found[t := Found(|s.starts|, s.fields.active)])
  }

  function OperationStep(s: State, t: Task): State {
    if s.operationLock.None? && s.queue == [] then
      Goto(s, t, AtActivate).(operationLock := Some(t))
    else
      Goto(s, t, Queued).(queue := s.queue + [t], running := None)
  }

  function MicroStep(s: State, t: Task): Option<State>
    requires t in s.pcs
  {
    match s.pcs[t]
    case Entering => TakeState(s, t, InAdmit)
    case InAdmit => Some(AdmitStep(s, t))
    case AtOperation => Some(OperationStep(s, t))
    case AtActivate => TakeState(s, t, InActivate)
    case InActivate =>
      Some(Goto(s, t, Working).(stateLock := None, fields := Activate(s.fields), starts := s.starts + [t]))
    case AtDeactivate => TakeState(s, t, InDeactivate)
    case InDeactivate => Some(Goto(s, t, AtRelease).(stateLock := None, fields := Deactivate(s.fields)))
    case AtRelease => Some(Goto(s, t, AtLeave).(operationLock := None))
    case AtLeave => TakeState(s, t, InLeave)
    case InLeave => Some(Goto(s, t, Done).(stateLock := None, fields := Leave(s.fields), running := None))
    case _ => None
  }

  function Without(q: seq<Task>, t: Task): (r: seq<Task>)
  {
    if q == [] then [] else if q[0] == t then q[1..] else [q[0]] + Without(q[1..], t)
  }

  /** One event; `None` when it cannot happen in s. */
  function Next(s: State, e: Event): Option<State> {
    match e
    case Call(t) =>
      if s.running.None? && t !in s.pcs then Some(Goto(s, t, Entering).(running := Some(t))) else None
    case Micro =>
      if s.running.Some? && s.running.value in s.pcs then MicroStep(s, s.running.value) else None
    case Suspend =>
      if s.running.Some? && Is(s, s.running.value, Working) then Some(s.(running := None)) else None
    case Resume(t) =>
      if s.running.None? && Is(s, t, Working) then Some(s.(running := Some(t))) else None
    case Finish =>
      if s.running.Some? && Is(s, s.running.value, Working) then Some(Goto(s, s.running.value, AtDeactivate)) else None
    case HandOver =>
      if s.running.None? && s.operationLock.None? && s.queue != [] then
        Some(Goto(s, s.queue[0], AtActivate).(
          operationLock := Some(s.queue[0]), queue := s.queue[1..], running := Some(s.queue[0])))
      else None
    case Cancel(t) =>
      if s.running.None? && t in s.queue then
        Some(Goto(s, t, AtLeave).(queue := Without(s.queue, t), running := Some(t)))
      else None
  }

  /** The state after a sequence of events, if each of them could happen. */
  function Run(maxQueue: nat, events: seq<Event>): Option<State> {
    if events == [] then Some(Initial(maxQueue))
    else
      match Run(maxQueue, events[..|events| - 1])
      case None => None
      case Some(s) => Next(s, events[|events| - 1])
  }

  // ----- the invariant

  predicate UnderStateLock(pc: Pc) {
    (pc.InAdmit? || pc.InActivate? || pc.InDeactivate? || pc.InLeave?)
  }

  predicate HoldsOperation(pc: Pc) {
    (pc.AtActivate? || pc.InActivate? || pc.Working? || pc.AtDeactivate? || pc.InDeactivate? || pc.AtRelease?)
  }

  predicate MarkedActive(pc: Pc) {
    (pc.Working? || pc.AtDeactivate? || pc.InDeactivate?)
  }

  predicate InFlight(pc: Pc) {
    (!pc.Entering? && !pc.InAdmit? && !pc.Rejected? && !pc.Done?)
  }

  predicate HasStarted(pc: Pc) {
    (pc.Working? || pc.AtDeactivate? || pc.InDeactivate? || pc.AtRelease? || pc.AtLeave? || pc.InLeave? || pc.Done?)
  }

  /** The states in which a task may be while another one runs. */
  predicate Parked(pc: Pc) {
    (pc.Queued? || pc.Working? || pc.Rejected? || pc.Done?)
  }

  function InFlightTasks(pcs: map<Task, Pc>): set<Task> {
    set t | t in pcs && InFlight(pcs[t])
  }

  /** What the program counter of t says about the locks, the queue and the history. */
  ghost predicate TaskOk(s: State, t: Task)
    requires t in s.pcs
  {
    var pc := s.pcs[t];
    && (if s.running == Some(t) then (!pc.Queued? && !pc.Rejected? && !pc.Done?) else Parked(pc))
    && (s.stateLock == Some(t) <==> UnderStateLock(pc))
    && (s.operationLock == Some(t) <==> HoldsOperation(pc))
    && (t in s.queue <==> pc == Queued)
    && (t in s.starts ==> HasStarted(pc))
    && (t in s.tickets <==> (!pc.Entering? && !pc.InAdmit? && !pc.Rejected?))
  }

  ghost predicate Known(s: State) {
    && (s.running.Some? ==> s.running.value in s.pcs)
    && (s.stateLock.Some? ==> s.stateLock.value in s.pcs)
    && (s.operationLock.Some? ==> s.operationLock.value in s.pcs)
    && (forall t | t in s.queue :: t in s.pcs)
    && (forall t | t in s.starts :: t in s.pcs)
    && (forall t | t in s.tickets :: t in s.pcs)
  }

  ghost predicate Control(s: State) {
    && Known(s)
    && (forall t {:trigger TaskOk(s, t)} | t in s.pcs :: TaskOk(s, t))
    && Distinct(s.queue)
    && (s.fields.active <==> s.operationLock.Some? && MarkedActive(s.pcs[s.operationLock.value]))
  }

  ghost predicate Counted(s: State) {
    && s.fields.admitted == |InFlightTasks(s.pcs)|
    && s.fields.admitted <= s.maxQueue + 1
  }

  /** The lock holder whose work has not begun yet, if there is one. */
  function Chosen(s: State): seq<Task> {
    match s.operationLock
    case None => []
    case Some(t) => if t in s.pcs && (s.pcs[t].AtActivate? || s.pcs[t].InActivate?) then [t] else []
  }

  /** The call that has been admitted but has not reached the operation lock yet. */
  function Arriving(s: State): seq<Task> {
    match s.running
    case None => []
    case Some(t) => if Is(s, t, AtOperation) then [t] else []
  }

  /** Started work, then the calls that wait, in the order in which they are served. */
  function Line(s: State): seq<Task> {
    s.starts + Chosen(s) + s.queue + Arriving(s)
  }

  ghost predicate InOrder(line: seq<Task>, tickets: map<Task, nat>) {
    && (forall t | t in line :: t in tickets)
    && (forall i, j | 0 <= i < j < |line| :: tickets[line[i]] < tickets[line[j]])
  }

  ghost predicate Bounded(line: seq<Task>, found: map<Task, Found>, maxQueue: nat) {
    forall i | 0 <= i < |line| ::
      && line[i] in found
      && i + (if found[line[i]].busy then 1 else 0) <= found[line[i]].started + maxQueue
  }

  ghost predicate Ordered(s: State) {
    && (forall t | t in s.tickets :: s.tickets[t] < |s.tickets|)
    && InOrder(Line(s), s.tickets)
    && Bounded(Line(s), s.found, s.maxQueue)
  }

  ghost predicate Inv(s: State) {
    Control(s) && Counted(s) && Ordered(s)
  }

  // ----- preservation

  lemma CountChange(pcs: map<Task, Pc>, t: Task, pc: Pc)
    ensures var before, after := t in pcs && InFlight(pcs[t]), InFlight(pc);
      |InFlightTasks(pcs[t := pc])| == |InFlightTasks(pcs)| + (if after then 1 else 0) - (if before then 1 else 0)
  {
    var a, b := InFlightTasks(pcs), InFlightTasks(pcs[t := pc]);
    if InFlight(pc) {
      assert b == a + {t};
    } else {
      assert b == a - {t};
    }
  }

  lemma {:induction false} WithoutExact(q: seq<Task>, t: Task)
    requires Distinct(q)
    ensures Distinct(Without(q, t))
    ensures forall u :: u in Without(q, t) <==> u in q && u != t
  {
    if q != [] {
      var tail := q[1..];
      assert q == [q[0]] + tail;
      assert forall i, j | 0 <= i < j < |tail| :: tail[i] == q[i + 1] && tail[j] == q[j + 1];
      WithoutExact(tail, t);
      assert q[0] !in tail;
      var r := Without(q, t);
      if q[0] != t {
        assert r == [q[0]] + Without(tail, t);
        forall i, j | 0 <= i < j < |r| ensures r[i] != r[j] {
          assert r[j] in Without(tail, t);
        }
      } else {
        assert r == tail;
      }
    }
  }

  /** b differs from a at most in whether it names t. */
  ghost predicate OnlyAbout(a: Option<Task>, b: Option<Task>, t: Task) {
    a == b || (a.GetOr(t) == t && b.GetOr(t) == t)
  }

  /** A step of t leaves the view of every other task as it was. */
  ghost predicate Unseen(s: State, s': State, t: Task) {
    && t in s'.pcs && s'.pcs == s.pcs[t := s'.pcs[t]]
    && OnlyAbout(s.running, s'.running, t)
    && OnlyAbout(s.stateLock, s'.stateLock, t)
    && OnlyAbout(s.operationLock, s'.operationLock, t)
    && (forall u | u != t :: u in s'.queue <==> u in s.queue)
    && (forall u | u != t :: u in s'.starts <==> u in s.starts)
    && (forall u | u != t :: u in s'.tickets <==> u in s.tickets)
  }

  lemma StepControl(s: State, s': State, t: Task)
    requires Control(s) && Unseen(s, s', t) && Known(s') && Distinct(s'.queue)
    requires TaskOk(s', t)
    requires s'.fields.active <==> s'.operationLock.Some? && MarkedActive(s'.pcs[s'.operationLock.value])
    ensures Control(s')
  {
    forall u | u in s'.pcs ensures TaskOk(s', u) {
      if u != t {
        assert TaskOk(s, u);
      }
    }
  }

  lemma KeepsControl(s: State, e: Event)
    requires Control(s) && Next(s, e).Some?
    ensures Control(Next(s, e).value)
  {
    match e
    case Call(t) => CallKeepsControl(s, t);
    case Micro => MicroKeepsControl(s, s.running.value);
    case Suspend => SwitchKeepsControl(s, s.running.value);
    case Resume(t) => SwitchKeepsControl(s, t);
    case Finish => FinishKeepsControl(s);
    case HandOver => HandOverKeepsControl(s);
    case Cancel(t) => CancelKeepsControl(s, t);
  }

  lemma CallKeepsControl(s: State, t: Task)
    requires Control(s) && Next(s, Call(t)).Some?
    ensures Control(Next(s, Call(t)).value)
  {
    StepControl(s, Next(s, Call(t)).value, t);
  }

  lemma SwitchKeepsControl(s: State, t: Task)
    requires Control(s) && Is(s, t, Working)
    ensures s.running == Some(t) ==> Control(s.(running := None))
    ensures s.running.None? ==> Control(s.(running := Some(t)))
  {
    assert TaskOk(s, t);
    if s.running == Some(t) {
      StepControl(s, s.(running := None), t);
    } else if s.running.None? {
      StepControl(s, s.(running := Some(t)), t);
    }
  }

  lemma FinishKeepsControl(s: State)
    requires Control(s) && Next(s, Finish).Some?
    ensures Control(Next(s, Finish).value)
  {
    var t := s.running.value;
    assert TaskOk(s, t);
    StepControl(s, Goto(s, t, AtDeactivate), t);
  }

  lemma HandOverKeepsControl(s: State)
    requires Control(s) && Next(s, HandOver).Some?
    ensures Control(Next(s, HandOver).value)
  {
    var t := s.queue[0];
    assert s.queue == [t] + s.queue[1..];
    assert TaskOk(s, t);
    StepControl(s, Next(s, HandOver).value, t);
  }

  lemma CancelKeepsControl(s: State, t: Task)
    requires Control(s) && Next(s, Cancel(t)).Some?
    ensures Control(Next(s, Cancel(t)).value)
  {
    WithoutExact(s.queue, t);
    assert TaskOk(s, t);
    StepControl(s, Next(s, Cancel(t)).value, t);
  }

  lemma MicroKeepsControl(s: State, t: Task)
    requires Control(s) && s.running == Some(t) && MicroStep(s, t).Some?
    ensures Control(MicroStep(s, t).value)
  {
    match s.pcs[t]
    case Entering => TakeKeepsControl(s, t, InAdmit);
    case AtActivate => TakeKeepsControl(s, t, InActivate);
    case AtDeactivate => TakeKeepsControl(s, t, InDeactivate);
    case AtLeave => TakeKeepsControl(s, t, InLeave);
    case InAdmit => AdmitKeepsControl(s, t);
    case AtOperation => OperationKeepsControl(s, t);
    case InActivate => BodyKeepsControl(s, t);
    case InDeactivate => BodyKeepsControl(s, t);
    case AtRelease => ReleaseKeepsControl(s, t);
    case InLeave => LeaveKeepsControl(s, t);
  }

  predicate Takes(from: Pc, to: Pc) {
    match from
    case Entering => to == InAdmit
    case AtActivate => to == InActivate
    case AtDeactivate => to == InDeactivate
    case AtLeave => to == InLeave
    case _ => false
  }

  lemma TakeKeepsControl(s: State, t: Task, pc: Pc)
    requires Control(s) && s.running == Some(t) && TakeState(s, t, pc).Some? && Takes(s.pcs[t], pc)
    ensures Control(TakeState(s, t, pc).value)
  {
    assert TaskOk(s, t);
    StepControl(s, TakeState(s, t, pc).value, t);
  }

  lemma AdmitKeepsControl(s: State, t: Task)
    requires Control(s) && s.running == Some(t) && s.pcs[t] == InAdmit
    ensures Control(AdmitStep(s, t))
  {
    if Admit(s.fields, s.maxQueue).None? {
      RejectedKeepsControl(s, t);
    } else {
      AdmittedKeepsControl(s, t, AdmitStep(s, t));
    }
  }

  lemma RejectedKeepsControl(s: State, t: Task)
    requires Control(s) && s.running == Some(t) && s.pcs[t] == InAdmit
    ensures Control(Goto(s, t, Rejected).(stateLock := None, running := None))
  {
    assert TaskOk(s, t);
    StepControl(s, Goto(s, t, Rejected).(stateLock := None, running := None), t);
  }

  lemma AdmittedKeepsControl(s: State, t: Task, s': State)
    requires Control(s) && s.running == Some(t) && s.pcs[t] == InAdmit
    requires s'.pcs == s.pcs[t := AtOperation] && s'.running == s.running && s'.stateLock.None?
    requires s'.operationLock == s.operationLock && s'.queue == s.queue && s'.starts == s.starts
    requires s'.tickets.Keys == s.tickets.Keys + {t} && s'.fields.active == s.fields.active
    ensures Control(s')
  {
    assert TaskOk(s, t);
    StepControl(s, s', t);
  }

  lemma OperationKeepsControl(s: State, t: Task)
    requires Control(s) && s.running == Some(t) && s.pcs[t] == AtOperation
    ensures Control(OperationStep(s, t))
  {
    assert TaskOk(s, t);
    StepControl(s, OperationStep(s, t), t);
  }

  lemma BodyKeepsControl(s: State, t: Task)
    requires Control(s) && s.running == Some(t) && (s.pcs[t].InActivate? || s.pcs[t].InDeactivate?)
    ensures Control(MicroStep(s, t).value)
  {
    assert TaskOk(s, t);
    StepControl(s, MicroStep(s, t).value, t);
  }

  lemma ReleaseKeepsControl(s: State, t: Task)
    requires Control(s) && s.running == Some(t) && s.pcs[t] == AtRelease
    ensures Control(MicroStep(s, t).value)
  {
    assert TaskOk(s, t);
    StepControl(s, MicroStep(s, t).value, t);
  }

  lemma LeaveKeepsControl(s: State, t: Task)
    requires Control(s) && s.running == Some(t) && s.pcs[t] == InLeave
    ensures Control(MicroStep(s, t).value)
  {
    assert TaskOk(s, t);
    StepControl(s, MicroStep(s, t).value, t);
  }

  // The number of admitted calls.

  /** A micro step moves one program counter forward; it changes the number of admitted calls by
    exactly what that move changes in the number of calls in flight. */
  ghost predicate Moves(s: State, t: Task, s': State)
    requires t in s.pcs
  {
    && t in s'.pcs && s'.pcs == s.pcs[t := s'.pcs[t]] && s'.maxQueue == s.maxQueue
    && s'.fields.admitted == s.fields.admitted
       + (if InFlight(s'.pcs[t]) then 1 else 0) - (if InFlight(s.pcs[t]) then 1 else 0)
    && (s'.fields.admitted > s.fields.admitted ==> s'.fields.admitted <= s.maxQueue + 1)
    && StepsLeft(s'.pcs[t]) < StepsLeft(s.pcs[t])
  }

  lemma MicroMoves(s: State, t: Task)
    requires t in s.pcs && MicroStep(s, t).Some?
    ensures Moves(s, t, MicroStep(s, t).value)
  {
    match s.pcs[t]
    case InAdmit => AdmitMoves(s, t);
    case AtOperation => OperationMoves(s, t);
    case Entering => TakeMoves(s, t, InAdmit);
    case AtActivate => TakeMoves(s, t, InActivate);
    case AtDeactivate => TakeMoves(s, t, InDeactivate);
    case AtLeave => TakeMoves(s, t, InLeave);
    case _ =>
  }

  lemma TakeMoves(s: State, t: Task, pc: Pc)
    requires t in s.pcs && TakeState(s, t, pc).Some? && InFlight(pc) == InFlight(s.pcs[t])
    requires StepsLeft(pc) < StepsLeft(s.pcs[t])
    ensures Moves(s, t, TakeState(s, t, pc).value)
  {
  }

  lemma OperationMoves(s: State, t: Task)
    requires t in s.pcs && s.pcs[t] == AtOperation
    ensures Moves(s, t, OperationStep(s, t))
  {
  }

  lemma AdmitMoves(s: State, t: Task)
    requires t in s.pcs && s.pcs[t] == InAdmit
    ensures Moves(s, t, AdmitStep(s, t))
  {
  }

  lemma MicroKeepsCounted(s: State, t: Task)
    requires Counted(s) && t in s.pcs && MicroStep(s, t).Some?
    ensures Counted(MicroStep(s, t).value)
  {
    MicroMoves(s, t);
    CountChange(s.pcs, t, MicroStep(s, t).value.pcs[t]);
  }

  lemma KeepsCounted(s: State, e: Event)
    requires Control(s) && Counted(s) && Next(s, e).Some?
    ensures Counted(Next(s, e).value)
  {
    match e
    case Call(t) => CountChange(s.pcs, t, Entering);
    case Micro => MicroKeepsCounted(s, s.running.value);
    case Suspend =>
    case Resume(t) =>
    case Finish => CountChange(s.pcs, s.running.value, AtDeactivate);
    case HandOver =>
      assert TaskOk(s, s.queue[0]);
      CountChange(s.pcs, s.queue[0], AtActivate);
    case Cancel(t) =>
      assert TaskOk(s, t);
      CountChange(s.pcs, t, AtLeave);
  }

  // The order of service.

  lemma DropOne(line: seq<Task>, k: nat, tickets: map<Task, nat>, found: map<Task, Found>, maxQueue: nat)
    requires k < |line| && InOrder(line, tickets) && Bounded(line, found, maxQueue)
    ensures InOrder(line[..k] + line[k + 1..], tickets)
    ensures Bounded(line[..k] + line[k + 1..], found, maxQueue)
  {
  }

  lemma {:induction false} WithoutIndex(q: seq<Task>, t: Task) returns (k: nat)
    requires t in q
    ensures k < |q| && Without(q, t) == q[..k] + q[k + 1..]
  {
    if q[0] == t {
      k := 0;
    } else {
      var j := WithoutIndex(q[1..], t);
      k := j + 1;
      assert q[..k] == [q[0]] + q[1..][..j];
      assert q[k + 1..] == q[1..][j + 1..];
    }
  }

  lemma DropFromTail(head: seq<Task>, q: seq<Task>, k: nat)
    requires k < |q|
    ensures head + (q[..k] + q[k + 1..]) == (head + q)[..|head| + k] + (head + q)[|head| + k + 1..]
  {
  }

  /** Cancelling a queued call drops one place of the line. */
  lemma LineAtCancel(s: State, t: Task) returns (j: nat)
    requires Control(s) && Next(s, Cancel(t)).Some?
    ensures j < |Line(s)| && Line(Next(s, Cancel(t)).value) == Line(s)[..j] + Line(s)[j + 1..]
  {
    var s' := Next(s, Cancel(t)).value;
    assert TaskOk(s, t);
    assert Chosen(s') == Chosen(s) && Arriving(s) == [] && Arriving(s') == [];
    var head := s.starts + Chosen(s);
    var k := WithoutIndex(s.queue, t);
    DropFromTail(head, s.queue, k);
    assert Line(s) == head + s.queue && Line(s') == head + s'.queue;
    j := |head| + k;
  }

  lemma CancelLine(s: State, t: Task)
    requires Control(s) && Next(s, Cancel(t)).Some? && Ordered(s)
    ensures Ordered(Next(s, Cancel(t)).value)
  {
    var j := LineAtCancel(s, t);
    DropOne(Line(s), j, s.tickets, s.found, s.maxQueue);
    OrderedFrom(s, Next(s, Cancel(t)).value);
  }

  lemma OrderedFrom(s: State, s': State)
    requires Ordered(s) && s'.tickets == s.tickets && s'.found == s.found && s'.maxQueue == s.maxQueue
    requires InOrder(Line(s'), s.tickets) && Bounded(Line(s'), s.found, s.maxQueue)
    ensures Ordered(s')
  {
  }

  /** Whoever is admitted finds at most maxQueue calls in flight: those that wait, and the one
    whose work is in progress. */
  lemma RoomAtAdmission(s: State, t: Task)
    requires Control(s) && Counted(s) && s.running == Some(t) && s.pcs[t] == InAdmit
    requires Admit(s.fields, s.maxQueue).Some?
    ensures |Chosen(s)| + |s.queue| + (if s.fields.active then 1 else 0) <= s.maxQueue
  {
    var waiting := Elements(s.queue);
    DistinctCount(s.queue);
    forall u | u in waiting ensures u in InFlightTasks(s.pcs) {
      assert TaskOk(s, u);
    }
    if s.operationLock.None? {
      SubsetCount(waiting, InFlightTasks(s.pcs));
    } else {
      var h := s.operationLock.value;
      assert TaskOk(s, h);
      SubsetCount(waiting + {h}, InFlightTasks(s.pcs));
    }
  }

  lemma AdmitLine(s: State, t: Task)
    requires Control(s) && Counted(s) && Ordered(s) && s.running == Some(t) && s.pcs[t] == InAdmit
    ensures Ordered(AdmitStep(s, t))
  {
    var s' := AdmitStep(s, t);
    assert TaskOk(s, t);
    assert s.operationLock != Some(t);
    assert Chosen(s') == Chosen(s) && Arriving(s) == [];
    var line := s.starts + Chosen(s) + s.queue;
    assert Line(s) == line;
    if Admit(s.fields, s.maxQueue).None? {
      assert Line(s') == line;
    } else {
      RoomAtAdmission(s, t);
      assert Line(s') == line + [t];
      Extends(line, t, s.tickets, s.found, s.maxQueue, Found(|s.starts|, s.fields.active));
    }
  }

  lemma Extends(line: seq<Task>, t: Task, tickets: map<Task, nat>, found: map<Task, Found>, maxQueue: nat, f: Found)
    requires InOrder(line, tickets) && Bounded(line, found, maxQueue) && t !in tickets
    requires forall u | u in tickets :: tickets[u] < |tickets|
    requires |line| + (if f.busy then 1 else 0) <= f.started + maxQueue
    ensures var tickets' := tickets[t := |tickets|];
      && (forall u | u in tickets' :: tickets'[u] < |tickets'|)
      && InOrder(line + [t], tickets')
      && Bounded(line + [t], found[t := f], maxQueue)
  {
  }

  /** The remaining steps do not touch the line. */
  lemma SameLine(s: State, s': State)
    requires Ordered(s) && Line(s') == Line(s)
    requires s'.tickets == s.tickets && s'.found == s.found && s'.maxQueue == s.maxQueue
    ensures Ordered(s')
  {
  }

  lemma MicroKeepsOrdered(s: State, t: Task)
    requires Control(s) && Counted(s) && Ordered(s) && s.running == Some(t) && MicroStep(s, t).Some?
    ensures Ordered(MicroStep(s, t).value)
  {
    assert TaskOk(s, t);
    if s.pcs[t].InAdmit? {
      AdmitLine(s, t);
    } else if s.pcs[t].AtOperation? {
      OperationLine(s, t);
    } else {
      var s' := MicroStep(s, t).value;
      OtherLine(s, t, s');
      SameLine(s, s');
    }
  }

  lemma OperationLine(s: State, t: Task)
    requires Control(s) && Ordered(s) && s.running == Some(t) && s.pcs[t] == AtOperation
    ensures Ordered(OperationStep(s, t))
  {
    assert TaskOk(s, t);
    var s' := OperationStep(s, t);
    if s.operationLock.None? && s.queue == [] {
      assert Line(s') == s.starts + [t] + [] + [];
      assert Line(s) == s.starts + [] + [] + [t];
    } else {
      assert Chosen(s') == Chosen(s);
      assert Line(s') == s.starts + Chosen(s) + (s.queue + [t]) + [];
      assert Line(s) == s.starts + Chosen(s) + s.queue + [t];
    }
    assert Line(s') == Line(s);
    SameLine(s, s');
  }

  lemma OtherLine(s: State, t: Task, s': State)
    requires Control(s) && s.running == Some(t) && MicroStep(s, t) == Some(s')
    requires !s.pcs[t].InAdmit? && !s.pcs[t].AtOperation?
    ensures Line(s') == Line(s)
  {
    assert TaskOk(s, t);
    assert Arriving(s) == [] && Arriving(s') == [];
    if s.pcs[t].InActivate? {
      assert Chosen(s) == [t] && Chosen(s') == [];
      assert s.starts + [t] + [] + s.queue == s.starts + [t] + s.queue;
    } else {
      assert Chosen(s') == Chosen(s);
    }
  }

  lemma HandOverLine(s: State)
    requires Control(s) && Ordered(s) && Next(s, HandOver).Some?
    ensures Ordered(Next(s, HandOver).value)
  {
    var s' := Next(s, HandOver).value;
    var q := s.queue;
    assert q == [q[0]] + q[1..];
    assert Line(s') == s.starts + [q[0]] + q[1..] + [];
    assert Line(s) == s.starts + [] + q + [];
    assert Line(s') == Line(s);
    SameLine(s, s');
  }

  lemma KeepsOrdered(s: State, e: Event)
    requires Inv(s) && Next(s, e).Some?
    ensures Ordered(Next(s, e).value)
  {
    var s' := Next(s, e).value;
    match e
    case Call(t) =>
      assert Chosen(s') == Chosen(s);
      SameLine(s, s');
    case Micro => MicroKeepsOrdered(s, s.running.value);
    case Suspend => SameLine(s, s');
    case Resume(t) => SameLine(s, s');
    case Finish =>
      assert Chosen(s') == Chosen(s);
      SameLine(s, s');
    case HandOver => HandOverLine(s);
    case Cancel(t) => CancelLine(s, t);
  }

  lemma KeepsInv(s: State, e: Event)
    requires Inv(s) && Next(s, e).Some?
    ensures Inv(Next(s, e).value) && Next(s, e).value.maxQueue == s.maxQueue
  {
    KeepsControl(s, e);
    KeepsCounted(s, e);
    KeepsOrdered(s, e);
    if e.Micro? {
      MicroMoves(s, s.running.value);
    }
  }

  /** Every state that any interleaving can reach, with any works failing and any waiting or
    working call being cancelled, satisfies the invariant. */
  lemma {:induction false} Reachable(maxQueue: nat, events: seq<Event>)
    requires Run(maxQueue, events).Some?
    ensures Inv(Run(maxQueue, events).value) && Run(maxQueue, events).value.maxQueue == maxQueue
  {
    if events == [] {
      assert InFlightTasks(Initial(maxQueue).pcs) == {};
    } else {
      var front := events[..|events| - 1];
      Reachable(maxQueue, front);
      KeepsInv(Run(maxQueue, front).value, events[|events| - 1]);
    }
  }

  // ----- what holds in every reachable state

  /** At most one `work()` runs; `_admitted` counts the calls in flight and never exceeds
    max_queue + 1; `_active` holds only while the operation lock is held. */
  lemma Safety(maxQueue: nat, events: seq<Event>, t: Task, u: Task)
    requires Run(maxQueue, events).Some?
    ensures var s := Run(maxQueue, events).value;
      && (Is(s, t, Working) && Is(s, u, Working) ==> t == u)
      && s.fields.admitted == |InFlightTasks(s.pcs)| <= maxQueue + 1
      && (s.fields.active ==> s.operationLock.Some?)
      && (Is(s, t, Working) ==> s.fields.active && s.operationLock == Some(t))
      && (Is(s, t, Rejected) ==> t !in s.starts)
  {
    Reachable(maxQueue, events);
    var s := Run(maxQueue, events).value;
    if t in s.pcs { assert TaskOk(s, t); }
    if u in s.pcs { assert TaskOk(s, u); }
  }

  /** When no call is in flight, everything is back in its initial position. */
  lemma Quiescence(maxQueue: nat, events: seq<Event>)
    requires Run(maxQueue, events).Some?
    requires InFlightTasks(Run(maxQueue, events).value.pcs) == {}
    ensures var s := Run(maxQueue, events).value;
      s.fields == Fields(0, false) && s.operationLock.None? && s.queue == []
  {
    Reachable(maxQueue, events);
    var s := Run(maxQueue, events).value;
    if s.operationLock.Some? {
      HolderInFlight(s);
    }
    if s.queue != [] {
      QueuedInFlight(s);
    }
  }

  lemma HolderInFlight(s: State)
    requires Control(s) && s.operationLock.Some?
    ensures s.operationLock.value in InFlightTasks(s.pcs)
  {
    assert TaskOk(s, s.operationLock.value);
  }

  lemma QueuedInFlight(s: State)
    requires Control(s) && s.queue != []
    ensures s.queue[0] in InFlightTasks(s.pcs)
  {
    assert s.queue[0] in s.queue;
    assert TaskOk(s, s.queue[0]);
  }

  lemma StateLockHolderRuns(s: State)
    requires Control(s) && s.stateLock.Some?
    ensures s.running == s.stateLock && UnderStateLock(s.pcs[s.running.value])
  {
    assert TaskOk(s, s.stateLock.value);
  }

  /** The calls whose work is in progress, from its start to the end of the block that clears the
    mark. */
  ghost function AtWork(s: State): set<Task> {
    set t | t in s.pcs && (s.pcs[t].Working? || s.pcs[t].AtDeactivate? || s.pcs[t].InDeactivate?)
  }

  /** The calls that have been admitted and have not left. */
  ghost function Admitted(s: State): set<Task> {
    set t | t in s.pcs
      && !s.pcs[t].Entering? && !s.pcs[t].InAdmit? && !s.pcs[t].Rejected? && !s.pcs[t].Done?
  }

  lemma AtWorkExact(s: State)
    requires Control(s)
    ensures s.fields.active <==> AtWork(s) != {}
    ensures |AtWork(s)| == if s.fields.active then 1 else 0
  {
    forall t | t in AtWork(s) ensures s.operationLock == Some(t) {
      assert TaskOk(s, t);
    }
    if s.fields.active {
      assert s.operationLock.value in AtWork(s);
      assert AtWork(s) == {s.operationLock.value};
    } else {
      assert AtWork(s) == {};
    }
  }

  /** A snapshot tells exactly whether a work is in progress, and how many admitted calls are not at
    work. The clamp never acts, and the reported queue exceeds max_queue exactly in the window in which
    max_queue + 1 calls are admitted and none is at work. */
  lemma SnapshotExact(maxQueue: nat, events: seq<Event>)
    requires Run(maxQueue, events).Some?
    ensures var s := Run(maxQueue, events).value;
      var snap := Snapshot(s.fields, maxQueue);
      && (snap.active <==> AtWork(s) != {})
      && snap.queued == |Admitted(s) - AtWork(s)|
      && snap.maxQueue == maxQueue
      && (snap.queued > maxQueue <==> AtWork(s) == {} && |Admitted(s)| == maxQueue + 1)
  {
    Reachable(maxQueue, events);
    var s := Run(maxQueue, events).value;
    AtWorkExact(s);
    assert Admitted(s) == InFlightTasks(s.pcs);
    assert AtWork(s) <= Admitted(s);
    SetMinus(Admitted(s), AtWork(s));
  }

  lemma SetMinus(a: set<Task>, b: set<Task>)
    requires b <= a
    ensures |a - b| == |a| - |b|
  {
    assert a == (a - b) + b;
  }

  /** What can happen in a reachable state. A new call, the end of a wait in the queue, a cancellation and
    the resumption of a work need the loop to be idle; a running call always has a next step, which the
    work itself decides while it is in progress. */
  lemma EventsExact(maxQueue: nat, events: seq<Event>, e: Event)
    requires Run(maxQueue, events).Some?
    ensures var s := Run(maxQueue, events).value;
      Next(s, e).Some? <==>
        match e
        case Call(t) => s.running.None? && t !in s.pcs
        case Micro => s.running.Some? && !Is(s, s.running.value, Working)
        case Suspend => s.running.Some? && Is(s, s.running.value, Working)
        case Finish => s.running.Some? && Is(s, s.running.value, Working)
        case Resume(t) => s.running.None? && Is(s, t, Working)
        case HandOver => s.running.None? && s.operationLock.None? && exists t :: Is(s, t, Queued)
        case Cancel(t) => s.running.None? && Is(s, t, Queued)
  {
    Reachable(maxQueue, events);
    var s := Run(maxQueue, events).value;
    match e
    case HandOver => SomebodyQueues(s);
    case Cancel(t) => QueuedExact(s, t);
    case Micro => RunningGoesOn(s);
    case _ =>
  }

  /** A call is turned away exactly when max_queue + 1 others have been admitted and have not left; it
    then changes nothing. Otherwise it is admitted under the next number and counted. */
  lemma AdmissionExact(maxQueue: nat, events: seq<Event>, t: Task)
    requires Run(maxQueue, events).Some?
    requires var s := Run(maxQueue, events).value; s.running == Some(t) && Is(s, t, InAdmit)
    ensures var s := Run(maxQueue, events).value;
      && Next(s, Micro).Some?
      && var next := Next(s, Micro).value;
         if |Admitted(s)| == maxQueue + 1 then
           Is(next, t, Rejected) && next.fields == s.fields && next.tickets == s.tickets
         else
           && Is(next, t, AtOperation) && next.fields == Fields(s.fields.admitted + 1, s.fields.active)
           && next.tickets == s.tickets[t := |s.tickets|]
  {
    Reachable(maxQueue, events);
    var s := Run(maxQueue, events).value;
    assert Admitted(s) == InFlightTasks(s.pcs);
  }

  lemma QueuedExact(s: State, t: Task)
    requires Control(s)
    ensures t in s.queue <==> Is(s, t, Queued)
  {
    if t in s.pcs {
      assert TaskOk(s, t);
    }
  }

  lemma SomebodyQueues(s: State)
    requires Control(s)
    ensures s.queue != [] <==> exists t :: Is(s, t, Queued)
  {
    if s.queue != [] {
      QueuedExact(s, s.queue[0]);
    }
    if t :| Is(s, t, Queued) {
      QueuedExact(s, t);
    }
  }

  lemma RunningGoesOn(s: State)
    requires Control(s)
    ensures Next(s, Micro).Some? <==> s.running.Some? && !Is(s, s.running.value, Working)
  {
    if s.running.Some? {
      assert TaskOk(s, s.running.value);
      if s.stateLock.Some? {
        StateLockHolderRuns(s);
      }
    }
  }

  /** The state lock is free whenever the running task is about to take it: no task is ever
    suspended inside its body, so no acquire of it ever waits. */
  lemma StateLockNeverContended(maxQueue: nat, events: seq<Event>, t: Task)
    requires Run(maxQueue, events).Some?
    requires var s := Run(maxQueue, events).value;
      && s.running == Some(t)
      && (Is(s, t, Entering) || Is(s, t, AtActivate) || Is(s, t, AtDeactivate) || Is(s, t, AtLeave))
    ensures Run(maxQueue, events).value.stateLock.None?
    ensures Next(Run(maxQueue, events).value, Micro).Some?
  {
    Reachable(maxQueue, events);
    var s := Run(maxQueue, events).value;
    if s.stateLock.Some? {
      StateLockHolderRuns(s);
    }
  }

  /** Works start in the order in which their calls were admitted, without repetition. */
  lemma StartsInAdmissionOrder(maxQueue: nat, events: seq<Event>, i: nat, j: nat)
    requires Run(maxQueue, events).Some? && i < j < |Run(maxQueue, events).value.starts|
    ensures var s := Run(maxQueue, events).value;
      && s.starts[i] in s.tickets && s.starts[j] in s.tickets
      && s.tickets[s.starts[i]] < s.tickets[s.starts[j]]
  {
    Reachable(maxQueue, events);
    var s := Run(maxQueue, events).value;
    assert Line(s)[i] == s.starts[i] && Line(s)[j] == s.starts[j];
  }

  /** Between a call's admission and the start of its work, at most max_queue other works run:
    those started meanwhile, and the one that was in progress. */
  lemma BoundedWait(maxQueue: nat, events: seq<Event>, i: nat)
    requires Run(maxQueue, events).Some? && i < |Run(maxQueue, events).value.starts|
    ensures var s := Run(maxQueue, events).value;
      && s.starts[i] in s.found
      && i - s.found[s.starts[i]].started + (if s.found[s.starts[i]].busy then 1 else 0) <= maxQueue
  {
    Reachable(maxQueue, events);
    var s := Run(maxQueue, events).value;
    assert Line(s)[i] == s.starts[i];
  }

  // ----- every call is served

  /** The steps that a call has still to take, its own work not counted. */
  function StepsLeft(pc: Pc): nat {
    match pc
    case Entering => 12
    case InAdmit => 11
    case AtOperation => 10
    case Queued => 9
    case AtActivate => 8
    case InActivate => 7
    case Working => 6
    case AtDeactivate => 5
    case InDeactivate => 4
    case AtRelease => 3
    case AtLeave => 2
    case InLeave => 1
    case Rejected => 0
    case Done => 0
  }

  /** The steps that the calls below n have still to take. */
  function Load(pcs: map<Task, Pc>, n: nat): nat {
    if n == 0 then 0 else Load(pcs, n - 1) + (if n - 1 in pcs then StepsLeft(pcs[n - 1]) else 0)
  }

  lemma {:induction false} LoadUpdate(pcs: map<Task, Pc>, t: Task, pc: Pc, n: nat)
    ensures Load(pcs[t := pc], n) + (if t < n && t in pcs then StepsLeft(pcs[t]) else 0)
         == Load(pcs, n) + (if t < n then StepsLeft(pc) else 0)
  {
    if n > 0 {
      LoadUpdate(pcs, t, pc, n - 1);
    }
  }

  /** Steps that carry a call on, as against new calls and the pauses inside a work. */
  predicate Progress(e: Event) {
    e.Micro? || e.Finish? || e.HandOver? || e.Cancel?
  }

  /** The call that a step of progress is about. */
  function Mover(s: State, e: Event): Option<Task> {
    match e
    case Micro => s.running
    case Finish => s.running
    case HandOver => if s.queue == [] then None else Some(s.queue[0])
    case Cancel(t) => Some(t)
    case _ => None
  }

  lemma MicroCarriesOn(s: State, t: Task)
    requires Control(s) && s.running == Some(t) && t in s.pcs && MicroStep(s, t).Some?
    ensures var s' := MicroStep(s, t).value;
      t in s'.pcs && s'.pcs == s.pcs[t := s'.pcs[t]] && StepsLeft(s'.pcs[t]) < StepsLeft(s.pcs[t])
  {
    MicroMoves(s, t);
  }

  lemma CarriesOn(s: State, e: Event)
    requires Control(s) && Progress(e) && Next(s, e).Some?
    ensures Mover(s, e).Some? && Mover(s, e).value in s.pcs
    ensures var t := Mover(s, e).value;
      var s' := Next(s, e).value;
      t in s'.pcs && s'.pcs == s.pcs[t := s'.pcs[t]] && StepsLeft(s'.pcs[t]) < StepsLeft(s.pcs[t])
  {
    var t := Mover(s, e).value;
    assert TaskOk(s, t);
    if e.Micro? {
      MicroCarriesOn(s, t);
    }
  }

  /** Every task is a number below n. */
  ghost predicate Below(s: State, n: nat) {
    forall t | t in s.pcs :: t < n
  }

  function Spending(e: Event): nat {
    if Progress(e) then 1 else 0
  }

  function Funding(e: Event): nat {
    if e.Call? then 12 else 0
  }

  lemma StepLoad(s: State, e: Event, n: nat)
    requires Control(s) && Next(s, e).Some? && Below(s, n) && (e.Call? ==> e.t < n)
    ensures Below(Next(s, e).value, n)
    ensures Load(Next(s, e).value.pcs, n) + Spending(e) <= Load(s.pcs, n) + Funding(e)
  {
    var s' := Next(s, e).value;
    if Progress(e) {
      CarriesOn(s, e);
      LoadUpdate(s.pcs, Mover(s, e).value, s'.pcs[Mover(s, e).value], n);
    } else if e.Call? {
      LoadUpdate(s.pcs, e.t, Entering, n);
    } else {
      assert s'.pcs == s.pcs;
    }
  }

  function ProgressSteps(events: seq<Event>): nat {
    if events == [] then 0
    else
      ProgressSteps(events[..|events| - 1]) +
        (match events[|events| - 1]
         case Micro => 1
         case Finish => 1
         case HandOver => 1
         case Cancel(_) => 1
         case _ => 0)
  }

  function Calls(events: seq<Event>): nat {
    if events == [] then 0 else Calls(events[..|events| - 1]) + (if events[|events| - 1].Call? then 1 else 0)
  }

  lemma {:induction false} NoTasks(n: nat)
    ensures Load(map[], n) == 0
  {
    if n > 0 {
      NoTasks(n - 1);
    }
  }

  lemma {:induction false} BudgetBelow(maxQueue: nat, events: seq<Event>, n: nat)
    requires Run(maxQueue, events).Some? && forall t: Task | Call(t) in events :: t < n
    ensures var s := Run(maxQueue, events).value;
      Below(s, n) && ProgressSteps(events) + Load(s.pcs, n) <= 12 * Calls(events)
  {
    if events == [] {
      NoTasks(n);
    } else {
      var front, last := events[..|events| - 1], events[|events| - 1];
      assert events == front + [last];
      BudgetBelow(maxQueue, front, n);
      Reachable(maxQueue, front);
      StepLoad(Run(maxQueue, front).value, last, n);
    }
  }

  lemma {:induction false} CallBound(events: seq<Event>) returns (n: nat)
    ensures forall t: Task | Call(t) in events :: t < n
  {
    if events == [] {
      n := 0;
    } else {
      var front, last := events[..|events| - 1], events[|events| - 1];
      assert events == front + [last];
      n := CallBound(front);
      if last.Call? && n <= last.t {
        n := last.t + 1;
      }
    }
  }

  /** No run contains more than twelve steps of progress for each call: apart from the pauses
    inside works, nothing goes on for ever. */
  lemma ProgressBounded(maxQueue: nat, events: seq<Event>)
    requires Run(maxQueue, events).Some?
    ensures ProgressSteps(events) <= 12 * Calls(events)
  {
    var n := CallBound(events);
    BudgetBelow(maxQueue, events, n);
  }

  /** While a call is in flight the protocol is never stuck: a step of progress is possible that
    needs neither a new call nor a cancellation, if need be after resuming a work that then ends. */
  lemma NeverStuck(maxQueue: nat, events: seq<Event>)
    requires Run(maxQueue, events).Some? && InFlightTasks(Run(maxQueue, events).value.pcs) != {}
    ensures var s := Run(maxQueue, events).value;
      || Next(s, Micro).Some? || Next(s, Finish).Some? || Next(s, HandOver).Some?
      || exists t :: Next(s, Resume(t)).Some? && Next(Next(s, Resume(t)).value, Finish).Some?
  {
    Reachable(maxQueue, events);
    var s := Run(maxQueue, events).value;
    if s.running.Some? {
      var t := s.running.value;
      assert TaskOk(s, t);
      if s.stateLock.Some? {
        StateLockHolderRuns(s);
      }
    } else if s.operationLock.Some? {
      var h := s.operationLock.value;
      assert TaskOk(s, h);
      assert Next(s, Resume(h)).Some? && Next(Next(s, Resume(h)).value, Finish).Some?;
    } else {
      var t :| t in InFlightTasks(s.pcs);
      assert TaskOk(s, t);
    }
  }

  /** Past the queue without having started. */
  predicate SkippedWork(s: State, t: Task) {
    t in s.pcs && HasStarted(s.pcs[t]) && t !in s.starts
  }

  lemma StepSkips(s: State, e: Event, t: Task)
    requires Control(s) && Next(s, e).Some? && SkippedWork(Next(s, e).value, t)
    ensures SkippedWork(s, t) || e == Cancel(t)
  {
    if t in s.pcs {
      assert TaskOk(s, t);
    }
    if Progress(e) {
      CarriesOn(s, e);
      assert TaskOk(s, Mover(s, e).value);
    }
  }

  /** Only a cancelled call passes the queue without its work having started. */
  lemma {:induction false} OnlyCancelledSkip(maxQueue: nat, events: seq<Event>, t: Task)
    requires Run(maxQueue, events).Some? && SkippedWork(Run(maxQueue, events).value, t)
    ensures Cancel(t) in events
  {
    var front, last := events[..|events| - 1], events[|events| - 1];
    assert events == front + [last];
    Reachable(maxQueue, front);
    StepSkips(Run(maxQueue, front).value, last, t);
    if SkippedWork(Run(maxQueue, front).value, t) {
      OnlyCancelledSkip(maxQueue, front, t);
    }
  }

  /** Once nothing is in flight, every call has been rejected or has left; and each that was
    admitted and not cancelled has had its work started. */
  lemma EveryCallServed(maxQueue: nat, events: seq<Event>, t: Task)
    requires Run(maxQueue, events).Some? && t in Run(maxQueue, events).value.tickets
    requires InFlightTasks(Run(maxQueue, events).value.pcs) == {}
    ensures var s := Run(maxQueue, events).value;
      Is(s, t, Done) && (t in s.starts || Cancel(t) in events)
  {
    Reachable(maxQueue, events);
    var s := Run(maxQueue, events).value;
    assert TaskOk(s, t);
    assert t !in InFlightTasks(s.pcs);
    if t !in s.starts {
      OnlyCancelledSkip(maxQueue, events, t);
    }
  }

  // ----- the overfull window is reachable

  lemma Then(maxQueue: nat, events: seq<Event>, s: State, e: Event, s': State) returns (more: seq<Event>)
    requires Run(maxQueue, events) == Some(s) && Next(s, e) == Some(s')
    ensures Run(maxQueue, more) == Some(s')
  {
    more := events + [e];
    assert more[..|events|] == events;
  }

  /** The running task takes the state lock and runs the body under it. */
  lemma UnderLock(maxQueue: nat, events: seq<Event>, s: State, t: Task, pc: Pc, s': State) returns (more: seq<Event>)
    requires Run(maxQueue, events) == Some(s) && s.running == Some(t) && t in s.pcs && s.stateLock.None?
    requires Takes(s.pcs[t], pc) && MicroStep(Goto(s, t, pc).(stateLock := Some(t)), t) == Some(s')
    ensures Run(maxQueue, more) == Some(s')
  {
    var held := Goto(s, t, pc).(stateLock := Some(t));
    more := Then(maxQueue, events, s, Micro, held);
    more := Then(maxQueue, more, held, Micro, s');
  }

  /** A new call is admitted and stands before the operation lock. */
  lemma Arrive(maxQueue: nat, events: seq<Event>, s: State, t: Task) returns (more: seq<Event>, s': State)
    requires Run(maxQueue, events) == Some(s)
    requires s.running.None? && s.stateLock.None? && t !in s.pcs && s.fields.admitted <= s.maxQueue
    ensures Run(maxQueue, more) == Some(s')
    ensures s'.pcs == s.pcs[t := AtOperation] && s'.running == Some(t) && s'.stateLock.None?
    ensures s'.operationLock == s.operationLock && s'.queue == s.queue && s'.maxQueue == s.maxQueue
    ensures s'.fields == s.fields.(admitted := s.fields.admitted + 1)
  {
    var called := Goto(s, t, Entering).(running := Some(t));
    more := Then(maxQueue, events, s, Call(t), called);
    s' := AdmitStep(Goto(called, t, InAdmit).(stateLock := Some(t)), t);
    more := UnderLock(maxQueue, more, called, t, InAdmit, s');
  }

  /** A call that finds the lock taken or queued for joins the queue. */
  lemma JoinQueue(maxQueue: nat, events: seq<Event>, s: State, t: Task) returns (more: seq<Event>, s': State)
    requires Run(maxQueue, events) == Some(s)
    requires s.running.None? && s.stateLock.None? && t !in s.pcs && s.fields.admitted <= s.maxQueue
    requires s.operationLock.Some? || s.queue != []
    ensures Run(maxQueue, more) == Some(s')
    ensures s'.pcs == s.pcs[t := Queued] && s'.queue == s.queue + [t]
    ensures s'.fields == s.fields.(admitted := s.fields.admitted + 1) && s'.maxQueue == s.maxQueue
    ensures s'.running.None? && s'.stateLock.None? && s'.operationLock == s.operationLock
  {
    var there;
    more, there := Arrive(maxQueue, events, s, t);
    s' := OperationStep(there, t);
    more := Then(maxQueue, more, there, Micro, s');
  }

  /** The first call on an idle executor reaches `work()` without waiting. */
  lemma StartIdle(maxQueue: nat) returns (events: seq<Event>, s: State)
    ensures Run(maxQueue, events) == Some(s) && s.maxQueue == maxQueue
    ensures s.pcs == map[0 := Working] && s.queue == [] && s.fields == Fields(1, true)
    ensures s.running.None? && s.stateLock.None? && s.operationLock == Some(0)
  {
    var there;
    events, there := Arrive(maxQueue, [], Initial(maxQueue), 0);
    var chosen := OperationStep(there, 0);
    events := Then(maxQueue, events, there, Micro, chosen);
    var working := MicroStep(Goto(chosen, 0, InActivate).(stateLock := Some(0)), 0).value;
    events := UnderLock(maxQueue, events, chosen, 0, InActivate, working);
    s := working.(running := None);
    events := Then(maxQueue, events, working, Suspend, s);
  }

  /** A suspended work goes on and ends. */
  lemma EndSuspended(maxQueue: nat, events: seq<Event>, s: State, t: Task) returns (more: seq<Event>, s': State)
    requires Run(maxQueue, events) == Some(s)
    requires s.running.None? && s.stateLock.None? && Is(s, t, Working)
    ensures Run(maxQueue, more) == Some(s') && s' == Goto(s, t, AtDeactivate).(running := Some(t))
  {
    var resumed := s.(running := Some(t));
    more := Then(maxQueue, events, s, Resume(t), resumed);
    s' := Goto(resumed, t, AtDeactivate);
    more := Then(maxQueue, more, resumed, Finish, s');
  }

  /** A suspended work ends and its call releases the operation lock. */
  lemma Release(maxQueue: nat, events: seq<Event>, s: State, t: Task) returns (more: seq<Event>, s': State)
    requires Run(maxQueue, events) == Some(s)
    requires s.running.None? && s.stateLock.None? && Is(s, t, Working)
    ensures Run(maxQueue, more) == Some(s')
    ensures s'.pcs == s.pcs[t := AtLeave] && s'.queue == s.queue && s'.maxQueue == s.maxQueue
    ensures s'.fields == s.fields.(active := false)
    ensures s'.running == Some(t) && s'.stateLock.None? && s'.operationLock.None?
  {
    var ended;
    more, ended := EndSuspended(maxQueue, events, s, t);
    var idle := Goto(Goto(ended, t, InDeactivate), t, AtRelease).(fields := Deactivate(s.fields));
    more := UnderLock(maxQueue, more, ended, t, InDeactivate, idle);
    s' := Goto(idle, t, AtLeave).(operationLock := None);
    more := Then(maxQueue, more, idle, Micro, s');
  }

  lemma EndWork(maxQueue: nat, events: seq<Event>, s: State, t: Task) returns (more: seq<Event>, s': State)
    requires Run(maxQueue, events) == Some(s)
    requires s.running.None? && s.stateLock.None? && Is(s, t, Working)
    ensures Run(maxQueue, more) == Some(s')
    ensures s'.pcs == s.pcs[t := Done] && s'.queue == s.queue && s'.maxQueue == s.maxQueue
    ensures s'.fields == Fields(s.fields.admitted - 1, false)
    ensures s'.running.None? && s'.stateLock.None? && s'.operationLock.None?
  {
    var released;
    more, released := Release(maxQueue, events, s, t);
    s' := Goto(Goto(released, t, InLeave), t, Done).(fields := Leave(released.fields), running := None);
    more := UnderLock(maxQueue, more, released, t, InLeave, s');
  }

  /** With max_queue 1, one call leaves, the waiting one has not been resumed yet, and a third one
    is admitted behind it: a snapshot taken now reports two queued calls. */
  lemma OverfullWindow() returns (events: seq<Event>)
    ensures Run(1, events).Some? && Run(1, events).value.running.None?
    ensures Snapshot(Run(1, events).value.fields, 1) == ExecutorSnapshot(false, 2, 1)
  {
    var s: State;
    events, s := StartIdle(1);
    events, s := JoinQueue(1, events, s, 1);
    events, s := EndWork(1, events, s, 0);
    events, s := JoinQueue(1, events, s, 2);
  }
}
