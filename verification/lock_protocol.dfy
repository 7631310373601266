/** Processes that take the locks of a canonical order one at a time, in that order, and give
  them back when done (the use that src/m365_mcp/typed_locks.py:176-181 is written for).

  The steps of the processes interleave in any way. A lock is named by its order key. */
module LockProtocol {
  import opened Digests
  import opened Ordering
  import opened Results
  import opened TypedLocks

  /** A process has taken `plan[..next]` in turn and still holds `held` of them. */
  datatype Proc = Proc(plan: seq<string>, next: nat, held: set<string>)

  type State = seq<Proc>

  datatype Event = Acquire(who: nat) | Release(who: nat, lock: string)

  function Start(plans: seq<seq<string>>): (s: State)
    ensures |s| == |plans| && forall i | 0 <= i < |s| :: s[i] == Proc(plans[i], 0, {})
  {
    seq(|plans|, i requires 0 <= i < |plans| => Proc(plans[i], 0, {}))
  }

  predicate Free(s: State, lock: string) {
    forall i | 0 <= i < |s| :: lock !in s[i].held
  }

  predicate Enabled(s: State, e: Event) {
    && e.who < |s|
    && var p := s[e.who];
    match e
    case Acquire(_) => p.next < |p.plan| && Free(s, p.plan[p.next])
    case Release(_, lock) => p.next >= |p.plan| && lock in p.held
  }

  function Moved(p: Proc, e: Event): Proc
    requires e.Acquire? ==> p.next < |p.plan|
  {
    match e
    case Acquire(_) => p.(next := p.next + 1, held := p.held + {p.plan[p.next]})
    case Release(_, lock) => p.(held := p.held - {lock})
  }

  function Step(s: State, e: Event): State
    requires Enabled(s, e)
  {
    s[e.who := Moved(s[e.who], e)]
  }

  /** The state after the events, if each is enabled in its turn. */
  function Run(s: State, events: seq<Event>): Option<State>
    decreases |events|
  {
    if events == [] then Some(s)
    else if Enabled(s, events[0]) then Run(Step(s, events[0]), events[1..])
    else None
  }

  predicate Finished(p: Proc) {
    p.next >= |p.plan| && p.held == {}
  }

  // ----- what every step keeps

  ghost predicate ProcInv(p: Proc) {
    && Increasing(p.plan)
    && p.next <= |p.plan|
    && p.held <= Elements(p.plan[..p.next])
    && (p.next < |p.plan| ==> p.held == Elements(p.plan[..p.next]))
  }

  /** No lock is held twice. */
  ghost predicate MutualExclusion(s: State) {
    forall i, j | 0 <= i < j < |s| :: s[i].held !! s[j].held
  }

  ghost predicate Inv(s: State) {
    (forall p | p in s :: ProcInv(p)) && MutualExclusion(s)
  }

  ghost predicate Ordered(plans: seq<seq<string>>) {
    forall plan | plan in plans :: Increasing(plan)
  }

  lemma StartInv(plans: seq<seq<string>>)
    requires Ordered(plans)
    ensures Inv(Start(plans))
  {
  }

  lemma MovedInv(p: Proc, e: Event)
    requires ProcInv(p) && (e.Acquire? ==> p.next < |p.plan|) && (e.Release? ==> p.next == |p.plan|)
    ensures ProcInv(Moved(p, e))
  {
  }

  lemma StepInv(s: State, e: Event)
    requires Inv(s) && Enabled(s, e)
    ensures Inv(Step(s, e))
  {
    var t := Step(s, e);
    MovedInv(s[e.who], e);
    forall p | p in t ensures ProcInv(p) {
      var i :| 0 <= i < |t| && t[i] == p;
      assert i != e.who ==> p == s[i];
    }
    forall i, j | 0 <= i < j < |t| ensures t[i].held !! t[j].held {
      assert s[i].held !! s[j].held;
    }
  }

  /** Mutual exclusion in every reachable state. */
  lemma {:induction false} RunInv(s: State, events: seq<Event>)
    requires Inv(s) && Run(s, events).Some?
    ensures Inv(Run(s, events).value)
    decreases |events|
  {
    if events != [] {
      StepInv(s, events[0]);
      RunInv(Step(s, events[0]), events[1..]);
    }
  }

  // ----- no deadlock

  function Locks(s: State): set<string> {
    set p, l | p in s && l in p.plan :: l
  }

  function Above(s: State, lock: string): set<string> {
    set l | l in Locks(s) && Less(lock, l)
  }

  /** A later lock has fewer locks above it. */
  lemma FewerAbove(s: State, low: string, high: string)
    requires Less(low, high) && high in Locks(s)
    ensures |Above(s, high)| < |Above(s, low)|
  {
    LessAsymmetric(high, high);
    forall l | Less(high, l) ensures Less(low, l) {
      LessTransitive(low, high, l);
    }
    assert high in Above(s, low) && high !in Above(s, high);
    SubsetCount(Above(s, high), Above(s, low) - {high});
  }

  function Wanted(s: State, i: nat): string
    requires i < |s| && s[i].next < |s[i].plan|
  {
    s[i].plan[s[i].next]
  }

  /** A process that waits holds only locks below the one it wants. */
  lemma HeldBelowWanted(s: State, i: nat, lock: string)
    requires Inv(s) && i < |s| && s[i].next < |s[i].plan| && lock in s[i].held
    ensures Less(lock, Wanted(s, i))
  {
    assert s[i] in s;
    var k :| 0 <= k < s[i].next && s[i].plan[k] == lock;
  }

  lemma WantedIsLock(s: State, i: nat)
    requires i < |s| && s[i].next < |s[i].plan|
    ensures Wanted(s, i) in Locks(s)
  {
    assert s[i] in s && Wanted(s, i) in s[i].plan;
  }

  /** Following holders from an unfinished process reaches one that can move: each wants a lock
    above the one before, and there are only so many. */
  lemma {:induction false} FindEnabled(s: State, i: nat) returns (e: Event)
    requires Inv(s) && i < |s| && !Finished(s[i])
    ensures Enabled(s, e)
    decreases if s[i].next < |s[i].plan| then 1 + |Above(s, Wanted(s, i))| else 0
  {
    if s[i].next >= |s[i].plan| {
      var l :| l in s[i].held;
      e := Release(i, l);
    } else if Free(s, Wanted(s, i)) {
      e := Acquire(i);
    } else {
      var j :| 0 <= j < |s| && Wanted(s, i) in s[j].held;
      if s[j].next >= |s[j].plan| {
        e := Release(j, Wanted(s, i));
      } else {
        HeldBelowWanted(s, j, Wanted(s, i));
        WantedIsLock(s, j);
        FewerAbove(s, Wanted(s, i), Wanted(s, j));
        e := FindEnabled(s, j);
      }
    }
  }

  /** In every reachable state with an unfinished process, some step is enabled. */
  lemma DeadlockFree(plans: seq<seq<string>>, events: seq<Event>, s: State)
    requires Ordered(plans) && Run(Start(plans), events) == Some(s)
    requires exists i :: 0 <= i < |s| && !Finished(s[i])
    ensures exists e :: Enabled(s, e)
  {
    StartInv(plans);
    RunInv(Start(plans), events);
    var i :| 0 <= i < |s| && !Finished(s[i]);
    var e := FindEnabled(s, i);
  }

  // ----- every run ends, and ends well

  /** The steps a process has still to take. */
  function Work(p: Proc): nat
    requires p.next <= |p.plan|
  {
    2 * (|p.plan| - p.next) + |p.held|
  }

  ghost predicate Bounded(s: State) {
    forall i | 0 <= i < |s| :: s[i].next <= |s[i].plan|
  }

  ghost function Total(s: State): nat
    requires Bounded(s)
  {
    if s == [] then 0 else Work(s[0]) + Total(s[1..])
  }

  lemma {:induction false} TotalStep(s: State, i: nat, p: Proc)
    requires Bounded(s) && i < |s| && p.next <= |p.plan| && Work(p) + 1 == Work(s[i])
    ensures Bounded(s[i := p]) && Total(s[i := p]) + 1 == Total(s)
  {
    if i == 0 {
      assert s[0 := p][1..] == s[1..];
    } else {
      assert s[i := p][1..] == s[1..][i - 1 := p];
      TotalStep(s[1..], i - 1, p);
    }
  }

  lemma InvBounded(s: State)
    requires Inv(s)
    ensures Bounded(s)
  {
    forall i | 0 <= i < |s| ensures s[i].next <= |s[i].plan| {
      assert s[i] in s;
    }
  }

  lemma WorkStep(s: State, e: Event)
    requires Inv(s) && Enabled(s, e)
    ensures Bounded(s) && Bounded(Step(s, e)) && Total(Step(s, e)) + 1 == Total(s)
  {
    InvBounded(s);
    var p := s[e.who];
    assert p in s;
    if e.Acquire? {
      assert p.plan[p.next] !in p.held;
    }
    TotalStep(s, e.who, Moved(p, e));
  }

  /** Every step uses up one unit of work, so no run is longer than the work at its start. */
  lemma {:induction false} RunLength(s: State, events: seq<Event>)
    requires Inv(s) && Run(s, events).Some?
    ensures Bounded(s) && Bounded(Run(s, events).value)
    ensures |events| + Total(Run(s, events).value) == Total(s)
    decreases |events|
  {
    InvBounded(s);
    if events != [] {
      StepInv(s, events[0]);
      WorkStep(s, events[0]);
      RunLength(Step(s, events[0]), events[1..]);
    }
  }

  lemma {:induction false} NoWorkLeft(s: State)
    requires Bounded(s) && forall p | p in s :: Finished(p)
    ensures Total(s) == 0
  {
    if s != [] {
      assert s[0] in s;
      NoWorkLeft(s[1..]);
    }
  }

  /** A run that can go no further has every process finished, after exactly as many steps as
    there was work: each planned lock taken once and given back once. */
  lemma {:induction false} MaximalRunsFinish(plans: seq<seq<string>>, events: seq<Event>, s: State)
    requires Ordered(plans) && Run(Start(plans), events) == Some(s)
    requires forall e :: !Enabled(s, e)
    ensures forall p | p in s :: Finished(p)
    ensures Bounded(Start(plans)) && |events| == Total(Start(plans))
  {
    StartInv(plans);
    RunInv(Start(plans), events);
    forall p | p in s ensures Finished(p) {
      var i :| 0 <= i < |s| && s[i] == p;
      if !Finished(p) {
        var e := FindEnabled(s, i);
      }
    }
    RunLength(Start(plans), events);
    NoWorkLeft(s);
  }

  // ----- the plans that canonical_lock_order gives

  /** The order keys of the canonical order. */
  function PlanOf(hash: Digest, locks: seq<TypedLock>): seq<string> {
    KeyList(OrderOf(hash), CanonicalOrder(hash, locks))
  }

  function PlansOf(hash: Digest, wanted: seq<seq<TypedLock>>): (plans: seq<seq<string>>)
    ensures |plans| == |wanted| && forall i | 0 <= i < |plans| :: plans[i] == PlanOf(hash, wanted[i])
  {
    seq(|wanted|, i requires 0 <= i < |wanted| => PlanOf(hash, wanted[i]))
  }

  lemma PlanIncreasing(hash: Digest, locks: seq<TypedLock>)
    ensures Increasing(PlanOf(hash, locks))
  {
  }

  lemma PlansOrdered(hash: Digest, wanted: seq<seq<TypedLock>>)
    ensures Ordered(PlansOf(hash, wanted))
  {
    var plans := PlansOf(hash, wanted);
    forall plan | plan in plans ensures Increasing(plan) {
      var i :| 0 <= i < |plans| && plans[i] == plan;
      PlanIncreasing(hash, wanted[i]);
    }
  }

  lemma OrderKeyInjective(hash: Digest, a: TypedLock, b: TypedLock)
    requires CollisionFree(hash) && OrderKey(hash, a) == OrderKey(hash, b)
    ensures a == b
  {
    assert OrderKey(hash, a)[1..] == LockKey(hash, a) && OrderKey(hash, b)[1..] == LockKey(hash, b);
    LockKeyInjective(hash, a, b);
  }

  /** With no digest collisions an order key names one lock, so processes that want the same
    lock want the same key, and only they do. */
  lemma PlanNamesLock(hash: Digest, locks: seq<TypedLock>, l: TypedLock)
    requires CollisionFree(hash)
    ensures OrderKey(hash, l) in PlanOf(hash, locks) <==> l in locks
  {
    CanonicalOrderExact(hash, locks);
    KeyListElements(OrderOf(hash), CanonicalOrder(hash, locks));
    NamesInSet(hash, Elements(locks), l);
    assert OrderKey(hash, l) in PlanOf(hash, locks) <==> OrderKey(hash, l) in Elements(PlanOf(hash, locks));
  }

  lemma NamesInSet(hash: Digest, locks: set<TypedLock>, l: TypedLock)
    requires CollisionFree(hash)
    ensures OrderKey(hash, l) in Keys(OrderOf(hash), locks) <==> l in locks
  {
    if OrderKey(hash, l) in Keys(OrderOf(hash), locks) {
      var x :| x in locks && OrderOf(hash)(x) == OrderKey(hash, l);
      OrderKeyInjective(hash, x, l);
    }
    if l in locks {
      assert OrderOf(hash)(l) in Keys(OrderOf(hash), locks);
    }
  }

  /** Any number of processes, each with any list of locks put in canonical order: no
    interleaving ever lets two hold one lock, gets stuck, or takes more steps than there is work
    at its start. */
  lemma CanonicalOrderIsDeadlockFree(hash: Digest, wanted: seq<seq<TypedLock>>,
      events: seq<Event>, s: State)
    requires Run(Start(PlansOf(hash, wanted)), events) == Some(s)
    ensures MutualExclusion(s)
    ensures (exists i :: 0 <= i < |s| && !Finished(s[i])) <==> (exists e :: Enabled(s, e))
    ensures Bounded(Start(PlansOf(hash, wanted))) && |events| <= Total(Start(PlansOf(hash, wanted)))
  {
    var plans := PlansOf(hash, wanted);
    PlansOrdered(hash, wanted);
    StartInv(plans);
    RunInv(Start(plans), events);
    RunLength(Start(plans), events);
    if exists i :: 0 <= i < |s| && !Finished(s[i]) {
      DeadlockFree(plans, events, s);
    }
    if e :| Enabled(s, e) {
      assert !Finished(s[e.who]);
    }
  }

  /** Without a common order it fails: two processes that take the same two locks in opposite
    orders can both wait for ever. */
  lemma OppositeOrdersDeadlock()
    ensures exists s ::
      && Run(Start([["a", "b"], ["b", "a"]]), [Acquire(0), Acquire(1)]) == Some(s)
      && |s| == 2 && !Finished(s[0]) && !Finished(s[1])
      && forall e :: !Enabled(s, e)
  {
  }
}
