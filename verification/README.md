# Verification of the control-plane algorithms

A Dafny model of the algorithms and protocols inside the Microsoft 365 control plane and its
browser worker, with proofs about every input, every run and every reachable state. Check
it with `dafny verify dfyconfig.toml` (Dafny 4.11). Nothing of the original program is executed.

The modules follow the source files:

- **Planning**: `graph.dfy` says what cycles and chains are; `dag_scheduler.dfy`,
  `batch_scheduler.dfy` and `propagation.dfy` hold the wave loop, the chunking and the
  cancellation and deadline loops. The limits of 100 nodes and 6 parallel slots are part of the
  input checks only; the theorems are about any number of nodes and any width.
- **Concurrency**: `executor.dfy` models every call of `execute` as a program counter, both locks
  step by step, failures and cancellation. `typed_locks.dfy` is the lock order and
  `lock_protocol.dfy` the processes that use it.
- **Once-only protocols**: `approval_store.dfy` (the store, and its SQL statements interleaved),
  `idempotency.dfy` (records, and the external effect over whole runs), `lifecycle.dfy`
  (checkpoint chains and resume plans).
- **Evidence**: `capability_evidence.dfy`, `evidence_freshness.dfy`, `ui_contract.dfy` and
  `effective.dfy` are the four stages; `support.dfy` joins them from the log to the support state.
- **Canonical text**: `json.dfy` (printer and parser), `runbook.dfy`, `fixed_width.dfy`
  (padded numbers and timestamps), `binary64.dfy` (the conversion of integers to doubles) and
  `projection.dfy` (the sort key that prints them).
- **Sign-in**: `auth.dfy`.
- `ordering.dfy` is the order of strings and `sorted`; `results.dfy` holds options, results,
  tokens and the hash.

## Assumptions

- SHA-256 is a parameter. Where distinct inputs must have distinct digests the lemma requires
  `CollisionFree` (or, for contract sets and evidence records, that the digest tells them apart).
- The asyncio lock is fair: a FIFO queue, an acquire that does not suspend when the lock is free
  and nobody queues. The event loop switches tasks only where a task waits.
- `BEGIN IMMEDIATE` is a single write lock held until COMMIT or ROLLBACK; a single statement is
  indivisible; a row's text comparison is by code point.
- At most one effect (`EffectProtocol`): attempts run one at a time and never land late, a
  read-back does not lie, FAILED_PRE_EFFECT is recorded only for an attempt without effect, and
  RETRY_SAFE is followed by a fresh reservation. The driver that does so is not in the repository.
- Fragment ids in a contract set are distinct, which the manifest loader checks.
- `Support.CurrentSupport` joins the log, the freshness assessment, the attestation and the
  evaluation. Nothing under src makes this composition: `src/planner_mcp/capabilities.py:80` takes
  the overlay as a parameter, so the theorems of `support.dfy` are about a caller that passes the
  overlay of the freshness assessment on.

## Where the code differs from what is said about it

- Several number-matching candidates are documented to read as an ambiguous UNKNOWN. Beside an
  approval marker they read as WAITING_FOR_MFA (`Auth.ApprovalHidesAmbiguity`), and candidates that
  agree are still ambiguous. The branch of `classify_live` for an unresolvable single candidate is
  unreachable (`Auth.ClassifyLiveExact`).
- A read whose fragment has drifted is documented to be DEGRADED. It stays supported when another
  dependency is claimed HEALTHY without being attested, because that claim is reported instead of
  the drift (`Support.DriftHidden`; the exact condition is `Support.ReadWithdrawnExactly`).
- The queue length in a snapshot can be max_queue + 1 between a release and the next start
  (`Executor.OverfullWindow`; exactly when, `Executor.SnapshotExact`).
- LATEST is meant to pick the greatest value, and the numeric sort key does not always order by
  value. It prints the double nearest to a number, so 2^53 and 2^53 + 1 have one key, and
  99999999999999999 sorts before 99999999999999984 because it prints as 10^17
  (`Projection.GreatestMissed`). Negative numbers are reversed, numbers printed as 10^17 or more
  and infinity are out of place (`Projection.OrderKeptExactly`, `Projection.InfinityBelowOne`). The
  keys order as the numbers do for those that are printed from minus zero to below 10^17 and
  survive the conversion (`Projection.KeysAgreeExactly`).
- A record within the maximum age of the end of year 9999 makes the freshness assessment of the
  whole contract set raise, whatever the record says (`EvidenceFreshness.AssessExact`).
- Without `read_back_required`, a crash after the effect leads to a second effect
  (`EffectProtocol.TwiceWithoutReadBack`).

## Model

| member | source | states |
|---|---|---|
| `DagScheduler.ScheduleDag` | src/m365_mcp/xapp_dag_scheduler.py:52-88 | the loop over `remaining`: a schedule or the cycle error exactly when there are 1 to 100 nodes with different ids whose dependencies are nodes, and 1 to 6 slots; then, for the graph of the nodes, a valid schedule when it is acyclic and the cycle error when it is not; the final `__post_init__` never rejects |
| `DagScheduler.EarlyErrorsExact` | src/m365_mcp/xapp_dag_scheduler.py:57-70 | each early error exactly, in the order of the checks |
| `DagScheduler.GraphExact` | src/m365_mcp/xapp_dag_scheduler.py:72 | the dict of dependencies is the one graph of the nodes |
| `DagScheduler.ScheduleExactlyAcyclic` | src/m365_mcp/xapp_dag_scheduler.py:72-88 | for any graph and any width m >= 1: the loop succeeds exactly on acyclic graphs, and its waves contain every node once, are non-empty and at most m wide, and put every dependency strictly earlier |
| `DagScheduler.OutcomeExact` | src/m365_mcp/xapp_dag_scheduler.py:52-88 | on admitted input the cycle error exactly on a cycle, and otherwise a valid schedule that `DagSchedule.__post_init__` accepts |
| `DagScheduler.PostInitExact` | src/m365_mcp/xapp_dag_scheduler.py:38-49 | what `DagSchedule.__post_init__` accepts, and its errors in order |
| `DagScheduler.OutcomeTakesLeast` | src/m365_mcp/xapp_dag_scheduler.py:75-87 | every wave of the result is in id order and holds the ready ids that sort first, all of them when they fit; this fixes the result |
| `DagScheduler.GrahamBound` | src/m365_mcp/xapp_dag_scheduler.py:75-87 | with n nodes, longest dependency chain L and w waves: m*w <= n + (m-1)*L |
| `DagScheduler.EveryScheduleNeeds` | src/m365_mcp/xapp_dag_scheduler.py:75-87 | any valid m-wide schedule needs at least n/m waves and at least L waves |
| `DagScheduler.NearOptimal` | src/m365_mcp/xapp_dag_scheduler.py:75-87 | m times the number of waves is at most (2m-1) times the waves of any other valid schedule |
| `DagScheduler.OutcomeNearOptimal` | src/m365_mcp/xapp_dag_scheduler.py:52-88 | both bounds for what `schedule_dag` returns |
| `DagScheduler.OrderIrrelevant` | src/m365_mcp/xapp_dag_scheduler.py:72-88 | the outcome, errors included, depends on the nodes as a set of (id, set of dependencies) |
| `DagScheduler.PartialWavesFormChain` | src/m365_mcp/xapp_dag_scheduler.py:77-87 | the waves that leave capacity unused force a dependency chain of at least that length |
| `DagScheduler.CycleBlocks` | src/m365_mcp/xapp_dag_scheduler.py:75-84 | a cycle among the remaining nodes makes the loop raise |
| `DagScheduler.BlockedHasCycle` | src/m365_mcp/xapp_dag_scheduler.py:83-84 | if the loop raises, there is a cycle |
| `DependencyGraph.LongestChainIsLongest` | src/m365_mcp/xapp_dag_scheduler.py:72-82 | on acyclic graphs the longest chain is well defined |
| `BatchScheduler.BatchErrorsExact` | src/m365_mcp/xapp_batch_scheduler.py:46-60 | each error exactly, in the order of the checks; success exactly for 1 to 50 different ids and 1 to 6 slots |
| `BatchScheduler.BatchSchedule` | src/m365_mcp/xapp_batch_scheduler.py:46-66 | then the waves flatten to the sorted ids, are non-empty and at most m wide, there are ceil(n/m) of them, and wave k is the slice from k*m on |
| `BatchScheduler.ChunkAt` | src/m365_mcp/xapp_batch_scheduler.py:62-65 | wave k is the slice of the sorted ids that starts at element k of `range(0, n, m)` |
| `BatchScheduler.IndependentWaves` | src/m365_mcp/xapp_dag_scheduler.py:75-87 | without dependencies, for any n and m, the DAG waves are the batch chunks of the sorted ids |
| `BatchScheduler.DagRefinesBatch` | src/m365_mcp/xapp_batch_scheduler.py:46-66 | so both functions return the same waves on the same ids |
| `Propagation.PlanPropagation` | src/m365_mcp/xapp_cancellation_deadlines.py:58-126 | the whole planner: a plan or the cycle error exactly when there are 1 to 100 nodes with different ids, the root deadline is absent or positive, dependencies and cancellations are nodes and no cancellation is repeated; then, for the graph and the deadlines of the nodes, the cycle error exactly on a cycle and otherwise exactly the correct plan (sorted ids, cancelled iff downstream, tightest deadline) |
| `Propagation.EarlyErrorsExact` | src/m365_mcp/xapp_cancellation_deadlines.py:65-82 | each early error exactly, in the order of the checks |
| `Propagation.DescribedExact` | src/m365_mcp/xapp_cancellation_deadlines.py:93-95 | graph and declared deadlines that the loops work on are those of the nodes, and nothing else |
| `Propagation.Scan` | src/m365_mcp/xapp_cancellation_deadlines.py:87-91 | one pass over the nodes adds only downstream nodes, and reports no change only when the set is closed |
| `Propagation.Cancelled` | src/m365_mcp/xapp_cancellation_deadlines.py:84-91 | the fixpoint loop ends, whatever the order of the nodes, with exactly the nodes reachable from a requested one along reversed dependencies |
| `Propagation.DownstreamLeast` | src/m365_mcp/xapp_cancellation_deadlines.py:84-91 | those nodes are the least closed set that contains the requested ones |
| `Propagation.Round` | src/m365_mcp/xapp_cancellation_deadlines.py:104-116 | one round of ready nodes gives each its tightest deadline and removes it |
| `Propagation.Deadlines` | src/m365_mcp/xapp_cancellation_deadlines.py:93-116 | the loop fails exactly on cyclic graphs, and otherwise gives every node the least of the root deadline and the deadlines declared by it and all its transitive dependencies, None when there is none |
| `Propagation.TightestStep` | src/m365_mcp/xapp_cancellation_deadlines.py:106-115 | the minimum over direct dependencies is the minimum over all transitive ones |
| `Propagation.CorrectPlanUnique` | src/m365_mcp/xapp_cancellation_deadlines.py:118-126 | graph, declared deadlines and requests determine the plan |
| `Propagation.InputOrderIrrelevant` | src/m365_mcp/xapp_cancellation_deadlines.py:58-126 | reordering nodes or dependencies leaves the graph and the declared deadlines unchanged |
| `Propagation.SamePlan` | src/m365_mcp/xapp_cancellation_deadlines.py:58-126 | inputs that pass the checks and state the same facts and requests, in whatever order, have the same outcome, plan or cycle error |
| `Propagation.SameCycleError` | src/m365_mcp/xapp_cancellation_deadlines.py:102-103 | the planner raises its cycle error exactly when `schedule_dag` raises its own on the same nodes, for any width |
| `Executor.Create` | src/m365_browser_worker/executor.py:41-48 | a negative queue bound is refused, otherwise the executor is idle |
| `Executor.ProfileSerializedExecutor.constructor` | src/m365_browser_worker/executor.py:41-48 | the initial fields |
| `Executor.ProfileSerializedExecutor.TryAdmit` | src/m365_browser_worker/executor.py:72-80 | the admission body: rejects at max_queue + 1 in flight without changing anything, else counts the call |
| `Executor.Reachable` | src/m365_browser_worker/executor.py:66-93 | the invariant over locks, counters, queue and history holds after any interleaving, with works failing and waiting or working calls being cancelled |
| `Executor.Safety` | src/m365_browser_worker/executor.py:66-93 | in every reachable state: at most one `work()` runs, `_admitted` is the number of calls in flight and at most max_queue + 1, `_active` only under the operation lock, and a rejected call has started nothing |
| `Executor.Quiescence` | src/m365_browser_worker/executor.py:87-93 | with no call in flight, counter, mark, lock and queue are back where they began |
| `Executor.SnapshotExact` | src/m365_browser_worker/executor.py:55-64 | a snapshot says active exactly when a work is in progress, and queued is the number of admitted calls that are not at work; the clamp is never needed, and the queue exceeds max_queue exactly when max_queue + 1 calls are admitted and none is at work |
| `Executor.EventsExact` | src/m365_browser_worker/executor.py:66-93 | what can happen in every reachable state, event by event: cancellations of queued calls, hand-overs, resumptions and steps of the running call |
| `Executor.AdmissionExact` | src/m365_browser_worker/executor.py:72-80 | a call is turned away exactly when max_queue + 1 calls are in flight, and otherwise counted under the next admission number |
| `Executor.OverfullWindow` | src/m365_browser_worker/executor.py:55-64 | a run in which a snapshot reports max_queue + 1 queued calls |
| `Executor.StateLockNeverContended` | src/m365_browser_worker/executor.py:72-93 | whoever is about to take the state lock finds it free |
| `Executor.StartsInAdmissionOrder` | src/m365_browser_worker/executor.py:36-39 | works start in the order of admission, each once |
| `Executor.BoundedWait` | src/m365_browser_worker/executor.py:36-39 | between its admission and its start a call waits for at most max_queue other works |
| `Executor.NeverStuck` | src/m365_browser_worker/executor.py:82-93 | while a call is in flight some step of progress is possible without a new call or a cancellation, at most after resuming a work that then ends |
| `Executor.ProgressBounded` | src/m365_browser_worker/executor.py:66-93 | a run contains at most twelve steps of progress for each call, progress being every step but calls, cancellations and the suspending and resuming of works |
| `Executor.EveryCallServed` | src/m365_browser_worker/executor.py:66-93 | once nothing is in flight every call was rejected or has left, and each that was admitted and not cancelled has had its work started |
| `TypedLocks.LockPayloadAt` | src/m365_mcp/typed_locks.py:105-116 | the payload shows exactly the fields that are set, each under its name |
| `TypedLocks.LockKeyInjective` | src/m365_mcp/typed_locks.py:118-126 | with a collision-free hash, equal lock keys mean equal locks |
| `TypedLocks.TargetsDistinct` | src/m365_mcp/typed_locks.py:134-173 | the four constructors build valid locks, and two targets share a key exactly when they are the same target up to blanks around the key |
| `TypedLocks.OrderKeyIsPair` | src/m365_mcp/typed_locks.py:128-131 | the order key compares the scope first, from profile over account, application and container to resource, then the lock key |
| `TypedLocks.ValidExact` | src/m365_mcp/typed_locks.py:63-103 | which fields a lock of each scope carries |
| `TypedLocks.LockExact` | src/m365_mcp/typed_locks.py:30-34 | when a lock is refused, and what it carries of its target |
| `TypedLocks.LockTextExact` | src/m365_mcp/typed_locks.py:105-126 | a lock key is the hash of an ASCII text that reads back as the payload; the names of scopes and applications |
| `TypedLocks.CanonicalLockOrder` | src/m365_mcp/typed_locks.py:176-181 | the dict loop and the sort: no lock comes before a broader one, lock keys increase within a scope, and the lock keys are those of the input |
| `TypedLocks.EnclosingFirst` | src/m365_mcp/typed_locks.py:20-27 | in every canonical order a profile's lock precedes all others, an account's those of applications and states, an application's those of states, a container's those of resources |
| `TypedLocks.CanonicalOrderExact` | src/m365_mcp/typed_locks.py:176-181 | broad to narrow, by lock key within a scope, without duplicates, and with exactly the lock keys of the input; with no collisions exactly its locks |
| `TypedLocks.CanonicalOrderStable` | src/m365_mcp/typed_locks.py:176-181 | the input order does not matter, and ordering twice changes nothing |
| `LockProtocol.CanonicalOrderIsDeadlockFree` | src/m365_mcp/typed_locks.py:176-181 | any number of processes that take canonical orders one lock at a time: in every reachable state no lock is held twice, some step is enabled exactly when some process is unfinished, and the run is no longer than the work at its start |
| `LockProtocol.DeadlockFree` | src/m365_mcp/typed_locks.py:128-131 | the same for any plans that are strictly increasing in the order key |
| `LockProtocol.FindEnabled` | src/m365_mcp/typed_locks.py:128-131 | following lock holders upwards finds a process that can move |
| `LockProtocol.RunLength` | src/m365_mcp/typed_locks.py:176-181 | every step uses up one unit of work, so no run is longer than the work at its start |
| `LockProtocol.MaximalRunsFinish` | src/m365_mcp/typed_locks.py:176-181 | a run that cannot go on has finished every process |
| `LockProtocol.PlanNamesLock` | src/m365_mcp/typed_locks.py:118-131 | a process asks for a lock's order key exactly when it wants that lock |
| `LockProtocol.OppositeOrdersDeadlock` | src/m365_mcp/typed_locks.py:130-131 | without a common order two processes can block each other for ever |
| `CanonicalJson.RoundTrip` | src/m365_mcp/xapp_runbook_serialization.py:90-97 | a parser gives back every printed value, string escapes of section 7 of RFC 8259 included, with or without `ensure_ascii` |
| `CanonicalJson.DumpsInjective` | src/m365_mcp/typed_locks.py:118-126 | so the text determines the value |
| `CanonicalJson.EscapeInverse` | src/m365_mcp/xapp_runbook_serialization.py:92-97 | each escaped character, surrogate pairs included, parses back to itself |
| `CanonicalJson.EscapeExact` | src/m365_mcp/typed_locks.py:118-126 | each character is printed by itself, by an escape of two characters or by code units in lower-case digits, whichever is shortest |
| `CanonicalJson.DumpsPrintable` | src/m365_mcp/idempotency_v2.py:49-56 | with `ensure_ascii` the text is printable ASCII |
| `Runbook.DecodeInverts` | src/m365_mcp/xapp_runbook_serialization.py:49-97 | a decoder that reads the named fields recovers key, version and the set of nodes from the canonical text |
| `Runbook.CanonicalTextExact` | src/m365_mcp/xapp_runbook_serialization.py:49-97 | two runbooks without repeated node ids print alike exactly when key and version agree and their nodes are the same set, dependencies and binding keys compared as sets |
| `Runbook.CanonicalDigestExact` | src/m365_mcp/xapp_runbook_serialization.py:100-103 | the same for the digests, with a collision-free hash |
| `Ordering.SortedUnique` | src/m365_mcp/xapp_runbook_serialization.py:53-54 | sorting distinct keys leaves no freedom |
| `Approvals.ApprovalStore.constructor` | src/m365_mcp/approval_store.py:80-107 | the store opens on what its file holds |
| `Approvals.ApprovalStore.Issue` | src/m365_mcp/approval_store.py:109-160 | the whole table and result are those of the atomic map |
| `Approvals.IssueExact` | src/m365_mcp/approval_store.py:119-153 | each error exactly; otherwise the grant is stored unspent as it was asked for, and exactly the attempts with its id and digest before its expiry can spend it |
| `Approvals.ApprovalStore.Consume` | src/m365_mcp/approval_store.py:162-253 | the checks in order, and the conditional update: table and result are those of the atomic map |
| `Approvals.ConsumeExact` | src/m365_mcp/approval_store.py:196-253 | each of the five outcomes by the stored row, and what the attempt changes and answers |
| `ApprovalProtocol.SingleUse` | src/m365_mcp/approval_store.py:175-253 | over any interleaving of statements of any calls, crashes included, also between COMMIT and answer, with or without the immediate transaction: each approval is won at most once, only with the issued digest and strictly before expiry; grants never change otherwise |
| `ApprovalProtocol.FallbackUnreachable` | src/m365_mcp/approval_store.py:233-238 | with the immediate transaction the UPDATE always finds its row |
| `ApprovalProtocol.FallbackNeededWithoutLock` | src/m365_mcp/approval_store.py:233-238 | without it, two calls for one spendable grant can both pass the checks, and the rowcount turns one away |
| `ApprovalProtocol.RunRefines` | src/m365_mcp/approval_store.py:175-253 | every interleaved run gives the table and the results of its operations done one after the other in the order in which they took effect |
| `ApprovalProtocol.AnswersInHistory` | src/m365_mcp/approval_store.py:175-253 | every answer that a call gives is the result of an operation in that order |
| `ApprovalProtocol.NoGrantSpentTwice` | src/m365_mcp/approval_store.py:220-245 | over every run each approval is spent at most once, also when the call that spent it dies before it answers |
| `ApprovalProtocol.SpentWithoutAnswer` | src/m365_mcp/approval_store.py:240-245 | such a run: the grant is spent for good and no call has answered |
| `ApprovalProtocol.StepRefines` | src/m365_mcp/approval_store.py:196-253 | each statement changes the table as the operation that takes effect with it, or not at all |
| `ApprovalProtocol.RunInv` | src/m365_mcp/approval_store.py:175-253 | the invariant behind both, and the immutability of grants |
| `Idempotency.ReserveOperation` | src/m365_mcp/idempotency_v2.py:133-149 | a reservation is made exactly for a semantic token, and is valid |
| `Idempotency.DeniedExactly` | src/m365_mcp/idempotency_v2.py:117-130 | whatever the phase, a request is denied exactly when operation, identity or payload differ from the reserved ones |
| `Idempotency.AnswerExact` | src/m365_mcp/idempotency_v2.py:195-212 | each answer to the operation's own request, by phase, read-back requirement and read-back |
| `Idempotency.UnboundAnswers` | src/m365_mcp/idempotency_v2.py:117-130 | a record whose key does not belong to its fields is denied to everybody |
| `Idempotency.ReservedIsBound` | src/m365_mcp/idempotency_v2.py:133-149 | a reservation carries the operation, identity, payload and key it was made with |
| `Idempotency.KeyExact` | src/m365_mcp/idempotency_v2.py:68-84 | keys agree exactly when operation, identity and payload agree |
| `EffectProtocol.AtMostOnceExactly` | src/m365_mcp/idempotency_v2.py:177-212 | over all runs of requests, attempts and crashes the effect happens at most once exactly when read-back is required |
| `EffectProtocol.TwiceWithoutReadBack` | src/m365_mcp/idempotency_v2.py:203-206 | the run with two effects when it is not |
| `EffectProtocol.AnswersAreRight` | src/m365_mcp/idempotency_v2.py:195-212 | with a truthful read-back: RETRY_SAFE only when no effect has happened, DO_NOT_RETRY only when it has, and only a conclusive read-back decides an undecided operation |
| `EffectProtocol.StoredBindingHolds` | src/m365_mcp/idempotency_v2.py:190-195 | in every later state a request for anything else is denied and changes nothing |
| `EffectProtocol.CompletedIsFinal` | src/m365_mcp/idempotency_v2.py:152-160 | a completed record never changes |
| `EffectProtocol.AttemptExact` | src/m365_mcp/idempotency_v2.py:152-174 | what each end of an attempt leaves in the record |
| `EffectProtocol.CompletedCarriesResult` | src/m365_mcp/idempotency_v2.py:152-160 | in every run a completed record carries the digest of the result that completed it |
| `Lifecycle.StartExact` | src/m365_mcp/execution_lifecycle.py:164-191 | a start fails only for a foreign identity or lock, an empty saga or a malformed node id, in this order, and begins an accepted chain |
| `Lifecycle.StartHolds` | src/m365_mcp/execution_lifecycle.py:179-191 | it holds exactly the keys of its locks, each once and in the canonical order of the locks, and names its saga, node, application and identity |
| `Lifecycle.StartOrderIrrelevant` | src/m365_mcp/execution_lifecycle.py:179-186 | in whatever order they are given |
| `Lifecycle.ValidateCheckpointChain` | src/m365_mcp/execution_lifecycle.py:215-243 | the validation loop reports `Fault` |
| `Lifecycle.FaultExact` | src/m365_mcp/execution_lifecycle.py:215-243 | which is the defect of the first checkpoint that breaks the chain |
| `Lifecycle.AcceptedExactlyChains` | src/m365_mcp/execution_lifecycle.py:215-243 | accepted are exactly the sequences numbered from zero, of one execution of one node, in which PLANNED comes only first, every state follows one that may precede it, and nothing follows a terminal one |
| `Lifecycle.TransitionExact` | src/m365_mcp/execution_lifecycle.py:194-213 | when a transition succeeds and what it yields |
| `Lifecycle.AcceptedExactly` | src/m365_mcp/execution_lifecycle.py:194-243 | accepted are exactly the sequences that transitions build from a PLANNED checkpoint at index zero |
| `Lifecycle.TerminalCheckImplied` | src/m365_mcp/execution_lifecycle.py:242-243 | the check for successors of a terminal checkpoint never decides |
| `Lifecycle.ExtensionExact` | src/m365_mcp/execution_lifecycle.py:194-243 | an accepted chain is extended by exactly what a transition of its last checkpoint yields, at the next index |
| `Lifecycle.ResumeExact` | src/m365_mcp/xapp_checkpoint_resume.py:44-65 | RESUMABLE exactly when both an ACTIVE and a CHECKPOINTED checkpoint extend the chain, which then ends in CHECKPOINTED; TERMINAL exactly when nothing does; NOT_CHECKPOINTED exactly otherwise; the next index is announced exactly for RESUMABLE and is that of every extension |
| `Lifecycle.ResumeRefused` | src/m365_mcp/xapp_checkpoint_resume.py:44-48 | otherwise the fault of the chain is raised |
| `Timestamps.TextIsChronological` | src/m365_mcp/capability_evidence.py:251-253 | the fixed-width text orders like the instants, over the whole calendar |
| `Timestamps.TimestampExact` | src/m365_mcp/capability_evidence.py:251-257 | text, instant and timestamp determine each other |
| `Timestamps.TimestampReads` | src/m365_mcp/capability_evidence.py:251-253 | every field stands in the text at its place and width |
| `Timestamps.DaysBeforeYearExact` | src/m365_mcp/capability_evidence.py:251-257 | the days of the Gregorian calendar in closed form |
| `CapabilityEvidence.CapabilityEvidenceStore.Append` | src/m365_mcp/capability_evidence.py:132-170 | the binding errors in order; otherwise the row is added unless its id is stored |
| `CapabilityEvidence.BindingExact` | src/m365_mcp/capability_evidence.py:210-238 | each binding error exactly: a foreign digest, no single fragment with the id, or different metadata |
| `CapabilityEvidence.CapabilityEvidenceStore.Latest` | src/m365_mcp/capability_evidence.py:172-201 | the query and the dict give the latest records in fragment order |
| `CapabilityEvidence.FirstOfEach` | src/m365_mcp/capability_evidence.py:189-194 | the dict holds for each fragment its latest record |
| `CapabilityEvidence.FirstIsLatest` | src/m365_mcp/capability_evidence.py:178-194 | the first row of a fragment in the text-ordered answer is its latest by time and sequence |
| `CapabilityEvidence.LatestRecordsExact` | src/m365_mcp/capability_evidence.py:172-201 | a record is listed exactly when it is the maximum by (time, sequence) of its fragment under the digest |
| `CapabilityEvidence.LatestInOrder` | src/m365_mcp/capability_evidence.py:196-201 | in the order of the fragments |
| `CapabilityEvidence.AppendEffect` | src/m365_mcp/capability_evidence.py:132-201 | appending again changes nothing; a new record becomes the latest exactly when none is strictly later; other fragments and digests are untouched |
| `CapabilityEvidence.LifecycleOverlayExact` | src/m365_mcp/capability_evidence.py:203-208 | the overlay says of each fragment what its latest record says, and nothing else |
| `CapabilityEvidence.LogBound` | src/m365_mcp/capability_evidence.py:210-238 | after any calls of append every record was bound to a contract set with its digest |
| `EvidenceFreshness.AssessExact` | src/m365_mcp/evidence_freshness.py:195-262 | HEALTHY comes only from a fresh HEALTHY record, a degraded record keeps its state, and the only error is an expiry beyond the last datetime |
| `EvidenceFreshness.ReasonExact` | src/m365_mcp/evidence_freshness.py:204-262 | each reason exactly, and what the assessment carries with it |
| `EvidenceFreshness.FitsExactly` | src/m365_mcp/evidence_freshness.py:215 | the expiry overflows exactly when no datetime is that late |
| `EvidenceFreshness.AssessContractEvidenceFreshness` | src/m365_mcp/evidence_freshness.py:150-182 | both loops compute `Assess` |
| `EvidenceFreshness.AssessmentExact` | src/m365_mcp/evidence_freshness.py:150-182 | which fails with the first defective record (repeated, foreign, of another set, or with other metadata), or with an overflow, and otherwise says of each fragment in order what its record says |
| `UIContract.DependenciesExact` | src/m365_mcp/ui_contract_store.py:148-157 | the dependencies are the fragments of the application that list the capability |
| `UIContract.DependenciesInOrder` | src/m365_mcp/ui_contract_store.py:148-157 | in the order of the set |
| `UIContract.AttestationForCapability` | src/m365_mcp/ui_contract_store.py:177-316 | the loop that fills the lifecycle dict and the list of unattested claims |
| `UIContract.RefusedExactly` | src/m365_mcp/ui_contract_store.py:177-200 | refused exactly when there is a dependency and the overlay names an unknown fragment |
| `UIContract.AttestationExact` | src/m365_mcp/ui_contract_store.py:177-316 | attested exactly when there are dependencies and all are sound; each degraded flag exactly when some dependency is in that state and nothing earlier applies |
| `UIContract.ReasonsNameTheGuilty` | src/m365_mcp/ui_contract_store.py:223-316 | the reasons name exactly the dependencies that are falsely claimed healthy or, without any, those that have drifted, then those to attest again, the stale ones, and the unattested ones |
| `UIContract.LifecycleStatesExact` | src/m365_mcp/ui_contract_store.py:217-221 | the listed states are exactly those of the dependencies |
| `UIContract.UnrelatedFragmentsIrrelevant` | src/m365_mcp/ui_contract_store.py:177-184 | adding, changing or removing fragments that do not list the capability leaves the attestation as it was, whatever a known overlay says of them |
| `EffectiveCapabilities.EvaluateExact` | src/m365_mcp/effective_capabilities.py:93-217 | each of the four possible states, exactly characterised |
| `EffectiveCapabilities.MissingExact` | src/m365_mcp/effective_capabilities.py:134-208 | the reasons of an unverified capability are exactly what it lacks, each once and in order |
| `EffectiveCapabilities.SingleReasonExact` | src/m365_mcp/effective_capabilities.py:93-217 | the reason of every other state; a degraded read names staleness before re-attestation, everything else the other way round |
| `EffectiveCapabilities.Project` | src/m365_mcp/effective_capabilities.py:231-246 | refused unless the evidence covers exactly the registered capabilities; each is evaluated on its own evidence |
| `Support.CurrentSupport` | src/m365_mcp/evidence_freshness.py:150-192 | the stages run in turn on a store compute the specified state |
| `Support.FreshnessOverlayExact` | src/m365_mcp/evidence_freshness.py:185-192 | the overlay is refused exactly when a fragment is assessed twice, and otherwise says of each its assessed state |
| `Support.OverlayExact` | src/m365_mcp/evidence_freshness.py:150-192 | on a log filled by append the stages up to the overlay fail only by date overflow, and age every fragment's latest record |
| `Support.LogReady` | src/m365_mcp/capability_evidence.py:132-170 | the log of any calls of append is one that the following theorems apply to |
| `Support.SupportedExactly` | src/m365_mcp/effective_capabilities.py:180-217 | outside read delivery: READ_SUPPORTED exactly when all other evidence holds, there is a dependency, and every dependency is effectively attested with a HEALTHY latest record, recorded_at <= now < recorded_at + max_age |
| `Support.TimeNeverPromotes` | src/m365_mcp/evidence_freshness.py:244-262 | once now has passed every record, advancing time never promotes any capability, reads included |
| `Support.ReadWithdrawnExactly` | src/m365_mcp/effective_capabilities.py:156-178 | from the log: a read with its session evidence is DEGRADED exactly when some dependency has drifted or has no fresh HEALTHY record, and no fresh HEALTHY record claims one that is not attested; READ_SUPPORTED exactly otherwise |
| `Support.DriftHidden` | src/m365_mcp/effective_capabilities.py:156-178 | one appended HEALTHY record of an unattested dependency keeps a read supported beside a drifted one for as long as the record is fresh |
| `Auth.AuthContext.constructor` | src/planner_mcp/auth.py:76-82 | a fresh context |
| `Auth.TransitionsExact` | src/planner_mcp/auth.py:24-46 | from which states each state can be reached |
| `Auth.AuthContext.Transition` | src/planner_mcp/auth.py:84-92 | the whole new state of a legal move; an illegal one changes nothing |
| `Auth.ClassifyLiveExact` | src/planner_browser_worker/auth_state_machine.py:53-77 | each reading exactly: a number only from a single candidate, several candidates never resolved |
| `Auth.AdvanceLiveAuthState` | src/planner_browser_worker/auth_state_machine.py:80-116 | the context after a reading, and whether the move was legal |
| `Auth.ObserveSigninState` | src/planner_browser_worker/observation.py:88-163 | context and answer of one observation are `Observed` |
| `Auth.ObservationExact` | src/planner_browser_worker/observation.py:88-163 | which is given exactly, by surface, state of the context and page |
| `Auth.RunInv` | src/planner_browser_worker/observation.py:88-163 | from a fresh context and any pages: the history is a connected path of allowed moves from UNKNOWN to the state, its first move is to AUTH_REQUIRED, READY and AUTH_FAILED are never reached, and no challenge is held |
| `Auth.AuthenticatedNeedsSignIn` | src/planner_browser_worker/observation.py:112-126 | AUTHENTICATED is answered only on the Planner surface and after an earlier AUTH_REQUIRED answer |
| `Auth.SignInReached` | src/planner_browser_worker/observation.py:112-163 | a sign-in form and then the Planner surface do sign a fresh context in |
| `Auth.ApprovalHidesAmbiguity` | src/planner_browser_worker/auth_flow.py:83-102 | two candidates beside an approval marker read as waiting |
| `Binary64.ConvertedMonotone` | src/m365_mcp/result_projection.py:88 | `float` never reverses the sizes of two numbers, whether integers of any size or doubles |
| `Binary64.RoundedMonotone` | src/m365_mcp/result_projection.py:88 | rounding to 53 binary places, ties to even, keeps the order of integers |
| `Projection.OrderKeptExactly` | src/m365_mcp/result_projection.py:82-89 | around zero, the keys of finite numbers order like the numbers they show exactly when nothing below minus zero and nothing from 10^17 on is shown |
| `Projection.KeysAgreeExactly` | src/m365_mcp/result_projection.py:82-89 | in that range the keys order two numbers as they are ordered exactly when the numbers show alike only if they are equal; so whenever both survive the conversion |
| `Projection.IntSurvives` | src/m365_mcp/result_projection.py:88 | an integer survives exactly when it is a double |
| `Projection.IntegersInRange` | src/m365_mcp/result_projection.py:88 | an integer from zero on stays in that range exactly below 10^17 - 8 |
| `Projection.InfinityBelowOne` | src/m365_mcp/result_projection.py:88 | infinity sorts before one |
| `Projection.KindsOrder` | src/m365_mcp/result_projection.py:82-89 | null before booleans before numbers before texts, and the order within |
| `Projection.TextShowsNumber` | src/m365_mcp/result_projection.py:88 | the key text of a finite number is its sign, its digits and twelve decimals in at least thirty characters |
| `Projection.SpecialTexts` | src/m365_mcp/result_projection.py:88 | the key texts of infinities and NaN |
| `Projection.LatestAnswer` | src/m365_mcp/result_projection.py:115-130 | LATEST raises exactly when a key overflows `float`; otherwise it answers nothing exactly when no row has the field, and else the first row of greatest key |
| `Projection.LatestAnswersGreatest` | src/m365_mcp/result_projection.py:115-130 | the first row of greatest number, when all survive the conversion in range |
| `Projection.AnswersExact` | src/m365_mcp/result_projection.py:92-139 | the answers to COUNT, EXISTS, METADATA_ONLY, SELECT, FIRST, TOP_N and PAGINATION |
| `Projection.LatestIsGreatest` | src/m365_mcp/result_projection.py:119-130 | for numbers in that range it is the first row whose number is shown greatest |
| `Projection.LatestOfSurvivors` | src/m365_mcp/result_projection.py:119-130 | when they survive the conversion too, it is the first row of greatest number |
| `Projection.GreatestMissed` | src/m365_mcp/result_projection.py:119-130 | of rows with 2^53 and 2^53 + 1, in this order, LATEST takes the first; of rows with 99999999999999999 and 99999999999999984, the second |
| `Projection.PagesJoin` | src/m365_mcp/result_projection.py:136-139 | the answers to consecutive PAGINATION requests of equal limit join to the whole input |
| `Binary64.OverflowExact` | src/m365_mcp/result_projection.py:88 | `float` of an integer overflows exactly from 2^1024 - 2^970 on |
| `Projection.ProjectionReduces` | src/m365_mcp/result_projection.py:92-139 | every row of an answer is part of an input row |

## Left out

- Browser, HTTP, MCP and process code (Playwright, FastAPI, FastMCP, httpx, docker): input and output.
- SQLite itself: tables are maps or sequences; file creation, journal modes and timeouts are not modelled.
- SHA-256 internals, the asyncio scheduler beyond the assumptions above, clocks and random tokens (arguments).
- The formats of digests and tokens, and naive datetimes: single pattern matches that no theorem here depends on. Only `Token` checks that decide a modelled outcome are kept, so some theorems speak of more values than the source admits.
- The values that `work()` returns, the `viable` flag of a snapshot and the details carried by errors.
- The digest of a checkpoint and the evidence id as texts: the first is not used by the modelled functions, the second is the parameter `identify`.
- Floating-point numbers and keys other than strings inside hashed payloads: the JSON model has strings, integers, booleans, null, arrays and objects. Lone surrogates cannot occur in its strings.
- The bounds that the constructors of runbooks and projection requests put on sizes and texts: the theorems hold without them.
- The digest of a policy and the serialisation methods of the evidence classes.
- Arithmetic on doubles beyond the conversion of an integer and the printing of twelve decimals, which are both modelled with their rounding.
- The regular expression for number matching and the text markers of a page: a page carries its candidates and markers.
- `resolve_mfa_number_unique` is modelled; `detect_mfa_number`, which the modelled path does not call, is not.
- Legacy lock names, JSON contract and manifest loading, configuration, logging, redaction and metrics.
- Single-branch deciders (escalation, budgets, readiness, profiles, runbook promotion) and the synthetic composites: each is one decision on its arguments, without state or interaction.
- ApprovalProtocol.RunRefines: without the transaction a result that came through the rowcount fallback agrees with the atomic one up to the time of the earlier consumption, which the source does not report there.
