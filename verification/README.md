# Verified models of the housing platform's stateful algorithms

The repository is mostly HTTP, gRPC and Kafka plumbing around a handful of small algorithms with
state of their own. This project models those algorithms in Dafny, branch for branch, and proves
what they are for. One module per component:

| files | component |
|---|---|
| `DependencyGraph`, `CycleDetection`, `KahnSort`, `DagValidator` | the cluster dependency DAG: depth-first cycle search, Kahn's sort, readiness walk |
| `CsvLine`, `CsvFile`, `ProtocolCsv`, `ProtocolFixedPoint` | the protocol comparison CSV: two line parsers, the writers, the anomaly column, re-extraction |
| `QueryGuard`, `TrafficShaper` (over `WaitQueue`) | the async query semaphore and the gateway's traffic shaper |
| `ClusterBudget` | the weighted budget that all gateways share through two Redis scripts |
| `Coalescer` | coalesced upstream fetches |
| `CircuitBreaker`, `BreakerWindow` | the adaptive circuit breaker, and how many calls can fail under it |
| `AccountDeletion`, `ListingProjection` | deletion with row lock and outbox; the idempotent listing projection |
| `BatchQueue`, `Cosine` | micro-batching and cosine similarity of the Ollama gateway |
| `PacketGaps`, `Varint`, `LongHeader` | QUIC packet-number accounting, variable-length integers, long headers |

**How concurrency is modelled.** A component that suspends (at an `await`, between two database
statements, until a timer or a reply) is a state machine whose events are the stretches of code
between two suspension points. `Step` performs one event, and leaves the state alone when the event
cannot happen; `Exec` runs any list of events. Invariants are proved for every `Exec` from `Init`,
so for every interleaving, any number of callers and any run length. Where the source keeps mutable
variables, a class holds the same variables and its methods are proved to perform exactly the
corresponding `Step`. What a probe of the cluster answers, what Redis or Postgres replies, the
clock, the upstream's answer and the square root are parameters or events.

**What the source does not promise.** Some properties one might expect are false of the code. The
members named here prove the condition under which the code does meet them, or give a run or an
input in which it does not:

* Kahn's sort fails on an acyclic graph that lists a dependency twice (`KahnSort.Toposort`,
  `DagValidator.DuplicateDependencyIsRefused`). The field `formal.acyclic` of the report is
  just its verdict: it is false for an acyclic graph with a node that is not ready
  (`DagValidator.UnreadyReportedCyclic`).
* The query semaphore may run more queries than its limit: `QueryGuard.CapIffNoOvertaking`,
  `QueryGuard.NoCapWithoutCondition`.
* The cluster budget may be exceeded once the key expires with held or releasing weight on it, and the
  key is renewed by acquires only: `ClusterBudget.CapIffLiveKept`, `ClusterBudget.NoCapAcrossExpiry`.
  Its counter is exact until the key expires with any weight on it: `ClusterBudget.ExactIffCountKept`.
  The cap is one on metered weight: a request that finds Redis down, or whose acquire loses its
  reply, is served without holding any.
* The traffic shaper does not admit in order of arrival once its capacity is raised over a queue:
  `TrafficShaper.OrderIffNoOvertaking`, `TrafficShaper.OvertakableIffOpened`,
  `TrafficShaper.LateArrivalOvertakes`.
* More than five overlapping calls may fail in thirty seconds without a success:
  `BreakerWindow.FiveFailuresIffNeverCrowds` gives the exact condition, and
  `BreakerWindow.FiveFailuresPerWindow` what it takes in the breaker's own variables. A burst of
  calls (`BreakerWindow.OverlapUnbounded`) and the old stamp of a straggler
  (`BreakerWindow.StragglerReopens`) each break it.
* A batch timer that fires during a flush strands the jobs queued behind it until another request
  happens to arrive: `BatchQueue.StrandedIffFlushSkipped`, `BatchQueue.SecondRequestStranded`.
* A listing event whose day matches the pattern but is no calendar day is claimed and never counted:
  `ListingProjection.CountedIffCalendarDay`.
* Re-extraction reproduces its CSV file exactly for rows with service, protocol and source and no
  line feed in a field; carriage returns do no harm: `ProtocolFixedPoint.FixedPoint`.
* The breaker's comment says it trips on high latency; latency alone never opens it:
  `CircuitBreaker.ShortCircuitNeedsFailure`, `CircuitBreaker.SlownessNeverBlocks`.
* Burst loss is never reported, since the detector looks up time stamps of missing packets only:
  `PacketGaps.Analyze`. (The docstring of `detect_gaps` gives the lost count of a gap as
  actual - expected - 1; the code adds up actual - expected, which is the right figure.)

## Model

| member | source | states |
|---|---|---|
| DependencyGraph.OrderImpliesAcyclic | scripts/cluster_health_dag.py:562-577 | a topological order rules out every cycle and every unknown dependency |
| DependencyGraph.StuckCycle | scripts/cluster_health_dag.py:570-576 | if every node of a non-empty set depends on a node of that set, there is a cycle |
| CycleDetection.FindingRefutes | scripts/cluster_health_dag.py:542-545 | a walk `stack + [v]` that returns to one of its nodes contains a cycle; an unknown dependency shows the graph is not closed |
| CycleDetection.Search.Visit | scripts/cluster_health_dag.py:538-552 | the recursion terminates; it leaves the stack as it was and blackens nodes in dependency order, or reports a finding that is really there |
| CycleDetection.DetectCycles | scripts/cluster_health_dag.py:533-559 | reports nothing if and only if every dependency is a node and no cycle exists; a reported finding exhibits an unknown dependency or a closed walk along dependency edges |
| KahnSort.InDegreeZero | scripts/cluster_health_dag.py:564-573 | a counter that starts at `len(deps)` and drops once per popped node reaches zero exactly when the list is duplicate-free and wholly popped, and is never negative |
| KahnSort.LeftoverHasCycle | scripts/cluster_health_dag.py:567-576 | if the queue runs dry early on a closed, duplicate-free graph, there is a cycle |
| KahnSort.NameLeqMeaning | scripts/cluster_health_dag.py:565 | the order of names is lexicographic: a prefix first, else by the first differing character |
| KahnSort.SortNamesSorts | scripts/cluster_health_dag.py:565 | the initial queue is in that order |
| KahnSort.Relax | scripts/cluster_health_dag.py:570-574 | after the inner loop every counter is up to date, output plus queue are exactly the nodes at zero, once each, and the queue has grown at its end by the nodes just made ready, in listing order |
| KahnSort.Toposort | scripts/cluster_health_dag.py:562-577 | any order returned is a permutation of the nodes with every dependency earlier; it starts with the sorted roots and goes on in the order in which nodes become ready, together-ready ones as listed; one is returned if and only if the graph is closed, acyclic and duplicate-free |
| KahnSort.KahnOrderUnique | scripts/cluster_health_dag.py:562-577 | there is only one order of that kind, so the result is determined |
| DagValidator.Readiness.DepReady | scripts/cluster_health_dag.py:595-669 | a cached node is answered without a probe; any other is probed once and cached |
| DagValidator.CheckDependencies | scripts/cluster_health_dag.py:716-719 | in the walk every dependency lookup is a cache hit: no probe, no change of the cache |
| DagValidator.WalkOrder | scripts/cluster_health_dag.py:714-722 | each node is probed exactly once, in topological order, however answers change over time |
| DagValidator.OneStatusPerNode | scripts/cluster_health_dag.py:715-722 | a node is reported, at itself and at every dependant, if and only if its one probe failed, with that probe's reason |
| DagValidator.SilentIffAllReady | scripts/cluster_health_dag.py:715-724 | nothing is reported if and only if every node's probe succeeded |
| DagValidator.UnknownDependencies | scripts/cluster_health_dag.py:677-680 | reports exactly the edges to names that are no node; nothing if and only if there is none |
| DagValidator.ValidateDependencyDag | scripts/cluster_health_dag.py:672-738 | `valid` if and only if the graph is closed, acyclic, duplicate-free and all probes succeed; the sort-failure branch is reached exactly by acyclic graphs with a duplicate; a cycle report is justified and given exactly when there is something to report; unsound graphs are not probed |
| DagValidator.DuplicateDependencyIsRefused | scripts/cluster_health_dag.py:562-577 | a concrete acyclic, closed graph that the sort refuses for a repeated dependency |
| DagValidator.UnreadyReportedCyclic | scripts/cluster_health_dag.py:724-730 | a report on one unready node without dependencies says that the graph is not acyclic, although it is |
| CsvLine.ParseCsvLine | scripts/perf/extract-protocol-matrix.js:106-134 | computes the recursive meaning `Cells` of every string, ill-formed quoting included |
| CsvLine.SplitCsv | scripts/load/summarize-ceiling-matrix.js:15-37 | computes the same function as the other parser on every string |
| CsvLine.LineRoundTrip | scripts/perf/extract-protocol-matrix.js:181-186 | escaping, joining with commas and parsing gives back every non-empty list of fields, whatever characters they hold |
| CsvLine.WriteLineInjective | scripts/load/summarize-ceiling-matrix.js:39-44 | two lists of fields with the same line are the same list |
| CsvLine.EscapeMeaning | scripts/perf/extract-protocol-matrix.js:181-186 | a field is written as it is if and only if it holds no quote, comma, LF or CR; any other is put in quotes |
| CsvFile.FileRoundTrip | scripts/perf/extract-protocol-matrix.js:365-388 | a whole-file reader after section 2 of RFC 4180 recovers every record, line breaks in fields included |
| CsvFile.WriteTableInjective | scripts/perf/extract-protocol-matrix.js:349-388 | two tables with the same file are the same table |
| ProtocolCsv.LastP95Meaning | scripts/perf/extract-protocol-matrix.js:213-220 | the compared p95 is that of the last row of the service for the protocol, even if its cell is no number |
| ProtocolCsv.GroupByService | scripts/perf/extract-protocol-matrix.js:212-220 | after the first loop each service's slot holds those two last values |
| ProtocolCsv.ComputeAnomalies | scripts/perf/extract-protocol-matrix.js:210-244 | a cell is "true" if and only if its row is http2 and, of its service, the last http1 or http1.1 row has a p95 a > 0 and the last http2 row one above a times the threshold; every other cell is empty, and nothing else changes |
| ProtocolCsv.MarkAgain | scripts/perf/extract-protocol-matrix.js:239-244 | the anomaly column depends on the other columns only: marking again marks the same |
| ProtocolCsv.EmitCsv | scripts/perf/extract-protocol-matrix.js:365-388 | the writer's lines, joined and ended by LF, are the records written one by one; the unescaped header is as good as an escaped one |
| ProtocolCsv.CollectRows | scripts/perf/extract-protocol-matrix.js:155-178 | the row loop keeps, in order, exactly the readable rows |
| ProtocolCsv.RowsFromCsv | scripts/perf/extract-protocol-matrix.js:139-179 | the reader returns `ExtractRows`, the function that the round-trip lemmas are about |
| ProtocolCsv.RowsIgnoreCr | scripts/perf/extract-protocol-matrix.js:141 | a file with CR LF line ends yields the rows it yields with LF |
| ProtocolCsv.ColumnMeaning | scripts/perf/extract-protocol-matrix.js:150-153 | a column is the one of its first name in the header, and a cell beyond the end of the row reads as empty |
| ProtocolCsv.AbsentColumn | scripts/perf/extract-protocol-matrix.js:150-153 | a column the header does not name reads as empty |
| ProtocolCsv.NoRowsWithoutColumns | scripts/perf/extract-protocol-matrix.js:142-148 | without a data line, or without service, protocol or p95 in the header, there are no rows |
| Common.TrimMeaning | scripts/perf/extract-protocol-matrix.js:141-143 | trimming takes white space off both ends, and all of it |
| ProtocolCsv.RebuildFromCsv | scripts/perf/extract-protocol-matrix.js:322-388 | a run without benchmark directory writes `Rerun` of the old file, or nothing when that has no row |
| ProtocolFixedPoint.LinesOfRecords | scripts/perf/extract-protocol-matrix.js:141 | splitting a written file at LF or CR LF gives its records' lines when no field holds LF |
| ProtocolFixedPoint.KeepsRecordLines | scripts/perf/extract-protocol-matrix.js:141 | the blank-line filter drops none of them and drops the empty rest |
| ProtocolFixedPoint.ExtractedRowsSurvive | scripts/perf/extract-protocol-matrix.js:155-177 | whatever file is read, every row it yields can be written and read again |
| ProtocolFixedPoint.ReextractionRecovers | scripts/perf/extract-protocol-matrix.js:139-179 | reading a written file gives the same rows in the same order, up to the anomaly column |
| ProtocolFixedPoint.FixedPoint | scripts/perf/extract-protocol-matrix.js:322-388 | re-running from its own file reproduces the file exactly if and only if every row has service, protocol and source and no field holds LF |
| ProtocolFixedPoint.HeaderOnlyIsLeft | scripts/perf/extract-protocol-matrix.js:333-345 | a file without rows is left alone |
| QueryGuard.Guard.Begin | services/analytics-service/src/db.ts:25-30 | takes a slot or queues the caller behind all earlier ones; keeps the invariant |
| QueryGuard.Guard.Continue | services/analytics-service/src/db.ts:31 | a woken query takes its slot in a separate step; keeps the invariant |
| QueryGuard.Guard.Leave | services/analytics-service/src/db.ts:33-37 | `inflight` drops by exactly one, so the clamp at 0 never acts; the first waiter is woken; keeps the invariant |
| QueryGuard.InvAlways | services/analytics-service/src/db.ts:23-45 | in every interleaving `inflight` is the number of running queries, the queue holds the waiting ones in order of arrival, and a non-empty queue means running + woken >= limit |
| QueryGuard.WokenAtItsRelease | services/analytics-service/src/db.ts:30-37 | a query queued behind k others is woken at exactly the (k+1)-th later release, in every run |
| QueryGuard.PressureCapped | services/analytics-service/src/db.ts:25-37 | running + woken <= limit in runs without overtaking |
| QueryGuard.CapIffNoOvertaking | services/analytics-service/src/booking-read-pool.ts:22-42 | the limit holds, however woken queries are then scheduled, if and only if no fast-path arrival takes a slot that running and woken queries already account for |
| QueryGuard.QuietArrivalsAreSafe | services/analytics-service/src/db.ts:26-31 | an arrival that does not fall between a wake and its resumption never overtakes |
| QueryGuard.NoCapWithoutCondition | services/analytics-service/src/db.ts:25-37 | for every limit of at least 1 and every n some interleaving runs at least n queries at once |
| QueryGuard.ZeroLimitStalls | services/analytics-service/src/db.ts:12-13 | a limit configured between 0 and 1 becomes 0, and then in every run no query is ever started |
| TrafficShaper.ArrivalDecision | services/api-gateway/src/e2e-traffic-shaper.ts:28-64 | an arrival is admitted if and only if fewer than 4 are in use, or one more fits into baseMax, taken twice under throttling; it is refused if and only if it is not admitted and maxWaiters wait; otherwise it is queued last |
| TrafficShaper.Shaper.Handle | services/api-gateway/src/e2e-traffic-shaper.ts:33-65 | performs the arrival that the last row decides and keeps the invariant |
| TrafficShaper.Shaper.Release | services/api-gateway/src/e2e-traffic-shaper.ts:42-48 | releases once however often it is called, and hands the place to the first waiter |
| TrafficShaper.InvAlways | services/api-gateway/src/e2e-traffic-shaper.ts:22-66 | however capacity flips: `inUse` is the number admitted and not released, at most max(4, baseMax); the queue is bounded; a non-empty queue means `inUse` >= 4 |
| TrafficShaper.AdmittedAtItsRelease | services/api-gateway/src/e2e-traffic-shaper.ts:42-64 | a request queued behind k others is admitted at exactly the (k+1)-th later release, in every run |
| TrafficShaper.OrderIffNoOvertaking | services/api-gateway/src/e2e-traffic-shaper.ts:54-64 | requests are admitted in order of arrival at every moment of a run if and only if no arrival takes the fast path past a non-empty queue |
| TrafficShaper.OvertakableIffOpened | services/api-gateway/src/e2e-traffic-shaper.ts:28-31 | at no moment could an arrival overtake, if and only if the capacity is never set above the requests in use while others wait |
| TrafficShaper.ConstantCapacityKeepsOrder | services/api-gateway/src/e2e-traffic-shaper.ts:28-64 | a run of constant capacity never overtakes and admits in order |
| TrafficShaper.LateArrivalOvertakes | services/api-gateway/src/e2e-traffic-shaper.ts:54-58 | a run in which capacity is restored over a queue and a later arrival passes it |
| TrafficShaper.Shaper.Poll | services/api-gateway/src/watchdog-throttle-poll.ts:16-24 | the poller changes the capacity only: nobody is admitted or released by it |
| ClusterBudget.Redis.EvalTry | services/api-gateway/src/cluster-weight-budget.ts:13-22 | the acquire script: reply and new key, with the key's expiry, for every argument |
| ClusterBudget.Redis.EvalRelease | services/api-gateway/src/cluster-weight-budget.ts:29-36 | the release script: takes off at most what is there and does not renew the expiry |
| ClusterBudget.ArriveEffect | services/api-gateway/src/cluster-weight-budget.ts:81-129 | with Redis up, a positive weight and a cap, an arrival is refused if and only if its weight does not fit, and otherwise holds it; it is served unmetered exactly without weight or cap, with Redis down, or when the reply of a refusal is lost |
| ClusterBudget.ReleasedOnce | services/api-gateway/src/cluster-weight-budget.ts:108-124 | a request gives back exactly its weight, once, however often `finish` and `close` fire |
| ClusterBudget.InvAlways | services/api-gateway/src/cluster-weight-budget.ts:92-131 | for any number of gateways and any mix of acquire, refusal, release, lost message and expiry, the counter is in 0..cap and at most the weight held, being released or leaked |
| ClusterBudget.ExactIffCountKept | services/api-gateway/src/cluster-weight-budget.ts:16-21 | the counter equals that weight at every moment if and only if the key never expires with weight on it |
| ClusterBudget.CoveredIffLiveKept | services/api-gateway/src/cluster-weight-budget.ts:16-35 | the counter covers all weight that is held or being released, at every moment, if and only if the key never expires with such weight on it; leaks and their expiry do no harm |
| ClusterBudget.HeldWithinCap | services/api-gateway/src/cluster-weight-budget.ts:92-131 | in such runs the weight held across all gateways never passes the cap, however much weight has leaked and expired |
| ClusterBudget.CapIffLiveKept | services/api-gateway/src/cluster-weight-budget.ts:13-36 | the cap holds, whatever the gateways do next, if and only if the key never expires with held or releasing weight on it |
| ClusterBudget.ServedWithinCap | services/api-gateway/src/cluster-weight-budget.ts:92-131 | while Redis answers and no live weight expires, no request is ever served unmetered, so the cap bounds all that is served |
| ClusterBudget.LeakIsReturned | services/api-gateway/src/cluster-weight-budget.ts:20-21 | a run in which expiry returns leaked weight and the cap holds although the count was lost |
| ClusterBudget.ExpiryDatesFromLastAcquire | services/api-gateway/src/cluster-weight-budget.ts:20-36 | the key expires 180 seconds after the last successful acquire, whatever was released or refused since |
| ClusterBudget.NoCapAcrossExpiry | services/api-gateway/src/cluster-weight-budget.ts:20-21 | under a cap of 1, requests that outlive the key come to hold any weight n together |
| Coalescer.Handler.Handle | services/api-gateway/src/proxy-limits.ts:46-80 | joins the live fetch for the key or starts one; keeps the invariant |
| Coalescer.Handler.Cleanup | services/api-gateway/src/proxy-limits.ts:74-76 | the `finally` callback removes its own entry and no other; keeps the invariant |
| Coalescer.OneFetchPerKey | services/api-gateway/src/proxy-limits.ts:52-78 | at most one upstream fetch per query string is outstanding, in every run |
| Coalescer.AnsweredByOwnFetch | services/api-gateway/src/proxy-limits.ts:52-84 | a request is answered only with the outcome of the one fetch of its key that was pending at its arrival or started by it |
| Coalescer.AnswerArrives | services/api-gateway/src/proxy-limits.ts:57-85 | in every run, when the fetch of a waiting request settles, its callback runs and the request resumes, the request has exactly the outcome that the upstream gave |
| Coalescer.FreshAfterRemoval | services/api-gateway/src/proxy-limits.ts:74-78 | after removal the next request starts a new fetch and is never answered by the old one |
| Coalescer.LateJoinerSharesFailure | services/api-gateway/src/proxy-limits.ts:52-84 | a run in which a request arrives after the failure, before the callback, and shares it |
| CircuitBreaker.Breaker.BeginCall | services/analytics-service/src/circuitBreaker.ts:23-37 | the call up to its await: short-circuited, or let through after the reset that is due |
| CircuitBreaker.Breaker.OnSuccess | services/analytics-service/src/circuitBreaker.ts:38-41 | records the duration in the window and clears the count |
| CircuitBreaker.Breaker.OnFailure | services/analytics-service/src/circuitBreaker.ts:42-46 | counts the failure and stamps it with the start of its call |
| CircuitBreaker.BoundedIffNeverOvercommits | services/analytics-service/src/circuitBreaker.ts:27-46 | whatever overlaps, failures counted plus calls in flight stay at most 5 throughout a run if and only if no call starts when the count (after its reset) plus the calls in flight already make 5 |
| BreakerWindow.FiveFailuresIffNeverCrowds | services/analytics-service/src/circuitBreaker.ts:23-46 | under a clock that does not go back: whatever calls fail next, no window of 30 s without a success sees more than 5 of the calls started in it fail, if and only if no call is let through when, of the calls started in the last 30 s, those failed since the last success and those in flight already make 5 |
| BreakerWindow.FiveOfThirtySeconds | services/analytics-service/src/circuitBreaker.ts:23-46 | while no call is let through like that, at most 5 of the calls started in any 30 s fail without a success in between, however late they fail |
| BreakerWindow.FiveFailuresPerWindow | services/analytics-service/src/circuitBreaker.ts:27-46 | in the breaker's own variables, whatever happened before and whatever overlaps: a window that begins with count plus calls in flight at most 5, in which no call starts with 5 of them made up and no older failure moves the stamp back before it, sees at most 5 of its calls fail |
| BreakerWindow.SequentialFiveFailures | services/analytics-service/src/circuitBreaker.ts:23-46 | so every window does in runs with at most one call in flight and a clock that does not go back |
| BreakerWindow.StragglerReopens | services/analytics-service/src/circuitBreaker.ts:24-44 | for every time t, a run with at most two calls in flight and the count never above 5, in which 9 calls started within 8 s fail: only the condition on the stamp is broken, by a straggler's failure |
| CircuitBreaker.ShortCircuitNeedsFailure | services/analytics-service/src/circuitBreaker.ts:27-30 | in every run, overlapping or not, a short circuit comes less than 30 s after the start of an earlier call that failed |
| CircuitBreaker.SlownessNeverBlocks | services/analytics-service/src/circuitBreaker.ts:25-33 | after a success slower than a second the breaker has tripped and the next call is let through all the same |
| CircuitBreaker.WindowIsLastTwenty | services/analytics-service/src/circuitBreaker.ts:9-12 | the latency window is exactly the last 20 success durations since the last reset, or all of them |
| CircuitBreaker.FailuresCounted | services/analytics-service/src/circuitBreaker.ts:33-44 | the count is the number of failures since the last success or reset, and the stamp the start of the call that failed last |
| CircuitBreaker.OpenMeaning | services/analytics-service/src/circuitBreaker.ts:23-36 | a call is short-circuited if and only if the call that failed last started less than 30000 ms ago and either 5 failures have come since the last success or reset or the last 20 successes since the reset average above 1000 ms; every other call is let through |
| BreakerWindow.OverlapUnbounded | services/analytics-service/src/circuitBreaker.ts:24-44 | for every n a run in which n calls start at one instant before any ends, and all fail, with no stamp moved back |
| AccountDeletion.AuthDb.LockRow | services/auth-service/src/server.ts:783-796 | locks an undeleted row, or ends the call, under the invariant |
| AccountDeletion.AuthDb.EraseAndCommit | services/auth-service/src/server.ts:815-850 | the user is erased and exactly one outbox row is appended, in one step |
| AccountDeletion.InvAlways | services/auth-service/src/server.ts:737-883 | in every interleaving a user has exactly one outbox row if deleted and none otherwise; erased rows hold no address and no credentials; the outbox rows are those of the calls that committed, one each; a lock is held exactly by a call in its transaction |
| AccountDeletion.OneAccepted | services/auth-service/src/server.ts:849-883 | each user gets at most one `accepted`, and the user's one outbox event is that call's |
| AccountDeletion.DeletionIsFinal | services/auth-service/src/server.ts:820-847 | deleted users stay deleted and unchanged, and outbox rows stay, through any further run |
| AccountDeletion.LaterCallsAlreadyDeleted | services/auth-service/src/server.ts:766-796 | once a user is deleted every later read, locked or not, answers `already_deleted`, and there is no second row |
| AccountDeletion.GoodIffNotAnnounced | services/auth-service/src/server.ts:586-634 | in every run `/validate` and `/refresh` accept a well-signed token if and only if Redis has not revoked it, its user is registered, and the outbox holds no deletion of that user |
| AccountDeletion.RefusalReasons | services/auth-service/src/server.ts:676-711 | a revoked token is refused in every state, and each refusal names its own reason |
| AccountDeletion.RefusedAfterCommit | services/auth-service/src/server.ts:596-634 | they refuse every token whose user read follows the commit, whatever Redis says |
| AccountDeletion.UndisturbedIsAccepted | services/auth-service/src/server.ts:755-883 | in any reachable state an undisturbed call, not revoked, for an undeleted user with a free row erases the user, writes its own outbox row, frees the lock and is accepted |
| AccountDeletion.SecondCallAlreadyDeleted | services/auth-service/src/server.ts:766-770 | a call for a deleted user answers `already_deleted` and changes nothing |
| AccountDeletion.RevokedNeverCommits | services/auth-service/src/server.ts:772-780 | in every run a call whose look-up says revoked ends there, with no outbox row of its own |
| AccountDeletion.EndedStays | services/auth-service/src/server.ts:737-883 | a call that has its reply does nothing more |
| ListingProjection.FigureAccounted | services/analytics-service/src/listing-metrics-projection.ts:7-43 | under duplicate, concurrent, failing and crashing deliveries each day's figure is the number of distinct events claimed for it less those between claim and bump and those lost there |
| ListingProjection.CountedOnce | services/analytics-service/src/listing-metrics-projection.ts:9-13 | no event is counted twice |
| ListingProjection.CountedIffCalendarDay | services/analytics-service/src/listing-metrics-projection.ts:31-43 | after a fault-free run at rest every well-formed event is claimed, and a day's events are counted once each if the calendar has that day and otherwise not at all |
| ListingProjection.PatternIffWritten | services/analytics-service/src/listing-metrics-projection.ts:36-37 | a day passes the pattern if and only if it is some year, month and day written with four, two and two digits |
| ListingProjection.DayOfTimestamp | services/analytics-service/src/listing-metrics-projection.ts:36 | the day of a time stamp is its first ten characters, white space in front aside |
| ListingProjection.CalendarDayMeaning | services/analytics-service/src/listing-metrics-projection.ts:19-28 | such a day is a date if and only if there is such a month and it is that long |
| ListingProjection.PatternAdmitsImpossibleDay | services/analytics-service/src/listing-metrics-projection.ts:37 | the 30th of February passes the pattern |
| ListingProjection.Tables.TryClaim | services/analytics-service/src/listing-metrics-projection.ts:7-17 | true if and only if the event was not claimed before; keeps the invariant |
| ListingProjection.Tables.BumpDailyMetrics | services/analytics-service/src/listing-metrics-projection.ts:19-28 | adds one to the day, or rejects when the calendar lacks it; keeps the invariant |
| ListingProjection.Tables.Apply | services/analytics-service/src/listing-metrics-projection.ts:31-43 | true if and only if the day is a calendar day and the event is new, false on a malformed day or a claimed event, and rejected, with the claim kept, on a day the calendar lacks; the day's figure rises by one in the first case and no other figure ever changes |
| BatchQueue.JobGetsItsLine | services/ollama-gateway/server.js:302-305 | an answer is the join of given newline-free lines if and only if splitting it gives them; then position i gets line i and positions beyond get the whole answer |
| BatchQueue.MergedPromptLines | services/ollama-gateway/server.js:295 | the merged prompt has as many lines as there are prompts if and only if no prompt holds a line feed |
| BatchQueue.BatchGetsItsLines | services/ollama-gateway/server.js:301-305 | in every run and for every response, each job of the batch is settled with its own line, and one for which there is no line with the whole response |
| BatchQueue.AbsentResponse | services/ollama-gateway/server.js:302-305 | without a response the first job gets an empty line and the others nothing |
| BatchQueue.FailureRejectsBatch | services/ollama-gateway/server.js:306-310 | in every run a failing upstream rejects each job of the batch |
| BatchQueue.SettledBy | services/ollama-gateway/server.js:296-310 | every settlement has an event that made it, and is a rejection if and only if that event was the failure of its batch |
| BatchQueue.Batcher.Enqueue | services/ollama-gateway/server.js:497-500 | the job is queued last and a timer is running; keeps conservation |
| BatchQueue.Batcher.OnTimer | services/ollama-gateway/server.js:283-292 | the whole queue becomes the batch in flight, or nothing happens during a flush; keeps conservation |
| BatchQueue.Batcher.OnReply | services/ollama-gateway/server.js:301-310 | every job of the batch is settled in order; keeps conservation |
| BatchQueue.Batcher.OnFailure | services/ollama-gateway/server.js:306-310 | the catch branch: every job of the batch is rejected, in order; keeps conservation |
| BatchQueue.Resolve | services/ollama-gateway/server.js:302-305 | the loop hands each job the answer that the lemmas on dealing describe |
| BatchQueue.ConservedAlways | services/ollama-gateway/server.js:281-311 | settled jobs, batch in flight and queue, in this order, are all jobs that ever arrived, once each, in order of arrival |
| BatchQueue.SettlesInOrder | services/ollama-gateway/server.js:303-307 | the k-th settlement is that of job k |
| BatchQueue.SettledForGood | services/ollama-gateway/server.js:303-307 | a settlement is never taken back or repeated |
| BatchQueue.StrandedIffFlushSkipped | services/ollama-gateway/server.js:281-290 | queued jobs are at some moment without a timer if and only if a timer fires during a flush with jobs queued |
| BatchQueue.StrandedUntilNextArrival | services/ollama-gateway/server.js:281-290 | such jobs stay queued through every reply and timer until another request arrives |
| BatchQueue.SecondRequestStranded | services/ollama-gateway/server.js:289-290 | a run that leaves the second of two requests behind |
| Cosine.CosineSim | services/ollama-gateway/server.js:101-113 | the loop computes the dot product over the product of the norms, and 0 for empty or unequal vectors or a zero norm |
| Cosine.CauchySchwarz | services/ollama-gateway/server.js:106-110 | the three accumulators satisfy dot² <= na · nb |
| Cosine.InRange | services/ollama-gateway/server.js:101-113 | the similarity lies between -1 and 1 |
| Cosine.Symmetric | services/ollama-gateway/server.js:101-113 | the similarity is symmetric |
| Cosine.ScaleInvariant | services/ollama-gateway/server.js:101-113 | multiplying a vector by a positive number changes nothing |
| Cosine.OneIffMultiple | services/ollama-gateway/server.js:101-113 | the similarity is 1 if and only if the first vector is not zero and the second is a positive multiple of it |
| Cosine.MinusOneIffNegativeMultiple | services/ollama-gateway/server.js:101-113 | it is -1 if and only if the first vector is not zero and the second is a negative multiple of it |
| Cosine.ProductOfNorms | services/ollama-gateway/server.js:101-113 | times both norms it is the dot product, zero vectors included |
| PacketGaps.DetectGaps | scripts/lib/quic_loss_analyzer.py:51-62 | computes `Gaps`, the function characterised by the next row |
| PacketGaps.GapsExact | scripts/lib/quic_loss_analyzer.py:51-62 | the gaps are exactly the maximal runs of missing numbers between two seen ones |
| PacketGaps.LostIsMissingCount | scripts/lib/quic_loss_analyzer.py:65-66 | the total over the gaps is the number of packet numbers missing from the span: span minus distinct count |
| PacketGaps.SpanLoss | scripts/lib/transport_validator.py:115-121 | the other validator's figure is the same total, on every list |
| PacketGaps.DetectReordering | scripts/lib/quic_loss_analyzer.py:69-78 | reports if and only if at least two packets are given and there is an inversion or a number below -1 |
| PacketGaps.ReorderingIffInversion | scripts/lib/quic_loss_analyzer.py:69-78 | for packet numbers, which are not negative, that means: if and only if an inversion exists |
| PacketGaps.DetectBurstLoss | scripts/lib/quic_loss_analyzer.py:81-97 | reports if and only if two gaps have times within the window |
| PacketGaps.TimeOfLast | scripts/lib/quic_loss_analyzer.py:89 | the time looked up for a number is that of its last packet |
| PacketGaps.CloseMeaning | scripts/lib/quic_loss_analyzer.py:95 | two times are close when both are known and at most a hundredth of a second apart |
| PacketGaps.GapTimesAbsent | scripts/lib/quic_loss_analyzer.py:88-94 | every number looked up for a real gap is missing, so it has no time |
| PacketGaps.Analyze | scripts/lib/quic_loss_analyzer.py:113-140 | burst loss is never reported by the analysis of a trace; the other figures are as characterised above |
| Varint.DecodeVarint | scripts/lib/quic_command_center/varint.py:5-16 | each error exactly under its condition, otherwise the value that the next two rows characterise |
| Varint.DecodeInvertsEncode | scripts/lib/quic_command_center/varint.py:8-16 | at any offset and with any bytes after it, decoding gives back what section 16 of RFC 9000 encodes, and its length |
| Varint.EncodeInvertsDecode | scripts/lib/quic_command_center/varint.py:8-16 | whatever decodes is the encoding of the value returned, which is below 2^(8 length - 2) |
| Varint.StandardExamples | scripts/lib/quic_command_center/varint.py:8-16 | the one-, two- and four-byte examples of appendix A.1 of RFC 9000 decode to the values given there |
| LongHeader.ParseLongHeader | scripts/lib/quic_command_center/header.py:5-39 | fails exactly on short-form or incomplete input |
| LongHeader.ParseInvertsSerialise | scripts/lib/quic_command_center/header.py:11-39 | parsing gives back every field that was serialised, consumes 7 + dcid + scid bytes and ignores what follows |
| LongHeader.SerialiseInvertsParse | scripts/lib/quic_command_center/header.py:11-39 | whatever parses begins with the serialisation of what was parsed |
| LongHeader.TruncationFails | scripts/lib/quic_command_center/header.py:6-26 | a header cut off anywhere before its end does not parse |
| LongHeader.HexReads | scripts/lib/quic_command_center/header.py:35-36 | reading the hexadecimal text in base 16, two digits a byte, gives back the connection ID |
| LongHeader.HexInjective | scripts/lib/quic_command_center/header.py:35-36 | so the text determines the connection ID |

## Left out

- HTTP routing, proxying, gRPC, Kafka, telemetry, the user interface, load scripts and report generators: plumbing around the algorithms.
- kubectl, socket and health probes, tshark and file reading: a probe's answer is a parameter, traces and files are given as lists and strings.
- Postgres, Redis and Kafka internals: only atomic statements, one transaction under a row lock, a key with an expiry, and duplicate delivery. Replies lost and statements failed are events.
- JWT, bcrypt, MFA, OAuth, passkeys, the user cache and the revocation helpers: token checks take what Redis said as a parameter.
- Credential enrolment and profile changes for an account after its deletion, and the background publisher of the outbox.
- The text of violation and log messages, and of the report files other than the CSV; the recursion limit of Python.
- CycleDetection.DetectCycles: which of several findings is reported first is not stated.
- Rows built from k6 summary JSON, `parseP95Ms` and the threshold's environment variable: the text-to-number function and the threshold are parameters of the anomaly column.
- ProtocolCsv.RowsFromCsv: a missing cell is read as an empty one, which prints, compares and parses alike; characters are Unicode scalar values, not UTF-16 units.
- `looks_like_quic_v1_short_header`, `pickModel`, `isHeavy`, `gatewayRouteWeight`, `proxyInflightMiddleware`: single tests, table look-ups or a plain counter.
- TrafficShaper.Shaper.Release: a client that disconnects while its request is still queued is not modelled.
- BreakerWindow.FiveFailuresIffNeverCrowds: for a clock that does not go back; the exact condition looks at the calls of the last 30 s rather than at the breaker's variables.
- ClusterBudget.HeldWithinCap: bounds metered weight; requests served without a successful acquire are not counted as held.
- CircuitBreaker.ShortCircuitNeedsFailure: for clocks past their first 30 seconds after the epoch, since the initial failure time is 0.
- ListingProjection.Tables.TryClaim: an event id is the uuid its text stands for; the length and alphabet test of that text is not modelled.
- Cosine.CosineSim: exact reals, with the square root as a parameter; rounding is not modelled.
- PacketGaps.Analyze: the rounded loss percentages are left out.
- Varint.DecodeVarint: a negative offset, which Python would count from the end, is not modelled.
- LongHeader.ParseLongHeader: connection IDs of up to 255 bytes are accepted, as the source does, where version 1 in RFC 9000 allows 20.
- BatchQueue.Batcher.OnReply: the choice of model and the disabled mode are left out.
