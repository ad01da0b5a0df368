# Verified model of the detection pipeline

Several small algorithms decide what this host-monitoring system reports: a statistical drift test,
hysteresis counters, an isolation forest, a bounded ingestion queue under supervision, a hash chain,
incident correlation with score fusion, and an activation gate. This project models them in Dafny
and proves what they promise. Loops and stateful objects of the source are methods and classes that
are proved against specification functions; the two threaded components are state machines whose
steps interleave in any order. Numbers are exact integers and reals.

`dafny verify dfyconfig.toml` checks everything.

| file | subject |
|---|---|
| `LatticePaths`, `KsTest`, `Holm`, `Drift`, `ErrorRate`, `DivisionRate` | exact two-sample KS test, Holm correction, the refusal to conclude, the rate of false reports |
| `Hysteresis`, `SystemFailure`, `ServiceFailures` | window-idempotent counters, dead bands, crash-loop counting |
| `LiveIngestion`, `LiveIngestionRuns`, `LiveIngestionEvents` | producer and consumer over a bounded queue, the invariants of their steps (module `Conservation`), whole runs, and what stop requests and counters mean |
| `RestartPolicy`, `Supervisor` | backoff ladder and crash-loop window, restart loop beside `stop()` |
| `EvidenceChain` | the append-only hash chain and the serialization of its rows (module `Json`) |
| `Correlation`, `Fusion`, `Explainer`, `Rounding` | grouping findings, fusing scores, recomputing them from rounded parts |
| `Evaluation` | Wilson bound, activation gate, threshold calibration |
| `IsolationForest`, `ForestScoring`, `AnomalyAttribution` | tree validation (and the shapes of trees, module `TreeShapes`), routing, depth decomposition, ranked attribution |
| `Basics` | shared modules: options, finite sets, real division, counting, sorting |

## Where the code does less than it promises

The models follow the code, also where its documentation says otherwise.

- `storage/evidence_chain.py:38-40` says a new column may be appended without touching earlier links.
  `verify_chain` serializes every row with the columns it is given, so any change of the list breaks
  every nonempty chain (`EvidenceChain.ColumnsAreFrozen`, `EvidenceChain.AppendedColumnBreaksChain`).
- `explainability/explainer.py:130-132` recomputes the risk from rounded components and demands equality
  at four decimals. A finding can fail that although nothing was altered (`Explainer.OwnFindingRefused`);
  exactly when is `Explainer.RefusedIffLossCrossesMidpoint`. With the shipped rules and behaviour scores,
  which are multiples of 0.0001, it takes a model score at a tie (`Explainer.RefusedOnlyNearTie`); there
  floating-point arithmetic may decide either way.
- `pipeline/live_ingestion.py:584-588` reads the done flag after the poll timed out. What was put in
  between stays in the queue, counted nowhere, in a run that ends as a clean stop
  (`LiveIngestionRuns.ResidueIsPossible`); `LiveIngestionRuns.EmptyExitResidue` says exactly what is left.
- `pipeline/supervisor.py:314-316` returns to the head of the loop when a wait runs out; a stop that
  arrives then ends the run with the status still at backoff (`Supervisor.BackoffMayOutliveTheRun`).
  Only there can a run end without a terminal status (`Supervisor.ExitStatus`).
- `detection/system_failure.py:205-208` prunes for good. A window scored after a later one may report
  fewer failures than lie in its reach (`ServiceFailures.LateWindowMissesFailures`), exactly when an
  earlier look removed one (`ServiceFailures.CountIsExactUnlessForgotten`).

## Model

| member | source | states |
|---|---|---|
| LatticePaths.PathsToMembers | ml/drift.py:115-121 | The paths counted to a lattice point are exactly the step sequences from (0,0) to it all of whose vertices lie in the band |
| LatticePaths.PathCountRecurrence | ml/drift.py:127-135 | The number of banded paths to a point satisfies the recurrence the row program computes: 0 outside the band, else the sum over the predecessors |
| LatticePaths.AllPathsCount | ml/drift.py:136 | There are C(i+j, i) monotone paths to (i, j) |
| LatticePaths.BandIsStatisticBelow | ml/drift.py:116-119 | A path stays strictly inside the band of half-width s exactly when its largest deviation is below s |
| LatticePaths.BandComplement | ml/drift.py:136-143 | The paths outside the band and those inside partition all C(n+m, n) orderings, so total - inside counts the orderings at least as extreme |
| LatticePaths.TailProbabilityBounds | ml/drift.py:123-143 | The p-value lies in [0, 1] and is 1 for a statistic that is not positive |
| LatticePaths.TailProbabilityAntitone | ml/drift.py:112-143 | A larger statistic never has a larger p-value |
| LatticePaths.DeviationAtMostProduct | ml/drift.py:115-121 | No lattice point deviates by more than n*m, and only the two corners deviate by that much |
| LatticePaths.SeparatedPaths | ml/drift.py:236-237 | Exactly the two completely separated orderings reach the statistic n*m |
| LatticePaths.SeparationProbability | ml/drift.py:236-248 | Of the C(n+m, n) orderings exactly two are completely separated |
| KsTest.KsIntegerStatistic | ml/drift.py:86-109 | The two-pointer sweep over the merged values returns the supremum over all real x of the absolute difference between m times the number of reference values at or below x and n times that of comparison values, ties included |
| KsTest.StatisticIsSupremum | ml/drift.py:86-95 | The statistic is the one number that bounds the deviation at every real x and is reached at some x |
| KsTest.StatisticPermutation | ml/drift.py:97-109 | Permuting either sample leaves the statistic alone |
| KsTest.StatisticSymmetric | ml/drift.py:97-109 | Swapping the samples leaves the statistic alone |
| KsTest.StatisticRange | ml/drift.py:236-240 | The statistic is at most n*m, and equals n*m exactly when one sample lies entirely below the other |
| KsTest.PathFollowsCounts | ml/drift.py:90-92 | Along the path that the merged order of tie-free samples traces, each vertex holds the two counts at that value |
| KsTest.StatisticOfOrdering | ml/drift.py:116-119 | For tie-free samples the statistic is the largest deviation along the path their merged order traces, which is the quantity the path counter bands |
| KsTest.EveryPathIsAnOrdering | ml/drift.py:117-120 | Every monotone path is the merged order of some pair of tie-free samples, so counting paths counts orderings |
| KsTest.CellRecurrence | ml/drift.py:126-135 | The value each cell of the row program must hold, at the borders, outside the band and inside it |
| KsTest.ExactTwoSidedP | ml/drift.py:112-143 | The rolling-row loop returns the share of orderings whose statistic is at least the observed one |
| KsTest.TailIsQuotient | ml/drift.py:136-143 | That share is (C(n+m, n) - inside) / C(n+m, n) with 0 <= inside <= C(n+m, n) |
| KsTest.MinimumIsAttained | ml/drift.py:232-248 | No pair of samples of these sizes has a p-value below 2/C(n+m, n), and completely separated ones have exactly that |
| Holm.HolmBonferroni | ml/drift.py:203-229 | Each position gets its rank with ties broken by position, the threshold alpha/(k - rank), and is rejected exactly when it and everything ranked before it is within its threshold |
| Holm.ClosedTesting | ml/drift.py:209-212 | A hypothesis is rejected if and only if every family containing it passes a joint Bonferroni test: step-down is the closed testing procedure |
| Holm.FamilyWise | ml/drift.py:209-215 | If any member of a nonempty family T is rejected then some member of T has p at most alpha divided by the size of T, the combinatorial core of family-wise control |
| Holm.FirstThreshold | ml/drift.py:220-223 | Whatever is within alpha/k is rejected, and nothing is rejected exactly when every p-value exceeds alpha/k |
| Holm.BonferroniRejected | ml/drift.py:211-212 | Everything plain Bonferroni rejects is rejected |
| Holm.LoweringKeepsRejections | ml/drift.py:216-229 | Lowering any of the p-values never takes back a rejection |
| Holm.SmallerIsRejected | ml/drift.py:217-223 | A p-value no larger than a rejected one is rejected, so equal p-values get equal decisions |
| Holm.InputOrderIrrelevant | ml/drift.py:203-229 | Reordering the family reorders the decisions and changes none |
| Drift.TwoSampleKs | ml/drift.py:178-200 | An empty side is an error; otherwise the statistic is normalised by n*m and the p-value is the exact one when (n+1)(m+1) <= 400000 and that of the series otherwise, with the method named |
| Drift.AssessDrift | ml/drift.py:410-462 | The assessment is refused exactly for an earlier reason, fewer than 10 reference or 30 comparison windows, or unattainable significance; otherwise a feature drifted exactly when Holm rejects its p-value, and drift is reported exactly when some feature did |
| Drift.RefusedInNumbers | ml/drift.py:410-421 | The refusal in numbers: fewer than 10 reference or 30 comparison windows, or 2/C(n+m, n) above alpha over the number of features |
| Drift.RefusalIsExact | ml/drift.py:415-421 | On the exact branch, when the sizes cannot attain alpha/k nothing is rejected for any data, and when they can every completely separated feature is rejected |
| Drift.RefusedIffNothingCanBeRejected | ml/drift.py:232-248 | The attainability refusal fires if and only if no data of these sizes could have any feature rejected |
| Drift.DriftMeansFewExtremeOrderings | ml/drift.py:427-428 | On the exact branch some feature is reported as drifted if and only if, for some feature, the orderings at least as extreme as its data make up at most the share alpha/k of all orderings |
| Drift.DriftedSetHasFewExtreme | ml/drift.py:209-215 | In any set of features holding a drifted one, some feature of the set has data that at most the share alpha over the size of the set of all orderings matches or exceeds |
| LatticePaths.PValueIsValid | ml/drift.py:115-121 | When every ordering is equally likely the exact p-value is valid: for every a >= 0 at most the share a of the orderings has a p-value of at most a |
| Holm.FamilyWiseErrorRate | ml/drift.py:209-215 | With p-values of the true hypotheses that are valid up to alpha, whatever their dependence and whatever the others are, a true one is rejected in at most the share alpha of equally likely outcomes |
| ErrorRate.TiesLowerStatistic | ml/drift.py:90-95 | With ties the statistic is at most that of any order that breaks them |
| ErrorRate.MergePathMerges | ml/drift.py:116-119 | The merged order of samples without ties takes, for every x, exactly the values up to x after some number of steps |
| ErrorRate.UndriftedIsValid | ml/drift.py:116-120 | A feature, with ties or without, whose samples are merged by an order that is equally likely to be any has a valid p-value up to alpha, on the exact branch and on the other as far as the series is nowhere below the exact value where it is at most alpha |
| ErrorRate.FalseDriftRate | ml/drift.py:61-64 | Over any finite set of equally likely outcomes some feature that has not drifted is reported in at most the share alpha of them, ties included and however the features depend on each other |
| DivisionRate.ReadingMerges | ml/drift.py:90-107 | Read in the ascending order of a column, a division of its windows merges the column's reference and comparison part |
| DivisionRate.DividedDriftRate | ml/drift.py:61-64 | Of all ways to divide any n + m windows into reference and comparison, whatever values, ties and dependences their features have, at most the share alpha makes the test report drift in any feature |
| Hysteresis.HysteresisCounter.Observe | detection/system_failure.py:150-174 | The method advances the counts only for a window later than every earlier one, flips the state at the limits and reports a clearing exactly when an active state ends |
| Hysteresis.LastWindowIsLatest | detection/system_failure.py:151-163 | After any run of calls a window is new exactly when it is later than all windows seen |
| Hysteresis.OnlyRecordsCount | detection/system_failure.py:126-174 | After any calls the counter's state is its state on the subsequence of strictly record-high windows: repeats and late windows are idempotent |
| Hysteresis.CountsAreRuns | detection/system_failure.py:164-174 | The breach count reaches n exactly when the last n observations breached, and likewise the clear count |
| Hysteresis.ActiveMeansUncleared | detection/system_failure.py:126-174 | The condition is active if and only if some run of N consecutive breaches ended and no run of M consecutive clear observations ended since |
| Hysteresis.ActivationsAreApart | detection/system_failure.py:126-174 | Two activations are at least N + M accepted windows apart |
| Hysteresis.FlipsEndRuns | detection/system_failure.py:164-174 | The state turns on only at the end of N consecutive breaches and off only at the end of M consecutive clear observations |
| SystemFailure.EasierBreaches | detection/system_failure.py:106-119 | A condition with an easier threshold, a further-out value and at least the same state breaches whenever the other does, although the active state selects the threshold |
| SystemFailure.Domination | detection/system_failure.py:106-174 | Over every run of samples the easier condition, or the same one on a pointwise further-out stream, is active whenever the harder one is |
| SystemFailure.DeadBandHolds | detection/system_failure.py:106-119 | A stream that stays inside the dead band never changes the active state and brings neither count closer to flipping it |
| SystemFailure.WatchIsFeedback | detection/system_failure.py:106-174 | A counter fed with values is a counter fed with breaches, where an active high condition is in breach from threshold * ratio on and an inactive one from the threshold on; low conditions downwards, with threshold / ratio |
| SystemFailure.ActiveIsKept | detection/system_failure.py:106-174 | An active condition stays active through any values at or beyond threshold * ratio (high) or threshold / ratio (low), in whatever windows |
| SystemFailure.ActiveIsCleared | detection/system_failure.py:106-174 | An active condition is cleared once as many new windows as configured have values short of that level |
| SystemFailure.InactiveIsKept | detection/system_failure.py:106-174 | An inactive condition stays so through any values that do not reach the threshold itself |
| SystemFailure.InactiveIsTriggered | detection/system_failure.py:106-174 | An inactive condition is triggered once as many new windows as configured reach the threshold |
| SystemFailure.HostState.ObserveReading | detection/system_failure.py:508-511 | A missing reading leaves the counter untouched; otherwise it is compared with the threshold its own state selects |
| SystemFailure.HostState.ScoreHost | detection/system_failure.py:475-606 | Scoring a reading takes all five counters to the specified next state and returns the specified findings |
| SystemFailure.HighImpliesMedium | detection/system_failure.py:524-569 | With medium < high and a clear ratio in (0, 1], in every reachable state high memory pressure is also medium memory pressure |
| SystemFailure.ConditionsFollowReadings | detection/system_failure.py:475-606 | After any run each of the five counters is in the state that the samples of its own metric, watched against its own setting, bring about |
| SystemFailure.FindingsAreActive | detection/system_failure.py:475-606 | A finding is reported if and only if its own condition is active, its own metric was read, it carries that breach count, and no high memory pressure stands in for a medium one |
| SystemFailure.MemoryReportedOnce | detection/system_failure.py:524-569 | After any run a memory finding is reported exactly when the medium condition is active, and never both of them |
| ServiceFailures.ServiceState.FailureCountInWindow | detection/system_failure.py:205-208 | Counting keeps exactly the unit's failures since the cutoff, in order, and touches no other unit |
| ServiceFailures.ServiceState.ScoreUnit | detection/system_failure.py:642-651 | All failures of the window are recorded, the list is pruned as of the latest, and the loop is judged by what is left |
| ServiceFailures.LatestIsMaximum | detection/system_failure.py:642-651 | A window is judged as of its latest failure: one of its times, and none is later |
| ServiceFailures.SinceKeeps | detection/system_failure.py:205-208 | Pruning at a cutoff keeps every time at or after it as often as it was listed, and nothing else |
| ServiceFailures.UnitsAreIndependent | detection/system_failure.py:196-208 | A unit's list depends only on its own reports |
| ServiceFailures.TrackedSurvive | detection/system_failure.py:202-208 | The list kept incrementally holds exactly the failures that every look taken since their recording admits |
| ServiceFailures.CountIsExactUnlessForgotten | detection/system_failure.py:205-208 | The reported count never exceeds the unit's recorded failures since the cutoff, and equals it if and only if no earlier look, taken at a later failure, removed one of them |
| ServiceFailures.CountIsExactInTimeOrder | detection/system_failure.py:642-651 | The count is exact whenever no earlier scored window of the unit ended on a later failure |
| ServiceFailures.LateWindowMissesFailures | detection/system_failure.py:642-651 | A concrete out-of-order window whose count misses failures that lie in the crash-loop window |
| LiveIngestion.Service.RecordDrop | pipeline/live_ingestion.py:497-513 | A drop is counted once as a drop and once as a wait, and the record enters the ledger of drops |
| LiveIngestion.Service.RecordKernelLoss | pipeline/live_ingestion.py:525-555 | A report with a readable positive count adds that count; any other report is one malformed record |
| LiveIngestion.Service.FlushPending | pipeline/live_ingestion.py:624-680 | A flush either quarantines the whole batch or commits all but the refused records, and sends exactly the committed ones on in order, with the counters to match |
| LiveIngestion.Service.MaybeAnalyse | pipeline/live_ingestion.py:682-686 | A batch below its size is kept; a full one is handed over whole and emptied |
| LiveIngestion.Service.QuarantineBatch | pipeline/live_ingestion.py:688-712 | A refused batch is counted once as a batch and by its length as events |
| LiveIngestion.FlushIsTwoSteps | pipeline/live_ingestion.py:645-680 | The two interleavable steps of a flush amount to the one that the method performs |
| Conservation.ProducerConserves | pipeline/live_ingestion.py:412-523 | Every step of the producer moves a record from one place to one other and creates one only by taking it from the source |
| Conservation.ConsumerConserves | pipeline/live_ingestion.py:579-718 | Every step of the consumer moves records without losing or doubling one |
| LiveIngestionRuns.EveryInterleaving | pipeline/live_ingestion.py:412-726 | In every state that any interleaving reaches: each record taken is in exactly one place once, counters equal ledger sizes, survivors are in order, queue, pending and batch are within bounds, and records only end where their content sends them |
| Conservation.ConsumerBounds | pipeline/live_ingestion.py:579-686 | The queue stays within its capacity, the transaction within the batch size and the analysis batch below twice the batch size, at every consumer step |
| Conservation.ConsumerControlled | pipeline/live_ingestion.py:580-618 | A consumer that leaves on the sentinel leaves an empty queue; one that leaves on an empty poll leaves only what was put since that poll |
| Conservation.ProducerClassifies | pipeline/live_ingestion.py:416-433 | Loss reports never enter the queue and are never dropped; only decoded telemetry is offered to it |
| Conservation.ConsumerOrders | pipeline/live_ingestion.py:579-680 | Normalizing, quarantining, refusing or committing never lets a record overtake another |
| LiveIngestionRuns.AccountsBalance | pipeline/live_ingestion.py:412-726 | At every step the number of records taken is the health counters plus loss reports, stop discards and abandoned records, plus what is in hand, queued, pending or being accounted; and drops never exceed counted waits |
| LiveIngestionEvents.StopEndsTaking | pipeline/live_ingestion.py:412-416 | Once a stop was requested, in any interleaving at most one more record is taken; it, and a record taken before with the flag unread, is discarded or still in hand, and is in no queue, batch or other ledger entry |
| LiveIngestionEvents.OnlyStopDiscards | pipeline/live_ingestion.py:415-416 | At most one record is ever discarded, only once a stop was requested, and it is the last one taken |
| LiveIngestionEvents.CountersAreEvents | pipeline/live_ingestion.py:497-718 | Waits, drops, duplicates, quarantined batches and events, abandoned records and failures each equal the number, or the sum, of the steps of the run that raise them |
| LiveIngestionEvents.KeptAreNotRejected | pipeline/live_ingestion.py:668-677 | What a committed batch keeps is exactly its records that were not refused |
| LiveIngestionEvents.AnalysisIsBatched | pipeline/live_ingestion.py:612-686 | A step hands the analysis the whole batch, when that is full or on the way out and not empty, or it hands over nothing |
| LiveIngestionRuns.OnlyPersistedIsAnalysed | pipeline/live_ingestion.py:624-686 | What the analysis received is a prefix of what was committed, each event once and in source order, and nothing committed is newer than anything still on its way |
| LiveIngestionRuns.NothingIsPutAfterDone | pipeline/live_ingestion.py:434-442 | Once the producer is marked done it takes and puts no record |
| LiveIngestionRuns.SentinelExitIsComplete | pipeline/live_ingestion.py:598-613 | On exit by sentinel nothing is left in the queue, every record taken is accounted for, and all that was committed was analysed |
| LiveIngestionRuns.EmptyExitResidue | pipeline/live_ingestion.py:584-588 | On exit by an empty poll the queue holds exactly what was put between the poll and the reading of the done flag, and the accounts balance if and only if that is nothing |
| LiveIngestionRuns.ResidueIsPossible | pipeline/live_ingestion.py:584-588 | A concrete interleaving that ends without failure, with every counter zero and the only record left in the queue |
| RestartPolicy.Policy.RecordFailure | pipeline/supervisor.py:145-167 | Recording resets the ladder after a healthy runtime, appends and trims the window, and returns the delay for the length of the streak |
| RestartPolicy.Policy.IsCrashLooping | pipeline/supervisor.py:169-171 | Looking trims the window and reports whether the threshold is reached |
| RestartPolicy.DelayLadder | pipeline/supervisor.py:162-167 | The delay is the initial one first, stays within [initial, maximum], never decreases along a streak and doubles until it is capped |
| RestartPolicy.WindowHoldsStreak | pipeline/supervisor.py:145-180 | With a monotone clock, however often it is looked at, the deque holds exactly the failures since and including the last one after a healthy runtime that lie in the window |
| RestartPolicy.LoopingMeansCrashLoop | pipeline/supervisor.py:169-180 | The policy reports a loop exactly when the threshold-th last failure of the streak lies in the window |
| Supervisor.SourceSupervisor.AfterAttempt | pipeline/supervisor.py:274-316 | After an attempt the source is stopped, degraded or backing off exactly as the stop flag, the failure and the policy decide, and the loop is left unless it backs off |
| Supervisor.HandshakeStep | pipeline/supervisor.py:232-244 | Each step of either thread keeps the handshake: under the flag a service about to run or running was told, or the stopper is about to tell it |
| Supervisor.RunIsLogged | pipeline/supervisor.py:257-293 | In every reachable state the recorded failures are those of the actions, each with the time of its decision minus the time of the check that began its attempt as its runtime; so are the stop flag, the number of services built and of those begun late |
| Supervisor.ClockIsMonotone | pipeline/supervisor.py:257-293 | Every time the runner reads is at least every time it read before, and the clock of a state is the latest of them |
| Supervisor.StopCallCompletes | pipeline/supervisor.py:232-244 | An undisturbed call of stop() sets the flag, tells the service registered by then if there is one, and leaves the next call free to begin |
| Supervisor.WaitWakesOnStop | pipeline/supervisor.py:314-318 | A waiting source can be woken if and only if a stop was requested, and waking ends the run stopped |
| Supervisor.RunnerIsNeverStuck | pipeline/supervisor.py:256-318 | In every state the runner has a step to take unless it has exited |
| Supervisor.AttemptOutcome | pipeline/supervisor.py:259-291 | An attempt ends as a recorded failure with that runtime exactly when it failed and no stop was requested, and otherwise the run ends stopped |
| Supervisor.ToldByACall | pipeline/supervisor.py:232-341 | A service counts as told only after one of the two calls of its stop method |
| Supervisor.NoServiceMissesTheStop | pipeline/supervisor.py:232-348 | In every interleaving, once stop() has returned a service that runs or is about to run was told to stop by one side or the other, and at most one service begins after the flag is set |
| Supervisor.StopEndsTheRun | pipeline/supervisor.py:256-318 | From the moment the flag is set the run takes at most eight further steps of its own, whatever the stopper does |
| Supervisor.DegradedIffCrashLoop | pipeline/supervisor.py:287-293 | The source is degraded if and only if, in the failures read off the actions, some look at the window found a crash loop of the current streak, and that look was the last: never before the threshold-th recent failure and on that failure |
| Supervisor.DegradedIsAbsorbing | pipeline/supervisor.py:291-293 | Once degraded, no step of either thread changes the report |
| Supervisor.WaitFollowsLadder | pipeline/supervisor.py:287-313 | While the source waits, its backoff is the ladder's delay for the length of the streak in the failures read off the actions, and within the configured bounds |
| Supervisor.NoDelayWhileRunning | pipeline/supervisor.py:260-267 | A source that is starting, running or degraded reports a backoff of zero |
| Supervisor.ExitStatus | pipeline/supervisor.py:257-318 | The step that ends a run leaves a terminal status if and only if it is not taken at the head of the loop; there the stop flag is set and the report stays at starting or backoff |
| Supervisor.UnstoppedRunsEndTerminal | pipeline/supervisor.py:257-318 | A run that no stop request reached ends stopped or degraded, and no run ends running |
| Supervisor.BackoffMayOutliveTheRun | pipeline/supervisor.py:257-316 | A concrete run that a stop ends just after a wait ran out, with the status still saying that a retry is due |
| EvidenceChain.AuthenticStep | storage/evidence_chain.py:203-224 | A chain stays authentic by one more row exactly when that row carries the link computed from its predecessor's hash and its position |
| EvidenceChain.AppendKeepsAuthentic | storage/evidence_chain.py:203-224 | The row next_link computes from the stored head extends an authentic chain to an authentic one |
| EvidenceChain.VerifyChain | storage/evidence_chain.py:227-274 | Verification accepts exactly the sequences the fold generates from genesis; otherwise it reports the longest authentic prefix and which of the three checks failed at the first row beyond it |
| EvidenceChain.TruncationUndetected | storage/evidence_chain.py:231-242 | Every prefix of an authentic chain is authentic: deleting the tail is not detectable from the rows alone |
| EvidenceChain.LinkTextInjective | storage/evidence_chain.py:194-200 | The newline-delimited text of a link determines its sequence number, its predecessor hash and its serialized content |
| Json.QuotedInjective | storage/evidence_chain.py:170-174 | The text of a quoted string, whatever follows it, determines the string: escapes, two-unit characters and the closing quotation mark are unambiguous |
| Json.ValueInjective | storage/evidence_chain.py:170-174 | The text of a stored value inside its pair determines the value: null, integers, reals and strings never read alike |
| Json.SerializeInjective | storage/evidence_chain.py:156-174 | The serialized array of pairs determines every name and every value |
| Json.QuotedReadsBack | storage/evidence_chain.py:170-174 | Read back by the rules for string literals in section 7 of RFC 8259, the quoted text of a string is that string: every short escape, code unit and pair of code units stands for its character |
| Json.DecimalReadsBack | storage/evidence_chain.py:170-174 | The decimal text of a number read back digit by digit is that number |
| Json.SerializeExample | storage/evidence_chain.py:170-174 | The text of two concrete pairs, with a negative integer and with a string that needs escapes |
| EvidenceChain.SameHeadCollision | storage/evidence_chain.py:190-224 | Two different histories with the same head hash exhibit two hashed texts, one from each, with the same digest |
| EvidenceChain.HeadCommits | storage/evidence_chain.py:190-224 | Unless a text of one chain collides with one of the other, they have the same head hash if and only if they have the same length and in every row the same stored value under each covered column, a missing one counting as null |
| EvidenceChain.TamperingIsCaught | storage/evidence_chain.py:231-242 | A nonempty sequence that keeps the last hash of an authentic chain but differs in length or in the stored value of any covered column of any row is rejected, unless it exhibits a collision of digests |
| EvidenceChain.ChangedValueIsCaught | storage/evidence_chain.py:227-274 | Storing another value under any one covered column of any one row makes verification fail, unless two of the texts collide |
| EvidenceChain.ColumnsAreFrozen | storage/evidence_chain.py:227-274 | A nonempty authentic chain verifies under a list of columns if and only if that is the list it was written with, unless the two texts of its first row collide, so appending a column breaks every existing chain |
| EvidenceChain.QuotingDigests | storage/evidence_chain.py:190-200 | What is asked of digests can be met, even without any collision: quoting a text is such a digest |
| EvidenceChain.AppendedColumnBreaksChain | storage/evidence_chain.py:227-274 | A concrete chain of one row that verifies under its column and no longer once a column is appended |
| Correlation.SameAnchorSameComponent | detection/detector.py:258-283 | Two windows have the same component minimum exactly when they belong to the same connected component of the touching relation |
| Correlation.GapSeparates | detection/detector.py:279-280 | A window that starts after everything before it ended separates components, strictly later in start |
| Correlation.RunIsConnected | detection/detector.py:274-283 | Every window of a run is connected to the first window of the run |
| Correlation.AssignRuns | detection/detector.py:272-283 | The sorted sweep over one entity gives each finding the id anchored at the earliest start in its connected component |
| Correlation.AssignCorrelation | detection/detector.py:258-283 | The same over a whole batch of entities, as a property of the set of findings and so of no order |
| Correlation.SharedIdMeansConnected | detection/detector.py:258-283 | Two findings share an id if and only if they are of one entity and their windows lie in one connected component |
| Fusion.FuseRules | detection/detector.py:142-147 | The running product over matched rules is their noisy-or |
| Fusion.NoisyOrBounds | detection/detector.py:142-147 | Noisy-or of scores in [0, 1] stays in [0, 1] and is at least every matched score |
| Fusion.NoisyOrCombines | detection/detector.py:142-147 | No rule gives 0, one rule its own score, and the value of s followed by t is that of s plus the share of that of t which s leaves |
| Fusion.NoisyOrCertain | detection/detector.py:142-147 | It is 1 exactly when some score is 1 |
| Fusion.NoisyOrPermutation | detection/detector.py:142-147 | It does not depend on the order of the rules |
| Fusion.FusedRiskRange | detection/detector.py:174-180 | For components in [0, 1] the fused risk lies in [0, 1] and the cap at 1 never takes effect |
| Fusion.RoundedFusionNearby | detection/detector.py:182-243 | Fusing the rounded components instead of the exact ones moves the risk by at most half a unit of the fourth decimal |
| Rounding.RoundsApart | explainability/explainer.py:131 | Moving a number by at most half a unit changes its rounding exactly when the move passes the midpoint on its nearer side, with ties going to even |
| Fusion.MakeFinding | detection/detector.py:171-243 | The finding stores every component and the fused risk rounded to four decimals, and the rule results as they are |
| Explainer.Calculate | explainability/explainer.py:117-160 | The recomputation succeeds exactly when the risk and the rule score reconcile, with the risk mismatch reported first |
| Explainer.DetectedNearlyReconciles | explainability/explainer.py:130-145 | For every finding the detector makes, the rule score reconciles and the recomputed risk is within 0.0001 of the stored one |
| Explainer.RefusedIffLossCrossesMidpoint | explainability/explainer.py:130-132 | The explainer refuses a finding of the detector's own if and only if the weighted rounding loss of the components carries the stored risk, taken as q and r/20 units, past the distance from r to 10, or breaks a tie the wrong way |
| Explainer.RefusedOnlyNearTie | explainability/explainer.py:121-132 | With behaviour, rule and context scores on the grid a finding is refused if and only if the stored risk is a tie that the loss of the model score breaks, or one twentieth from a tie with that loss exactly half a unit |
| Explainer.GridReconciles | explainability/explainer.py:117-145 | When all components are multiples of 0.0001 the finding always reconciles |
| Explainer.CatalogFindingsReconcile | detection/rules_catalog.yaml:26-84 | With the scores of the shipped rules, a behaviour score on the grid and no model score, every finding reconciles |
| Explainer.OwnFindingRefused | explainability/explainer.py:126-132 | A concrete unaltered finding of the detector, without a model and away from any tie, that the explainer refuses |
| Evaluation.WilsonIsLargerRoot | ml/evaluation.py:43-51 | For 0 <= k <= n and n > 0 the bound is the larger root of (k/n - u)^2 = (z^2/n) u (1 - u), is at least k/n and at most 1 |
| Evaluation.BoundWithinBudget | ml/evaluation.py:70-73 | The bound is within 5% exactly when k <= n/20 and (n/20 - k)^2 >= z^2 (19/400) n, and then the observed rate is within it too |
| Evaluation.NormalFprAcceptance | ml/evaluation.py:54-80 | The gate is eligible exactly when n >= 60 and that inequality holds; each reason is given exactly when its test fails, and a failed rate test implies a failed bound test |
| Evaluation.EligibilityMonotone | ml/evaluation.py:54-80 | Fewer false positives or more windows never lose eligibility |
| Evaluation.SmallestHoldouts | ml/evaluation.py:54-80 | Without false positives eligibility starts at 60 windows, with one false positive at 87 |
| Evaluation.SelectThreshold | ml/evaluation.py:247-256 | The downward scan returns a boundary within the budget whose flagged set contains that of every real threshold within the budget |
| Evaluation.BudgetAllows | ml/evaluation.py:247 | A number of flagged scores is within the floor of target * n exactly when its share of n is within the target |
| Evaluation.CalibrateThreshold | ml/evaluation.py:235-275 | A target outside (0, 1) and an empty holdout are errors; otherwise the share of flagged scores is within the target and is the reported one, every threshold whose share is within the target flags a subset, and nothing is flagged when no observed score fits |
| Evaluation.NothingFits | ml/evaluation.py:255-256 | When every observed score overruns the budget, no threshold within it flags anything |
| TreeShapes.WalkAcceptsTrees | ml/iforest.py:389-402 | The stack traversal visits every node exactly once if and only if the arrays encode a full binary tree rooted at 0 |
| TreeShapes.WalkFindsForest | ml/iforest.py:391-400 | A traversal that meets no node twice traces a forest with the stacked nodes as roots, in visiting order |
| TreeShapes.ChildDepths | ml/iforest.py:104-107 | A child's depth is its parent's plus one |
| TreeShapes.DepthBounds | ml/iforest.py:91-108 | Depths in a tree of k nodes stay within k of the root |
| IsolationForest.CoversSchemaMeaning | ml/iforest.py:370 | The sorted feature map equals the schema range exactly when the map is a permutation of it |
| IsolationForest.ValidateTree | ml/iforest.py:337-403 | Validation terminates on every input and accepts exactly the well-formed trees; a node reachable twice and the number of unreachable nodes are reported as the traversal finds them |
| IsolationForest.WellFormedMeaning | ml/iforest.py:337-403 | Well-formed says of the arrays alone: equal lengths, a feature map that holds every schema feature once, splits on existing features, sample counts that are not negative, and children that encode one full binary tree |
| IsolationForest.CheckReachable | ml/iforest.py:389-402 | The in-place marking of reached nodes finds exactly what the traversal specification says |
| IsolationForest.NodeDepths | ml/iforest.py:91-108 | On accepted trees the stack loop terminates and writes, for every node, root 1, child = parent + 1, within 1..n_nodes |
| IsolationForest.LeafCount | ml/iforest.py:396-402 | An accepted tree has one leaf more than it has internal nodes |
| IsolationForest.RouteDepth | ml/iforest.py:111-127 | Routing ends at a leaf after exactly depth - 1 comparisons of schema features |
| IsolationForest.ApplyTree | ml/iforest.py:111-127 | The batched descent terminates without leaving the arrays and takes every row to the leaf at the end of a path from the root that goes left at a node if and only if the row is at most the threshold there, and right otherwise |
| IsolationForest.OneLeaf | ml/iforest.py:111-127 | Only one leaf ends a path that follows the comparisons of a row |
| IsolationForest.RouteIsPath | ml/iforest.py:111-127 | The route of a row is such a path, from node 0 to its leaf |
| ForestScoring.BuildForest | ml/iforest.py:139-165 | An empty list of trees is an error; otherwise the forest keeps the trees and caches depth plus correction for every node |
| ForestScoring.TreePathLengths | ml/iforest.py:160-164 | The cached value at each node is its depth plus the correction for its sample count |
| ForestScoring.DecisionDepths | ml/iforest.py:202-205 | The batched accumulation gives every row the sum over the trees of path length at its leaf minus one |
| ForestScoring.SplitsAreDepth | ml/iforest.py:217-221 | The leaf of a row lies one deeper than the number of splits on its route |
| ForestScoring.DepthDecomposes | ml/iforest.py:217-227 | The scored depth sum is the number of splits plus the sum of the leaf corrections |
| ForestScoring.WalkTree | ml/iforest.py:262-276 | The scalar walk reaches the leaf the batched router reaches through the same permutation, and tallies exactly the features it tested |
| ForestScoring.RowFollows | ml/iforest.py:262-276 | In terms of the unpermuted row: the scalar route goes left at a node if and only if the value of the schema feature the node names is at most the threshold, ends at the leaf of the batched router, and the tallied features are those tested on it |
| ForestScoring.FollowsOnce | ml/iforest.py:262-276 | Only one leaf and one list of tested features have that property |
| ForestScoring.AttributeRow | ml/iforest.py:248-291 | For every row and forest the split counts are the tally of all tested schema features, the depths are those that were scored, and total splits plus the leaf correction equal them |
| ForestScoring.TallyTotal | ml/attribution.py:63-66 | The per-feature counts add up to the number of splits |
| ForestScoring.AttributionIsComplete | ml/attribution.py:63-91 | Summed over the forest the per-feature counts, the total splits and the sum of depth(leaf) - 1 are one number |
| AnomalyAttribution.RankingIsUnique | ml/attribution.py:74-81 | There is one ranking by descending count and then name, so the result does not depend on the order in which the counts were collected |
| AnomalyAttribution.AttributeAnomaly | ml/attribution.py:57-102 | A list of names of the wrong length is an error; otherwise the report holds the capped ranking of the tested features, their shares, the number of all tested features, the sum of the leaf corrections, and total splits plus that sum equal the scored depths |
| AnomalyAttribution.CapKeepsHeaviest | ml/attribution.py:74-89 | Every tested feature is shown unless the cap is reached, and then each shown one has more splits, or as many and a name that sorts before |
| AnomalyAttribution.ShownInOrder | ml/attribution.py:74-89 | Along the report the counts never grow, and equal counts stand in the order of names |
| AnomalyAttribution.CapHidesSplits | ml/attribution.py:82-98 | The shown counts add up to at most the total splits, and to all of them exactly when the cap hides no tested feature |
| AnomalyAttribution.SharesOfWhole | ml/attribution.py:82-89 | The shown shares add up to at most 1, and to 1 exactly when the cap hides no tested feature |

## Left out

- Floating point: rounding error, NaN, overflow, the float32 cast before routing, `log` in the average path length and the final power of two are not modelled; the path-length correction is an arbitrary function and the scaled row is the input of both routers.
- The asymptotic Kolmogorov series (`ml/drift.py:146-175`) is a parameter, so nothing is claimed about its accuracy; the out-of-range rate and the means in the assessment are left out.
- The provenance, attestation and fingerprint checks of `assess_drift` are one flag, and reasons are not listed.
- Evaluation.WilsonIsLargerRoot: takes the square root as a given exact nonnegative root, because Dafny has no root function.
- Evaluation.CalibrateThreshold: takes the next float below a number as a function that returns some smaller number, and starts from the scores rather than from scoring windows.
- IsolationForest.ValidateTree: missing keys, dtypes and non-finite thresholds do not occur in typed sequences of reals.
- AnomalyAttribution.AttributeAnomaly: shares and path lengths are not rounded to six decimals, the baseline path length is left out, and the cap is not negative.
- SHA-256 is a parameter whose digests are nonempty and hold no newline; its 64-digit form is not needed. Where collisions matter they are named, and none is assumed away in general.
- Json.SerializeInjective: a stored REAL is its decimal text, so the shortest-digits rendering itself is not modelled; BLOBs, which the source cannot serialize, do not occur, and NaN is stored as null.
- The truncated correlation hash is the pair it is computed from, so collisions are not modelled.
- ErrorRate.FalseDriftRate: speaks of finitely many equally likely outcomes. For samples beyond the exact branch it takes as a hypothesis what `ml/drift.py:154-159` measures of the series.
- Correlation.AssignCorrelation: requires distinct finding objects whose window does not end before it starts, as every window the analyzer produces.
- Suppressions, severities, finding texts, provenance hashes and counterfactuals of the detector and the explainer are left out.
- SystemFailure.HostState.ScoreHost: scores one reading; the grouping of events by host and window and the choice of the latest sample are left out, as are percentages above 100, which configuration rejects.
- ServiceFailures.ServiceState.ScoreUnit: takes the failures of one unit in one window; the grouping by unit is left out.
- LiveIngestion.Service.FlushPending: the store either commits all but the records it refused beforehand or raises with nothing written; SQLite itself is left out. Records are named by their position in the source, so comparison by identity is comparison of positions.
- LiveIngestionRuns.EveryInterleaving: a thread may raise only while it asks for, decodes or normalizes a record; health writes do not fail. An analysis pipeline is configured. The time a producer waited and the observed queue depth are not modelled.
- `LiveIngestionService.start` clears the stop flag after checking it; that start-up window is not modelled, and a run starts with the flag set or clear.
- Supervisor.NoServiceMissesTheStop: one caller of stop() at a time, as often as it likes; what a service does once told is not part of the supervisor.
- Supervisor.StopEndsTheRun: counts steps; that the factory and the service return is not modelled.
- RestartPolicy.DelayLadder: the exponent cap of 32 only bounds an intermediate value; the ladder doubles up to it.
- Absorbed health totals, reads of the window for a log line, wall-clock fields and the persistence of state rows are left out.
- Lifecycle and activation records, the API, dashboard, authentication, metrics, configuration parsing, narration, collectors and benchmarks are input and output or thin logic.
