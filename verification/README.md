# FaultWarden's control layer, modelled in Dafny

FaultWarden investigates incidents with a language model, telemetry queries and HTTP executors, and keeps
them in check with deterministic code.  This project models that code and proves what it guarantees.  Every
answer of the model, of a telemetry provider, of the executor, of the validator and of an operator is an
arbitrary value: the theorems quantify over an oracle that answers each step.

The parts, from the outside in:

- **Durable job queue** (`JobQueue`, `JobLeases`, `JobWorker`): rows, leases, retries with backoff, late
  finishing writes and background runs as interleaved events.
- **Alert deduplication** (`Alerts`, `AlertService`): firing and resolved webhooks against the incidents
  they open and clear.
- **Investigation** (`Investigation`, `InvestigationService`, `InvestigationTheorems`,
  `InvestigationCounts`, `InvestigationApprovals`, `BlockedApprovals`): counting history, running the graph, persisting what it
  decided, and resuming a paused approval, over whole histories of one incident.
- **Graph** (`Graph`, `GraphInvariants`, `GraphTheorems`, `Approval`): the state, the nodes as state
  transformers, the routing, and whole runs.  Its nodes are in `Causality`, `Hypotheses`, `Verification`,
  `Telemetry`, `Proposals`, `Policy` and `Ranking`, over the records in `Domain`.
- **Audit store** (`Audit`, `AuditService`): the action lifecycle, idempotent decisions, approvals, execution
  leases and unique results.
- **Memory search** (`Memory`): the cosine helper and the two search paths.
- **Keyed reset over a lossy network** (`DemoService`, `DemoExecutor`): the demo service's endpoint and the
  executor that retries it.

`Lists`, `Rounding`, `Sorting`, `Text` and `Wrappers` are shared.  Where the program updates objects or runs loops, the module
named after the service holds classes and methods proved against the functions of its value-level partner;
the theorems are about those functions.  Instants and durations are seconds as reals, scores are exact reals.

`dafny verify dfyconfig.toml` checks everything.

## What the model shows about the code

Properties that hold everywhere are in the table below.  These do not, and the table gives the exact
condition:

- **Crash recovery of jobs.**  A worker that dies on a job's last attempt, or a background run that dies,
  leaves the row RUNNING and no claim ever takes it: the query asks for an attempt left and for a lease
  (`JobQueue.ClaimableEventuallyIff`, `JobQueue.CrashedRowIsStranded`).  Runs from the empty table reach both
  (`JobQueue.CrashedAttemptsStrandJob`, `JobQueue.CrashedBackgroundRunStrandsJob`).
- **Finished jobs that change again.**  Neither `process_job` nor the background runner looks at who holds the
  claim.  A finished job keeps its status over a run exactly when the run contains no write that overturns it
  (`JobQueue.TerminalKeptIff`, `JobQueue.TerminalKeptOverRunIff`).  Three runs show the ways out: a stale
  failure (`JobQueue.StaleFinishRevivesCompletedJob`), a failure inside its lease after the background run
  scheduled with the same job (`JobQueue.BackgroundRunRevivesCompletedJob`), and a background success on a
  FAILED job (`JobQueue.BackgroundRunCompletesFailedJob`).  COMPLETED and FAILED are final when every finishing
  write lands inside its own lease and no background runner shares the table
  (`JobLeases.TerminalRowsAreFinal`).
- **Pauses that cannot be resumed.**  Every evaluated result is persisted, and the resume insists on a single
  awaiting row.  So a pause can be resumed exactly when nothing waited before it and exactly one of its
  proposals is above the threshold (`InvestigationApprovals.PauseResumableIff`).  What waits comes from paused
  runs and from runs that executed another proposal or were stopped by a limit
  (`InvestigationApprovals.RunAwaits`), and nothing ever clears it once a resume cannot
  (`InvestigationApprovals.BlockedForever`).  With the two fallback proposals the first run of an incident
  gets there, at threshold 0 by pausing and at the default threshold 1 by resolving the incident
  (`BlockedApprovals.NewIncidentCanBlock`).
- **Order of proposals.**  With everything rejected the first rejection is reported, so order shows
  (`Policy.OrderImmaterialIff`).
- **Revived incidents.**  A run sets its incident INVESTIGATING whatever its status.  Reviving a closed
  incident can leave an alert that no resolved webhook clears (`Alerts.RevivalKeepsInvIff`).
- **Cached replies.**  A repeated keyed reset is told what its first delivery set, also when the fault has
  been switched on since (`DemoService.ReplyTruthfulIff`).
- **The 0.76 bound.**  In exact arithmetic the relevance score at the edge of the time window rounds to 0.76,
  so it never decides for any threshold up to that (`Causality.ScoreNeverDecidesIff`).

Where the code and its own documentation differ the model follows the code: the promotion gate's docstring
says a change happened before onset, the code also admits the instant of onset; `PauseResumableIff` is about
the rows the code writes, not the single action the approval context names.

## Model

| member | source | states |
|---|---|---|
| JobQueue.AttemptsStayBounded | src/faultwarden/services/job_worker.py:55-92 | Over every interleaving of claims, clock ticks, late finishing writes and background runs, no job's attempt count exceeds its limit and a PENDING job still has an attempt left. |
| JobQueue.AttemptsCountClaims | src/faultwarden/services/job_worker.py:83-91 | Conservation: over any run a job's attempt counter moves by exactly the number of times it was claimed, whatever else touched the row. |
| JobQueue.ClaimsNeverExceedMaxAttempts | src/faultwarden/services/job_worker.py:55-69 | No schedule claims one job more often than the attempts it has left. |
| JobQueue.BudgetStep | src/faultwarden/services/job_worker.py:83-91 | The measure sum(max - attempts) drops by exactly one with a claim, grows by the limit with an enqueue and is moved by nothing else. |
| JobQueue.TotalClaimsBounded | src/faultwarden/services/job_worker.py:46-103 | Started on an empty table, a whole run performs at most as many claims as the limits of all jobs ever enqueued add up to. |
| JobQueue.StatusAfter | src/faultwarden/services/job_worker.py:83-185 | What every event makes of a row: which events leave it COMPLETED, FAILED or RUNNING, and that nothing else of it moves but by a claim or a scheduled retry. |
| JobQueue.WaitValues | src/faultwarden/services/job_worker.py:165-166 | The backoff is 2, 4 and 8 seconds after one, two and three attempts. |
| JobQueue.RetryClaimableIff | src/faultwarden/services/job_worker.py:164-168 | A failed row can be claimed at an instant exactly when an attempt is left and its backoff, one second doubled with each attempt, is over. |
| JobQueue.ReclaimableIff | src/faultwarden/services/job_worker.py:62-64 | A claimed row whose worker dies can be claimed again exactly after its lease, with an attempt left. |
| JobQueue.RetryWaits | src/faultwarden/services/job_worker.py:164-168 | Over every run, a job whose attempt failed is claimed again, by whatever worker, only when the clock has advanced by its backoff, unless another finishing write or a background run touches it before. |
| JobQueue.ClaimableEventuallyIff | src/faultwarden/services/job_worker.py:57-66 | A row is claimable at some instant exactly when it is PENDING, or RUNNING with a lease and an attempt left: lease recovery reaches no other crashed row. |
| JobQueue.CrashedRowIsStranded | src/faultwarden/services/job_worker.py:57-66 | A row left RUNNING on its last attempt, or RUNNING without a lease by a background run, stays exactly as it is, and is claimed by nobody, over every run in which no finishing write and no background run touches it. |
| JobQueue.CrashedAttemptsStrandJob | src/faultwarden/services/job_worker.py:57-91 | The gap is reached at every limit: a run from the empty table in which each claiming worker dies ends RUNNING with all attempts spent, and no untouched continuation claims the job again. |
| JobQueue.CrashedBackgroundRunStrandsJob | src/faultwarden/services/investigation_service.py:714-730 | It is reached with every attempt left, too: a background run takes a new job and dies, and no untouched continuation ever claims it. |
| JobQueue.TerminalKeptIff | src/faultwarden/services/job_worker.py:149-185 | Of all events the system allows, exactly three kinds make a finished job leave its status: a success on a FAILED one, a failure on a COMPLETED one or with an attempt left, a background run's success on a FAILED one; every other event leaves the whole row. |
| JobQueue.TerminalKeptOverRunIff | src/faultwarden/services/investigation_service.py:714-762 | Over every run a finished job keeps its status at every point exactly when the run contains no such event, judged by the row as it was at the start. |
| JobQueue.BackgroundRunRevivesCompletedJob | src/faultwarden/services/alert_service.py:156-170 | A concrete run without any late write: the background run scheduled with the job completes it, and the failure of the worker that claimed it, inside its lease, puts it back to PENDING. |
| JobQueue.BackgroundRunCompletesFailedJob | src/faultwarden/services/investigation_service.py:736-739 | A concrete run in which a FAILED job becomes COMPLETED. |
| JobQueue.StaleFinishRevivesCompletedJob | src/faultwarden/services/job_worker.py:149-185 | A concrete two-worker run in which a late failure puts a COMPLETED job back to PENDING. |
| JobLeases.StepKeepsInv | src/faultwarden/services/job_worker.py:83-92 | Under lease discipline every live lease is the one recorded on its RUNNING row, and the delays scheduled so far stay within 2^attempts - 2. |
| JobLeases.AtMostOneUnexpiredLease | src/faultwarden/services/job_worker.py:55-92 | When finishing writes land before their own lease ends, a job never has two workers with an unexpired lease. |
| JobLeases.TerminalRowsAreFinal | src/faultwarden/services/job_worker.py:149-185 | Under that discipline COMPLETED and FAILED rows never change again. |
| JobLeases.RetryDelayBounded | src/faultwarden/services/job_worker.py:164-168 | The retry delays of one job sum to at most 2^max_attempts - 2 seconds. |
| JobLeases.LedgerIsWaiting | src/faultwarden/services/job_worker.py:164-168 | The delays summed are the rows' own: a retried failure adds exactly the time from now to the instant the row is available again, and no other step adds anything. |
| JobLeases.DelayBoundIsTight | src/faultwarden/services/job_worker.py:164-176 | That bound is reached at every limit: some disciplined run fails every attempt in time, waits exactly 2^max_attempts - 2 seconds and ends FAILED. |
| JobLeases.DisciplinedRunsAreQueueRuns | src/faultwarden/services/job_worker.py:46-187 | Every disciplined run is a run of the general queue, so the bounds proved there carry over. |
| JobWorker.JobTable.ClaimNextJob | src/faultwarden/services/job_worker.py:46-103 | Returns nothing exactly when no row is eligible; otherwise claims an eligible row that has been available longest and changes that row only, as the queue's claim event. |
| JobWorker.JobTable.FinishJob | src/faultwarden/services/job_worker.py:149-187 | Performs the queue's finishing event on the row, whoever holds the claim by now, and records or clears the error; a failure with an attempt left makes the row PENDING and available after its backoff. |
| JobWorker.JobTable.BackgroundTake | src/faultwarden/services/investigation_service.py:714-730 | Sets a PENDING or RUNNING row RUNNING with neither lease nor attempt. |
| JobWorker.JobTable.RunOnce | src/faultwarden/services/job_worker.py:189-198 | Processes a job exactly when one was eligible; then one eligible row has been claimed and finished, all others are untouched and every bound still holds. |
| Audit.PerformKeepsValid | src/faultwarden/services/remediation_audit_service.py:102-420 | Every audit call, also one that raises, keeps the store consistent: a result row exists exactly for SUCCEEDED and FAILED actions with the matching success flag, executing actions hold a lease, executed Level-2 actions carry an approver, idempotency keys are unique. |
| Audit.CallsKeepValid | src/faultwarden/services/remediation_audit_service.py:102-420 | The same over every sequence of calls. |
| Audit.HistoryIsPath | src/faultwarden/services/remediation_audit_service.py:42-92 | Over every sequence of calls the statuses an action is given, the EXECUTING that recording a result writes on the way included, form a path in the transition table from its first to its last status. |
| Audit.TransitionIff | src/faultwarden/services/remediation_audit_service.py:42-92 | The lifecycle has eight moves and no other; staying put is always allowed. |
| Audit.AwaitingHistories | src/faultwarden/services/remediation_audit_service.py:42-92 | Over every sequence of calls an action awaiting approval goes through one of six histories, written out. |
| Audit.FiledIff | src/faultwarden/services/remediation_audit_service.py:146-256 | A decision is filed exactly when its proposal is known and neither its id nor its key is used; then it is one new row, in the status its kind starts in, with everything else unchanged. |
| Audit.ApprovalIff | src/faultwarden/services/remediation_audit_service.py:259-309 | An approval or rejection goes through exactly on an action awaiting it, and writes its status and operator only. |
| Audit.ClaimIff | src/faultwarden/services/remediation_audit_service.py:312-375 | A claim goes through exactly on an approved action and on one whose lease has run out. |
| Audit.ResultIff | src/faultwarden/services/remediation_audit_service.py:378-420 | A result is recorded exactly once, on an approved or executing action, and decides its final status. |
| Audit.ExecutesOnlyAfterApproval | src/faultwarden/services/remediation_audit_service.py:259-309 | An action awaiting approval is EXECUTING, SUCCEEDED or FAILED later only if some call in between approved it and went through on the store of that moment. |
| Audit.RejectedIsFinal | src/faultwarden/services/remediation_audit_service.py:42-63 | No sequence of calls moves an action out of REJECTED. |
| Audit.ClaimStep | src/faultwarden/services/remediation_audit_service.py:312-375 | A claim succeeds only without a recorded result and after the previous lease ran out, and leaves EXECUTING with the new lease. |
| Audit.ClaimsRespectLeases | src/faultwarden/services/remediation_audit_service.py:312-375 | Successive successful claims of an action are at least one lease apart, the first waits for a running lease, and none succeeds after a result. |
| Audit.ClaimsSpan | src/faultwarden/services/remediation_audit_service.py:312-375 | k successful claims with leases of at least L span at least (k - 1) L seconds. |
| AuditService.RemediationAction.TransitionTo | src/faultwarden/services/remediation_audit_service.py:66-92 | Moves the status when the table allows it or it is unchanged already, and otherwise reports an invalid transition and changes nothing. |
| AuditService.RemediationAction.ApplyResult | src/faultwarden/services/remediation_audit_service.py:384-394 | The statuses written, in order, are the specified ones: EXECUTING first on an APPROVED action, then SUCCEEDED or FAILED; the lease is dropped; an illegal result writes nothing. |
| AuditService.RemediationAuditService.PersistProposal | src/faultwarden/services/remediation_audit_service.py:102-143 | Adds the proposal to the table and nothing else. |
| AuditService.RemediationAuditService.CreateActionDecision | src/faultwarden/services/remediation_audit_service.py:146-256 | Refuses an unknown proposal; leaves a row that exists by id or idempotency key alone; otherwise files the decision in its initial status with all other rows unchanged. |
| AuditService.RemediationAuditService.FindByKey | src/faultwarden/services/remediation_audit_service.py:215-223 | Finds a row with the key exactly when the table has one. |
| AuditService.RemediationAuditService.RecordApprovalDecision | src/faultwarden/services/remediation_audit_service.py:259-309 | Only an awaiting action is moved, to APPROVED or REJECTED with the operator's name; every error leaves the store as it was. |
| AuditService.RemediationAuditService.ClaimActionForExecution | src/faultwarden/services/remediation_audit_service.py:312-375 | Refuses unknown, finished, unapproved and still-leased actions without changing anything; otherwise EXECUTING under the new lease. |
| AuditService.RemediationAuditService.RecordExecutionResult | src/faultwarden/services/remediation_audit_service.py:378-420 | Records the one result of an action and its final status together; an unknown action, an illegal transition or a second result leaves the store as it was. |
| Policy.DecisionIff | src/faultwarden/core/policy.py:195-296 | A proposal is executable exactly when remediation is enabled, its type is registered, its target is demo-service and its parameters fit; it runs without approval exactly when, besides, the threshold is at least 1 for a reset or 2 for a restart; the result names the proposal, and the action carries the id drawn for it and the key derived from it. |
| Policy.LimitsIff | src/faultwarden/graph/nodes/remediation_policy.py:31-67 | An executable choice passes the history limits unchanged exactly below both, the second only for automatic execution, and is otherwise rejected under the same proposal. |
| Policy.EvaluateAndRank | src/faultwarden/core/policy.py:336-396 | The evaluating loop and in-place sort return one result per proposal, in order, and the specified selection. |
| Policy.SelectionIsLeast | src/faultwarden/core/policy.py:371-388 | The choice is an executable result of one of the proposals and no executable result has a smaller (suitability, level, type, id). |
| Ranking.SelectionByCause | src/faultwarden/core/policy.py:300-388 | Among typed proposals the choice is a reset, if one is proposed, when nothing is known of the cause or the root cause or classification, in any casing, contains error-mode, pool, exhaust, fault, injection, parameter or debug; a restart, if one is proposed, for every other cause; and of its kind the one with the least id. |
| Ranking.RunChoosesByCause | src/faultwarden/graph/nodes/remediation_policy.py:124-142 | An eligible run with remediation enabled chooses by the same words; the choice stands exactly below the history limits and runs unasked exactly at its threshold. |
| Ranking.CauseTextIff | src/faultwarden/core/policy.py:313-326 | The joined, lower-cased text is empty or names a fault exactly when both parts are unknown or one of them names it. |
| Policy.KeyOrderTotal | src/faultwarden/core/policy.py:371-384 | The four-part ranking key is a total preorder. |
| Policy.SelectionIgnoresOrder | src/faultwarden/core/policy.py:336-396 | With distinct ids and something executable, any list with the same members selects the same result. |
| Policy.OrderImmaterialIff | src/faultwarden/core/policy.py:363-369 | The order of the proposals is immaterial exactly when something is executable or there is at most one proposal; with everything rejected the first rejection is reported. |
| Policy.AllRejectedOrderShows | src/faultwarden/core/policy.py:363-369 | With two or more proposals all rejected, some reordering changes the reported result. |
| Policy.AdviceIsIgnored | src/faultwarden/core/policy.py:195-206 | Neither a decision nor the choice depends on the model's proposed risk and approval advice. |
| Policy.RaisingThresholdOnlyAllows | src/faultwarden/core/policy.py:237-296 | Raising the auto-execute threshold only turns ApprovalRequired into Allowed, result by result, and selects the same proposal. |
| Causality.TemporalScoreDecays | src/faultwarden/graph/nodes/correlate.py:78-99 | The temporal score never rises with distance before onset and stays within [0.1, 1]. |
| Causality.TemporalCutoff | src/faultwarden/graph/nodes/correlate.py:78-99 | A score of at least 0.3 means exactly: between 5850 seconds before and the instant of onset. |
| Causality.TemporalCorners | src/faultwarden/graph/nodes/correlate.py:86-99 | The score's corners: 1.0 at onset, 0.9, 0.6 and 0.2 at five minutes, thirty minutes and two hours, 0.1 beyond, 0.2 for a minute after onset and then nothing. |
| Causality.TemporalStraight | src/faultwarden/graph/nodes/correlate.py:93-98 | Between corners it is a straight line. |
| Causality.SharesClusterIff | src/faultwarden/graph/nodes/correlate.py:127-137 | Sharing a cluster means a keyword of it among the change's words and one occurring in the evidence's summary, kind or source, in any casing. |
| Rounding.Round2Monotone | src/faultwarden/graph/nodes/correlate.py:206-219 | Two-decimal rounding, ties to even, is monotone. |
| Rounding.RoundsToNearest | src/faultwarden/graph/nodes/correlate.py:206 | Rounding takes the nearest integer, and halfway between two the even one. |
| Rounding.RoundsDecimals | src/faultwarden/services/memory_service.py:416 | Rounded to two or four decimals a number moves by at most half a unit of the last. |
| Causality.LinksExact | src/faultwarden/graph/nodes/correlate.py:124-139 | An evidence id is linked exactly when an evidence item of that id shares a symptom cluster with the change. |
| Causality.LinksDistinct | src/faultwarden/graph/nodes/correlate.py:136-137 | No evidence id is linked twice. |
| Causality.AssessSymptomMatch | src/faultwarden/graph/nodes/correlate.py:102-165 | The nested scan returns the linked ids, first occurrence first, and reports a match exactly when there is one. |
| Causality.ScoresInRange | src/faultwarden/graph/nodes/correlate.py:188-228 | Every stored temporal and relevance score lies in [0, 1]. |
| Causality.ScoreNeverDecidesIff | src/faultwarden/graph/nodes/correlate.py:193-211 | The relevance score clears the threshold on the whole time window exactly for thresholds up to 0.76. |
| Causality.CandidateIff | src/faultwarden/graph/nodes/correlate.py:205-211 | For thresholds up to 0.76 a change is a candidate exactly when its service matches, it shares a cluster with some evidence and it falls in the 5850 seconds up to onset. |
| Causality.CorrelationIs | src/faultwarden/graph/nodes/correlate.py:169-228 | At every threshold: relevance 0 for another service, 0.35 of the temporal score without shared symptoms, and 0.65 plus 0.35 of it, rounded, with them; candidate exactly with service, shared symptoms, time window and a relevance at the threshold. |
| Causality.CandidateChangesConcat | src/faultwarden/graph/nodes/correlate.py:279-289 | Candidates are collected change by change, in order. |
| Causality.CorrelateEvidence | src/faultwarden/graph/nodes/correlate.py:276-289 | The loop produces one correlation per change and the list of candidate changes, in order. |
| Causality.GateIff | src/faultwarden/core/causality.py:11-149 | On a correlation of the same run, with evidence only appended since, the ten tests amount to the candidate flag, the hypothesis naming the change and the change's service being its component. |
| Causality.GateRequirements | src/faultwarden/core/causality.py:38-140 | On any correlation the gate opens exactly when all ten requirements hold. |
| Causality.GateImpliesGenuine | src/faultwarden/core/causality.py:11-149 | At every threshold a change through the gate has the incident's service and the hypothesis's component, lies in the window and shares a symptom with current evidence. |
| Hypotheses.Sanitize | src/faultwarden/graph/nodes/hypothesize.py:136-176 | Whatever ids the model wrote, the resulting hypothesis refers only to current evidence, recent changes and retrieved incidents. |
| Hypotheses.MigrationComplete | src/faultwarden/graph/nodes/hypothesize.py:137-155 | A supporting id is kept exactly when it is evidence; a known incident or change id filed as evidence moves to its own list and is not lost. |
| Hypotheses.SanitizeIs | src/faultwarden/graph/nodes/hypothesize.py:136-176 | The built hypothesis in full, id by id: which supporting, refuting, incident and change ids it ends up with, and that everything else is the model's own. |
| Hypotheses.MentionsIff | src/faultwarden/graph/nodes/hypothesize.py:191-241 | The keywords of the two heuristics, by name. |
| Hypotheses.FallbackIs | src/faultwarden/graph/nodes/hypothesize.py:186-256 | The heuristic in full: which hypothesis, its confidence, its support, the change it blames and the incident it recalls. |
| Hypotheses.GenerateIs | src/faultwarden/graph/nodes/hypothesize.py:125-256 | A usable answer gives one hypothesis per suggestion, in order; otherwise there is the heuristic's alone. |
| Hypotheses.Mentioning | src/faultwarden/graph/nodes/hypothesize.py:191-198 | The fallback's support is exactly the evidence whose summary mentions a keyword. |
| Hypotheses.Fallback | src/faultwarden/graph/nodes/hypothesize.py:186-256 | The heuristic hypothesis, too, refers only to what exists. |
| Hypotheses.Generate | src/faultwarden/graph/nodes/hypothesize.py:125-256 | The result is never empty and every hypothesis in it is grounded. |
| Hypotheses.GenerateHypotheses | src/faultwarden/graph/nodes/hypothesize.py:125-256 | The node's loops compute exactly that result. |
| Verification.BestIsFirst | src/faultwarden/graph/nodes/verify.py:55 | The hypothesis verified is the first of the most confident: every earlier one is strictly less confident, no later one more. |
| Verification.PromotedIff | src/faultwarden/graph/nodes/verify.py:84-140 | A root cause is promoted exactly when the verdict (or the fallback on the candidate's own score) accepts the most confident hypothesis above the threshold and one of its supporting ids is current evidence; it carries exactly the confidence judged, the verdict's or its own; otherwise queries are asked for exactly while iterations remain. |
| Verification.PromotionIs | src/faultwarden/graph/nodes/verify.py:116-233 | What a promotion writes, in full: the hypothesis VERIFIED with its current support, a root cause telling the same with exactly the promoted causes, the other hypotheses as they were. |
| Verification.RefusalIs | src/faultwarden/graph/nodes/verify.py:235-260 | What a refusal writes: the judged confidence, INCONCLUSIVE at the last iteration and TESTING before, and the verdict's queries or the default one while iterations remain. |
| Verification.LastChangeIsLast | src/faultwarden/graph/nodes/verify.py:145 | On a repeated change id the last record counts. |
| Verification.LastCorrelationIsLast | src/faultwarden/graph/nodes/verify.py:146 | So it does for correlations. |
| Verification.PromoteCauses | src/faultwarden/graph/nodes/verify.py:148-172 | The promotion loop returns exactly the named recent changes that pass the gate, with the last record of a repeated id. |
| Verification.CausalIdsExact | src/faultwarden/graph/nodes/verify.py:142-172 | An id becomes causal exactly when the hypothesis names it, it is a recent change, that change is a candidate and its service is the verified component. |
| Proposals.Propose | src/faultwarden/graph/nodes/propose_remediation.py:70-129 | Proposals are never empty and every one satisfies the typed schema. |
| Proposals.ProposeRemediation | src/faultwarden/graph/nodes/propose_remediation.py:70-129 | The parsing loop and the fallback compute exactly that list. |
| Proposals.ParsedExactly | src/faultwarden/graph/nodes/propose_remediation.py:79-95 | Exactly the suggestions that parse survive, each under the id drawn for it. |
| Proposals.ParseIff | src/faultwarden/schemas/remediation.py:284-318 | A suggestion parses exactly when it names one of the two actions, gives no parameter but the service and no service but demo-service; the proposal keeps the action it names. |
| Proposals.FallbackIff | src/faultwarden/graph/nodes/propose_remediation.py:102-129 | The fallback pair, a reset and a restart, is proposed exactly when no suggestion parses. |
| Proposals.ProposalIdsDistinct | src/faultwarden/schemas/remediation.py:304-318 | With fresh ids the proposals' ids are distinct. |
| Proposals.TypedExecutableIff | src/faultwarden/core/policy.py:207-234 | A typed proposal is rejected by policy exactly when the master switch is off. |
| Telemetry.CollectAdditionalTelemetry | src/faultwarden/graph/nodes/collect_additional.py:43-121 | The loop returns the evidence of the first three queries in order and makes at most three provider calls. |
| Telemetry.CollectedIs | src/faultwarden/graph/nodes/collect_additional.py:46-49 | Exactly the first three queries are asked, and all of them when there are fewer. |
| Telemetry.FromQueryIs | src/faultwarden/graph/nodes/collect_additional.py:51-121 | A query whose first non-blank character is a brace adds its sample, any other its series or a note that there were none; a failing one adds nothing. |
| Telemetry.BlankIsSkipped | src/faultwarden/graph/nodes/collect_additional.py:47-49 | A blank query adds nothing. |
| Graph.StepDecreases | src/faultwarden/graph/builder.py:113-161 | Every node and edge decreases a natural-number measure, for every answer of the outside world. |
| Graph.TraceIsTheRun | src/faultwarden/graph/builder.py:90-163 | A sequence of points is the trace exactly when it starts at the given point, each next point is what node and edge make of the one before with the answer of its turn, and it stops at its last point only; so every run is finite and unique. |
| Graph.ReasonIff | src/faultwarden/core/policy.py:124-191 | When the eligibility gate gives which of its answers, on any input. |
| GraphInvariants.StepKeepsInv | src/faultwarden/graph/builder.py:90-163 | Every node keeps the joint invariant (references resolve, loop bounded, root causes substantiated, remediation gated) and only appends evidence. |
| GraphInvariants.ResumeKeepsInv | src/faultwarden/graph/nodes/remediation_approval.py:28-117 | An operator's decision on a paused thread keeps it, whatever the decision. |
| GraphInvariants.PolicyDecides | src/faultwarden/graph/nodes/remediation_policy.py:71-160 | The policy node's verdict: one of three eligibility reasons, nothing decided when ineligible, an executable choice is one of the evaluated results and within both history limits. |
| GraphInvariants.EligibilityReasons | src/faultwarden/core/policy.py:124-191 | For a substantiated or exhausted investigation the gate answers ELIGIBLE exactly when there is a root cause above the remediation threshold and INVESTIGATION_EXHAUSTED exactly without one. |
| GraphTheorems.EvidenceIsAppendOnly | src/faultwarden/graph/state.py:62-66 | At any two points of a run the earlier evidence is a prefix of the later. |
| GraphTheorems.GatheredBeforeHypotheses | src/faultwarden/graph/builder.py:113-121 | When hypotheses are first formed the state holds exactly what the first six nodes were told: the classification, all evidence of alert, metrics and logs in order, similar incidents, changes and their correlations. |
| GraphTheorems.RoundIs | src/faultwarden/graph/nodes/collect_additional.py:123-128 | One more round adds what the missing queries return, counts the iteration and forms the hypotheses anew from all the evidence. |
| GraphTheorems.VerdictDecides | src/faultwarden/graph/nodes/verify.py:84-140 | In every run the answer at the last visit to verification decides eligibility: eligible exactly when the leading hypothesis was accepted there, with a confidence at both thresholds and support in the evidence of that point. |
| GraphTheorems.HypothesesAlwaysGrounded | src/faultwarden/graph/nodes/hypothesize.py:132-176 | At every point of every run each hypothesis refers only to evidence, changes and incidents in that state. |
| GraphTheorems.RunsAreBounded | src/faultwarden/graph/builder.py:40-60 | Every run reaches END or the approval pause within 13 + 3 (max - 1) nodes and collects more telemetry at most max(0, max_iterations - 1) times. |
| GraphTheorems.LoopExits | src/faultwarden/graph/nodes/verify.py:235-260 | Proposals are made only with a root cause or the iterations spent, and verification goes on to collect telemetry exactly in the other case; the exit for missing queries never decides. |
| GraphTheorems.RunOutcomeIff | src/faultwarden/graph/builder.py:63-86 | A run executes exactly when its final choice is Allowed, pauses exactly when it needs approval, and otherwise ends without executing. |
| GraphTheorems.PolicyChoosesLeast | src/faultwarden/graph/nodes/remediation_policy.py:124-142 | An executable verdict of the policy node is the best-ranked executable result of all it evaluated. |
| GraphTheorems.ProposalsComeFromAnswer | src/faultwarden/graph/nodes/propose_remediation.py:70-140 | A run's final proposals are what the proposal node, visited on the way, made of the answer it got there. |
| GraphTheorems.RoutingErrorsUnreachable | src/faultwarden/graph/nodes/remediation_execution.py:32-93 | None of the routing-invariant exceptions is raised in any run or resume. |
| GraphTheorems.OnlyThreeEligibilityReasons | src/faultwarden/core/policy.py:139-191 | Only ELIGIBLE, INSUFFICIENT_CONFIDENCE and INVESTIGATION_EXHAUSTED ever come out of the gate. |
| GraphTheorems.CausalChangesAreGenuine | src/faultwarden/graph/nodes/verify.py:142-172 | Whatever the model returns, every causal id of a root cause names a recent change of the incident's service and of the verified component, made in the 5850 seconds up to onset, sharing a cluster with current evidence. |
| GraphTheorems.ExecutorCalls | src/faultwarden/graph/nodes/remediation_execution.py:25-67 | A run calls the executor at most once, and its final state says whether it did. |
| GraphTheorems.ValidationPassedIff | src/faultwarden/graph/nodes/remediation_execution.py:71-140 | A run ends with a passed validation exactly when the executor succeeded and the validator said yes right after. |
| GraphTheorems.ResumeEnds | src/faultwarden/graph/builder.py:79-86 | A resumed thread always reaches END; APPROVE calls the executor once, REJECT and CANCEL not at all; the final state is given in full. |
| Approval.ParsesIff | src/faultwarden/graph/nodes/remediation_approval.py:92-117 | A resume value approves (or cancels) exactly when it carries that word, in any casing, as text or as the mapping's decision; everything else rejects. |
| Approval.DecisionRoundTrip | src/faultwarden/services/investigation_service.py:514-521 | The mapping the service resumes with is read back as the decision it was made from. |
| Investigation.DecisionsReplay | src/faultwarden/services/remediation_audit_service.py:210-223 | Filing decisions whose rows exist changes nothing. |
| Investigation.FreshDecisionsFiled | src/faultwarden/services/remediation_audit_service.py:146-256 | Fresh executable results get exactly one row each, in their initial status. |
| Investigation.FailureRollsBack | src/faultwarden/services/investigation_service.py:413-447 | A run that fails to persist leaves the tables as they were, counts what it executed, and can be resumed by no decision. |
| InvestigationService.IncidentService.CountPriorRemediations | src/faultwarden/services/investigation_service.py:178-186 | Counts all action rows and those decided ALLOWED. |
| InvestigationService.IncidentService.PersistProposals | src/faultwarden/services/investigation_service.py:201-206 | Adds exactly the missing proposals. |
| InvestigationService.IncidentService.PersistDecisions | src/faultwarden/services/investigation_service.py:208-213 | Files one decision per evaluated result, stopping at the first error. |
| InvestigationService.IncidentService.PersistRemediation | src/faultwarden/services/investigation_service.py:188-227 | Proposals, then decisions, then the executor's result of the chosen action. |
| InvestigationService.IncidentService.RunInvestigation | src/faultwarden/services/investigation_service.py:243-447 | The whole new state of the incident after a run is the specified one: store, status, paused thread, executor counts; when persisting fails, the store is rolled back and the status is FAILED. |
| AuditService.RemediationAuditService.Restore | src/faultwarden/services/investigation_service.py:419-420 | A rollback leaves exactly the earlier state of the tables, in row objects loaded anew. |
| InvestigationService.IncidentService.ResumeApproval | src/faultwarden/services/investigation_service.py:450-631 | The same for a resume: a refusal leaves the incident as it was, and a failure to persist rolls everything back but the executor's calls. |
| InvestigationTheorems.RunPersisted | src/faultwarden/services/investigation_service.py:188-227 | Persisting a run never fails, keeps every earlier row, and leaves the chosen action's row with the executor's verdict, or in its initial status when nothing ran. |
| InvestigationTheorems.RunKeepsInv | src/faultwarden/services/investigation_service.py:243-411 | Every run persists and keeps executions plus a pending approval within the row count and the attempt limit, and auto-executions within the ALLOWED rows and their limit. |
| InvestigationTheorems.ResumeKeepsInv | src/faultwarden/services/investigation_service.py:450-602 | Every resume keeps the same bounds. |
| InvestigationTheorems.ExecutionsWithinLimits | src/faultwarden/graph/nodes/remediation_policy.py:31-67 | Over every sequence of runs and operator decisions on one incident the executor is called at most max_remediation_attempts times, and at most max_auto_remediations times without approval, counting a pending approval as a call. |
| InvestigationTheorems.RunCounts | src/faultwarden/services/investigation_service.py:130-176 | A run ends AWAITING_APPROVAL, RESOLVED or REMEDIATION_PROPOSED, never FAILED or ROOT_CAUSE_IDENTIFIED, pauses exactly when the graph does, and its executions all count as automatic. |
| InvestigationCounts.CountsFiledRow | src/faultwarden/services/investigation_service.py:183-186 | Filing a new row raises the attempt count by one, and the automatic count by one exactly when its decision is ALLOWED. |
| InvestigationCounts.CountsKept | src/faultwarden/services/investigation_service.py:183-186 | Changing rows' statuses moves neither count. |
| InvestigationCounts.RejectionsFiled | src/faultwarden/services/investigation_service.py:208-213 | Every rejection gets a row of its own, and none counts as automatic. |
| InvestigationCounts.RunCountsRows | src/faultwarden/services/investigation_service.py:178-213 | A run raises the attempt count by one for each of its proposals and the automatic count by one for each that runs unasked, when it is eligible, and otherwise by nothing; with remediation disabled it files rejections only. |
| InvestigationCounts.ResumeKeepsCounts | src/faultwarden/services/investigation_service.py:491-602 | A resume moves neither count. |
| InvestigationCounts.HistoryCounts | src/faultwarden/services/investigation_service.py:178-186 | Over every history the two counts are what its eligible runs proposed, and proposed unasked. |
| InvestigationCounts.AutomaticExecutionIff | src/faultwarden/graph/nodes/remediation_policy.py:31-67 | After any history of a new incident, the next run executes exactly when it is eligible, its proposals lead to an action that runs unasked, and the history's runs proposed fewer actions than the attempt limit and fewer unasked ones than the automatic limit. |
| InvestigationTheorems.RunAgrees | src/faultwarden/services/investigation_service.py:188-227 | After a run the executed action's row is SUCCEEDED exactly when the executor succeeded, with that one result; a paused action's row waits without a result. |
| InvestigationTheorems.RunResolvesIff | src/faultwarden/services/investigation_service.py:144-156 | A run resolves its incident exactly when, somewhere in it, the executor succeeded and the validator then confirmed recovery. |
| InvestigationTheorems.RunResolvedOnlyIf | src/faultwarden/services/investigation_service.py:130-176 | RESOLVED by a run means: a VERIFIED hypothesis with support in current evidence, a root cause above both thresholds with genuine causes only, an Allowed action within the limits, executed and validated. |
| InvestigationTheorems.ResumeAgrees | src/faultwarden/services/investigation_service.py:491-602 | What a resume does in full: the decision and result on the one awaiting row, the executor count, the status. |
| InvestigationTheorems.ResumeResolvedOnlyIf | src/faultwarden/services/investigation_service.py:491-602 | RESOLVED by a resume means the paused run was justified in the same way, the operator approved in time, the executor succeeded, the validator confirmed, and the row is SUCCEEDED. |
| InvestigationTheorems.RefusalNeverExecutes | src/faultwarden/services/investigation_service.py:491-602 | REJECT and CANCEL leave the row REJECTED without result or executor call, and the replayed decisions add no row. |
| InvestigationTheorems.ResumeSucceedsIff | src/faultwarden/services/investigation_service.py:464-497 | A resume goes through exactly when the incident awaits approval, one action waits and the approval is not stale; nothing after those guards can fail. |
| InvestigationTheorems.RefusalChangesNothing | src/faultwarden/services/investigation_service.py:464-497 | A resume that does not go through was refused by one of its guards and changed nothing. |
| InvestigationApprovals.RunAwaits | src/faultwarden/services/investigation_service.py:208-213 | Every run, wherever it ends, leaves waiting for approval what waited before and, besides, one new action for each of its proposals whose registry level exceeds the threshold, also when it executed another or was stopped by a limit; nothing if it was ineligible or remediation is disabled. |
| InvestigationApprovals.ResumeAwaits | src/faultwarden/services/investigation_service.py:491-602 | A successful resume leaves nothing waiting. |
| InvestigationApprovals.PauseResumableIff | src/faultwarden/services/investigation_service.py:474-485 | A paused run can be resumed in time, whatever the decision, exactly when nothing waited before it and exactly one of its proposals is above the auto-execute threshold. |
| InvestigationApprovals.BlockedForever | src/faultwarden/services/investigation_service.py:474-485 | Once something waits that no resume can reach (the incident is not paused, or two actions wait), no decision on the incident goes through after any further history of runs and decisions. |
| BlockedApprovals.FallbackPauseBlocks | src/faultwarden/graph/nodes/propose_remediation.py:102-129 | With automatic execution off and no usable proposals from the model, a run pauses with two waiting actions and no decision ever goes through. |
| BlockedApprovals.AutomaticRunBlocks | src/faultwarden/services/investigation_service.py:208-213 | At the default threshold the same run resolves the incident by itself, leaves the restart waiting, and so blocks every later pause. |
| BlockedApprovals.NewIncidentCanBlock | src/faultwarden/services/investigation_service.py:474-485 | Both are reached by the first run of a new incident: the first in every configuration with a threshold below 1, the second in every one at threshold 1, with remediation enabled, confidence thresholds of at most 1 and limits of at least one. |
| Memory.CauchySchwarz | src/faultwarden/services/memory_service.py:61-70 | (sum a*b)^2 <= (sum a^2)(sum b^2) for all real vectors of equal length. |
| Memory.CosineBounded | src/faultwarden/services/memory_service.py:61-70 | The helper's result lies in [-1, 1] for all vectors, the empty, unequal and zero ones included. |
| Memory.DotSnoc | src/faultwarden/services/memory_service.py:65 | The dot product is the sum of the componentwise products. |
| Memory.CosineIs | src/faultwarden/services/memory_service.py:66-70 | The similarity times both norms is the dot product; without a norm it is zero. |
| Memory.SelfSimilarity | src/faultwarden/services/memory_service.py:61-70 | A non-zero vector has similarity exactly 1 with itself. |
| Memory.SearchDatabase | src/faultwarden/services/memory_service.py:391-437 | The loop over the database's rows keeps the passing ones in order until k are found. |
| Memory.SearchInMemory | src/faultwarden/services/memory_service.py:438-475 | The fallback loop, sort and cut compute filter-all, sort-descending, take-k. |
| Memory.SearchIs | src/faultwarden/services/memory_service.py:438-475 | A search returns only records that meet every criterion set, have an embedding and reach the threshold, most similar first and at most k; for every such record it leaves out it returns k others at least as similar. |
| Memory.PickSorted | src/faultwarden/services/memory_service.py:412-437 | On rows sorted by distance, looking at 2k rows finds the same first k passing rows as looking at all. |
| Memory.SearchPathsAgree | src/faultwarden/services/memory_service.py:391-475 | With embeddings present and distinct similarities among the rows that pass filter and threshold, both paths return the same list. |
| Memory.SearchPathsSameScores | src/faultwarden/services/memory_service.py:391-475 | With ties, in whatever order the database breaks them, both return the same similarities in the same order. |
| Memory.ResultSimilarityInRange | src/faultwarden/services/memory_service.py:446-461 | With a non-negative threshold every returned, rounded similarity lies in [0, 1]. |
| Alerts.RunKeepsInv | src/faultwarden/services/alert_service.py:91-247 | Over every stream of webhooks and status writes that revive no closed incident, an active incident whose alert fires has no younger active sibling. |
| Alerts.FiringIsUniqueAndNewest | src/faultwarden/services/incident_service.py:82-115 | Hence a fingerprint has at most one firing active incident, and both lookups return it. |
| Alerts.BoardIsAlarm | src/faultwarden/services/alert_service.py:91-247 | The board behaves as one on/off alarm per fingerprint: firing sets it, a resolved webhook always clears it, closing its incident clears it, nothing else moves it. |
| Alerts.OpensIff | src/faultwarden/services/alert_service.py:107-146 | A firing webhook opens an incident exactly when the alarm is off, and is absorbed without change otherwise. |
| Alerts.WebhookOpens | src/faultwarden/services/alert_service.py:107-234 | A firing webhook opens at most one incident, DETECTED and firing; a resolved one changes no status and adds, exactly when nothing active matches, one RESOLVED record. |
| Alerts.StepJobs | src/faultwarden/services/alert_service.py:156-165 | A job is written exactly with an incident a firing webhook opens, and only when the webhook asks for investigation. |
| Alerts.OneJobPerOpenedIncident | src/faultwarden/services/alert_service.py:156-165 | With auto-investigation on, the jobs written over a run are exactly one for each incident opened by a firing webhook, in order. |
| Alerts.RevivalKeepsInvIff | src/faultwarden/services/investigation_service.py:300-307 | Reviving a closed incident keeps the invariant exactly when no older sibling fires and, if it fires itself, no younger one is active. |
| Alerts.RevivalLeavesAlarmOn | src/faultwarden/services/investigation_service.py:300-307 | A run from the empty board (fires, closed, fires again) after which reviving the closed incident makes the next resolved webhook leave the alarm on. |
| AlertService.AlertService.FindByFingerprint | src/faultwarden/services/incident_service.py:82-115 | Returns the newest incident the query's conditions admit, or nothing when there is none. |
| AlertService.AlertService.HandleFiring | src/faultwarden/services/alert_service.py:91-182 | Performs the firing step on the board, reports created or updated truthfully, and returns an active firing incident with the new summary. |
| AlertService.AlertService.HandleResolved | src/faultwarden/services/alert_service.py:184-247 | Performs the clearing step; an unmatched notification is filed as an already RESOLVED incident. |
| DemoService.ReplayIgnoresRepeats | demo_service/app/main.py:216-247 | For every request log the server ends in the state of the log with repeats of each key removed. |
| DemoService.DedupUsesKeysOnce | demo_service/app/main.py:221-228 | That reduced log uses each key once and no key used before it. |
| DemoService.ModeIsLastEffective | demo_service/app/main.py:230 | The error mode is what the last request in the reduced log asked for. |
| DemoService.LaterRepliesRepeatFirst | demo_service/app/main.py:221-228 | After the first use of a key every later request under it changes nothing and is told what the first one set. |
| DemoService.CacheHoldsFirstUse | demo_service/app/main.py:243-245 | A key is cached exactly when some request used it, with the value of the first. |
| DemoService.ReplyTruthfulIff | demo_service/app/main.py:221-241 | A reply tells the mode it leaves behind unless it is a cached one gone stale. |
| DemoService.StaleReplyExists | demo_service/app/main.py:221-228 | Such a reply is reachable: a repeated reset can be told false while the fault is on again. |
| DemoService.RetriedPostTakesEffectOnce | src/faultwarden/integrations/executors/demo_service.py:41-70 | Whatever the network does and whoever else writes, a keyed POST is sent at most three times and counts at most once, not at all if its key was used before; the final mode follows. |
| DemoService.TriesIff | src/faultwarden/integrations/executors/demo_service.py:41-70 | The first of three attempts that is not dropped decides what the client sees; the retries are exhausted exactly when all three are. |
| DemoService.ResetTakesEffect | src/faultwarden/integrations/executors/demo_service.py:169-173 | Without interference, a reset under a fresh key that reaches the server in some attempt leaves the mode off and the key remembered as off, however often it is repeated. |
| DemoService.ExecutorOnlyResets | src/faultwarden/integrations/executors/demo_service.py:169-173 | Whatever the network does, no execution adds a request under its key that would switch the fault on. |
| DemoService.UndisturbedExecution | src/faultwarden/integrations/executors/demo_service.py:93-239 | One execution with a fresh key and no other clients, told by what the network does: the inspection tells the mode and changes nothing, the reset takes effect when it arrives, and is confirmed when the first attempt is answered. |
| DemoService.ConfirmedResetWasApplied | src/faultwarden/integrations/executors/demo_service.py:166-239 | If no intermediary answers in the server's place, a confirmed keyed reset means the first request under its key turned the fault off. |
| DemoExecutor.DemoServer.SetErrorMode | demo_service/app/main.py:216-247 | Repeated key: state unchanged, cached reply; otherwise the mode is set and the key remembered. |
| DemoExecutor.DemoServiceExecutor.RequestWithRetry | src/faultwarden/integrations/executors/demo_service.py:41-70 | The loop makes between one and three attempts, as many as specified, retries only connection errors and timeouts, and leaves the server as the attempts that reached it do. |
| DemoExecutor.DemoServiceExecutor.ResetFailureMode | src/faultwarden/integrations/executors/demo_service.py:93-239 | SUCCEEDED exactly when the inspection answered 200 with a mode and the POST 200 with a full reply of false; TIMED_OUT exactly when retries ran out; success flag exactly with SUCCEEDED; the POST is sent only after a good inspection.  Undisturbed and with a fresh key: once a POST arrives the fault is off and the key remembered as off, and with both first attempts answered the report is SUCCEEDED. |
| DemoExecutor.DemoServiceExecutor.CheckRecovered | src/faultwarden/integrations/executors/demo_service.py:72-91 | Recovered exactly when the GET answered 200 with mode false. |

## Left out

- RunInvestigation: an exception inside the graph itself (which rolls back and writes FAILED, with a summary)
  is not modelled, only one while persisting; the run theorems are for serial operations on one incident, and
  concurrent runs or resumes of the same incident are not covered.
- ResumeApproval: after a failure to persist, the checkpointed thread has already moved on while the incident
  still awaits approval; the model keeps the thread as it was.  The history theorems show the case does not
  arise.
- FreshIds: that random ids do not repeat is an assumption of the history theorems.
- Persist: the executor is taken to report under the id of the action it was given; validation rows
  and timestamps other than leases are not modelled.
- Correlate: real arithmetic instead of floating point; the symptom clusters are a parameter, so the theorems
  hold for every table, and splitting a change's text into tokens is taken as done; the causal category and
  the explanation are left out.
- Lower: case folding is ASCII only.
- Generate: a hypothesis whose fields violate their schema raises in the middle of the loop; the model treats
  the whole answer as failed or as well formed.
- Cosine: the two square roots are parameters constrained by `IsNorm`, since reals have no `sqrt` here.
- SearchPathsAgree: rows without an embedding and zero vectors, for which pgvector's distance is undefined,
  are excluded; so is a query of another dimension.
- HandleFiring: incidents opened by hand through the API, with any fingerprint, are not part of the stream.
- ResetFailureMode: the `error_mode` of a reply is a JSON boolean; summaries and error texts are left out.
- TypedExecutableIff: the target and parameter checks of `evaluate_policy` cannot fail on typed proposals; on
  untyped ones they are modelled by two fields of the proposal.
- Trace: LangGraph, its checkpointer and its node errors list; only node order, reducers, pause and resume of
  one thread are modelled.
- Classification, metric, log, memory and change collection nodes: their outputs are arbitrary answers.
- Prompts, summaries, reasons, titles, severities, logging, metrics, settings loading, HTTP routes, migrations
  and ORM mechanics: plumbing.
- The registered-service executor, `RecoveryValidator`, postmortems, memory indexing and secret redaction:
  shallow, single-branch code.
- Unique constraints of the database other than action results and idempotency keys, and races between two
  sessions inserting the same key.
- `run_loop` and its stop flag.
