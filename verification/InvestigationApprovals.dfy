/** Operator approvals over whole histories of one incident: what runs leave waiting, when a pause can be
    resumed, and when no decision ever goes through again. */
module InvestigationApprovals {
  import opened Wrappers
  import opened Policy
  import opened Proposals
  import opened Graph
  import opened GraphInvariants
  import opened GraphTheorems
  import opened Audit
  import opened Investigation
  import opened InvestigationTheorems
  import opened Lists

  // ----- What waits for the operator -----

  function ApprovalIds(rs: seq<PolicyResult>): set<string> {
    set r | r in rs && r.ApprovalRequired? :: r.action.id
  }

  /** The registry puts the proposal's action above the auto-execute threshold. */
  predicate AboveThreshold(s: Settings, p: Proposal) {
    Registry(p.actionType).Some? && Registry(p.actionType).value.level > s.autoExecuteMax
  }

  function WaitingIds(s: Settings, ps: seq<Proposal>, actionIds: string -> string): set<string> {
    set p | p in ps && AboveThreshold(s, p) :: actionIds(p.id)
  }

  /** The actions a run adds to those waiting: one for each of its proposals above the threshold, provided
      remediation is enabled and the run's root cause is eligible. */
  function NewlyWaiting(cfg: Config, ctx: Context, s: State): set<string> {
    if s.eligibility == Some(Eligible) && cfg.policy.enabled then WaitingIds(cfg.policy, s.proposals, ctx.actionIds) else {}
  }

  lemma ApprovalsAreAboveThreshold(cfg: Config, ctx: Context, ps: seq<Proposal>)
    requires cfg.policy.enabled && forall p | p in ps :: WellTyped(p)
    ensures ApprovalIds(EvaluateAll(ps, cfg.policy, ctx.actionIds)) == WaitingIds(cfg.policy, ps, ctx.actionIds)
  {
    hide EvaluatePolicy;
    var rs := EvaluateAll(ps, cfg.policy, ctx.actionIds);
    forall i | 0 <= i < |ps|
      ensures rs[i].ApprovalRequired? <==> AboveThreshold(cfg.policy, ps[i])
      ensures rs[i].ApprovalRequired? ==> rs[i].action.id == ctx.actionIds(ps[i].id)
    {
      assert ps[i] in ps;
      DecisionIff(ps[i], cfg.policy, ctx.actionIds);
    }
    forall id | id in ApprovalIds(rs) ensures exists p | p in ps && AboveThreshold(cfg.policy, p) :: ctx.actionIds(p.id) == id {
      var i :| 0 <= i < |rs| && rs[i].ApprovalRequired? && rs[i].action.id == id;
      assert ps[i] in ps;
    }
    forall p | p in ps && AboveThreshold(cfg.policy, p) ensures ctx.actionIds(p.id) in ApprovalIds(rs) {
      var i :| 0 <= i < |ps| && ps[i] == p;
      assert rs[i] in rs;
    }
  }

  /** The actions waiting after fresh decisions are filed: those that waited, and every new one that
      needs approval. */
  lemma FiledAwaiting(st: Store, rs: seq<PolicyResult>)
    requires FreshResults(st, rs)
    ensures AwaitingActions(st.(rows := FileAll(st.rows, rs))) == AwaitingActions(st) + ApprovalIds(rs)
    ensures AwaitingActions(st) !! ApprovalIds(rs)
  {
    hide FileAll, FreshResult, DistinctResults;
    var st' := st.(rows := FileAll(st.rows, rs));
    forall id ensures id in AwaitingActions(st') <==> id in AwaitingActions(st) || id in ApprovalIds(rs) {
      FileAllRows(st.rows, rs, id);
      if i :| 0 <= i < |rs| && DecisionId(rs[i], "") == id {
        FileAllHas(st.rows, rs, i);
        FreshAt(st, rs, i);
        forall j | 0 <= j < |rs| && DecisionId(rs[j], "") == id ensures j == i { DistinctAt(st, rs, i, j); }
      } else {
        assert forall r | r in rs && r.ApprovalRequired? :: exists j :: 0 <= j < |rs| && rs[j] == r && DecisionId(rs[j], "") == r.action.id;
      }
    }
    forall id | id in ApprovalIds(rs) ensures id !in AwaitingActions(st) {
      var i :| 0 <= i < |rs| && rs[i].ApprovalRequired? && rs[i].action.id == id;
      FreshAt(st, rs, i);
    }
  }

  lemma FreshAt(st: Store, rs: seq<PolicyResult>, i: nat)
    requires FreshResults(st, rs) && i < |rs|
    ensures Executable(rs[i]) && DecisionId(rs[i], "") == rs[i].action.id && rs[i].action.id !in st.rows
  {
    assert FreshResult(st, rs[i]);
  }

  lemma DistinctAt(st: Store, rs: seq<PolicyResult>, i: nat, j: nat)
    requires FreshResults(st, rs) && i < |rs| && j < |rs| && DecisionId(rs[i], "") == DecisionId(rs[j], "")
    ensures i == j
  {
    assert i < j ==> DistinctResults(rs[i], rs[j]);
    assert j < i ==> DistinctResults(rs[j], rs[i]);
  }

  /** Filing rejections makes nothing wait. */
  lemma {:induction false} RejectionsDoNotWait(st: Store, rs: seq<PolicyResult>, freshIds: nat -> string)
    requires (forall r | r in rs :: r.Rejected?) && PersistDecisions(st, rs, freshIds).Ok?
    ensures AwaitingActions(PersistDecisions(st, rs, freshIds).value) == AwaitingActions(st)
  {
    if rs == [] {
    } else {
      var n := |rs| - 1;
      assert rs[n] in rs && forall r | r in rs[..n] :: r in rs;
      RejectionsDoNotWait(st, rs[..n], freshIds);
    }
  }

  /** Recording a result on an action that does not wait changes nothing about those that do. */
  lemma ResultDoesNotWait(st: Store, id: string, success: bool)
    requires RecordResult(st, id, success).Ok? && st.rows[id].status == Approved
    ensures AwaitingActions(RecordResult(st, id, success).value) == AwaitingActions(st)
  {
  }

  lemma SameWaiting(st: Store, ps: seq<Proposal>)
    ensures AwaitingActions(PersistProposals(st, ps)) == AwaitingActions(st)
  {
  }

  lemma ExecutableMeansEnabled(cfg: Config, ctx: Context, s: State)
    requires Decided(cfg, ctx, s) && s.policyResult.Some? && Executable(s.policyResult.value)
    ensures cfg.policy.enabled && s.eligibility == Some(Eligible)
  {
    if !cfg.policy.enabled {
      DisabledRejectsAll(cfg, ctx, s.proposals);
    }
  }

  lemma EligibleWaits(cfg: Config, ctx: Context, st: Store, s: State, freshIds: nat -> string)
    requires Valid(st) && Keyed(st) && FreshIds(st, ctx.proposalIds, ctx.actionIds)
    requires RunState(cfg, ctx, s) && s.eligibility == Some(Eligible) && cfg.policy.enabled
    requires Persist(st, s, freshIds).Ok?
    ensures AwaitingActions(Persist(st, s, freshIds).value) == AwaitingActions(st) + NewlyWaiting(cfg, ctx, s)
    ensures AwaitingActions(st) !! NewlyWaiting(cfg, ctx, s)
  {
    hide Valid, Keyed, FreshIds, DistinctIds, DrawnFrom, WellTyped, EvaluateAll, Choice, FreshResults, FileAll, PersistDecisions, RunState;
    hide PersistProposals, Injective, AwaitingActions, ApprovalIds, RecordResult, WaitingIds, ResultsToPersist;
    EligibleFacts(cfg, ctx, s);
    InjectiveOf(st, ctx);
    EnabledFiled(cfg, ctx, st, s.proposals, freshIds);
    var st1 := PersistProposals(st, s.proposals);
    FiledAwaiting(st1, s.allResults);
    SameWaiting(st, s.proposals);
    ApprovalsAreAboveThreshold(cfg, ctx, s.proposals);
    if s.executed.Some? {
      ExecutedAllowed(cfg, ctx, s);
      ChosenIsApproved(st1, s.allResults, s.policyResult.value);
      ResultDoesNotWait(st1.(rows := FileAll(st1.rows, s.allResults)), s.policyResult.value.action.id, s.executed.value);
    }
  }

  lemma ChosenIsApproved(st: Store, rs: seq<PolicyResult>, r: PolicyResult)
    requires FreshResults(st, rs) && r in rs && r.Allowed?
    ensures r.action.id in FileAll(st.rows, rs) && FileAll(st.rows, rs)[r.action.id].status == Approved
  {
    hide FileAll, FreshResults;
    AllNewlyFiled(st, rs);
    assert NewlyFiled(st, st.(rows := FileAll(st.rows, rs)), r);
  }

  lemma IneligibleDoesNotWait(cfg: Config, ctx: Context, st: Store, s: State, freshIds: nat -> string)
    requires RunState(cfg, ctx, s) && (s.eligibility != Some(Eligible) || !cfg.policy.enabled)
    requires Persist(st, s, freshIds).Ok?
    ensures AwaitingActions(Persist(st, s, freshIds).value) == AwaitingActions(st)
  {
    hide DistinctIds, DrawnFrom, WellTyped, EvaluateAll, Choice, PersistDecisions, PersistProposals, Injective, AwaitingActions, RecordResult;
    SameWaiting(st, s.proposals);
    if s.policyResult.Some? && Executable(s.policyResult.value) {
      ExecutableMeansEnabled(cfg, ctx, s);
    }
    if s.eligibility == Some(Eligible) {
      DisabledRejectsAll(cfg, ctx, s.proposals);
      EvaluatedNonEmpty(cfg, ctx, s.proposals);
    }
    RejectionsDoNotWait(PersistProposals(st, s.proposals), ResultsToPersist(s), freshIds);
  }

  /** Every run, wherever it ends, leaves waiting what waited before and, besides, one action for each of its
      proposals above the threshold: also when it executed another one or was stopped by a limit. */
  lemma RunAwaits(cfg: Config, i: Incident, run: RunInput)
    requires IncidentInv(cfg, i) && FreshIds(i.store, run.proposalIds, run.actionIds)
    ensures RunInvestigation(cfg, i, run).Ok?
    ensures var added := NewlyWaiting(cfg, RunContext(i, run), Final(cfg, RunContext(i, run), START, run.oracle, 0).state);
            && AwaitingActions(RunInvestigation(cfg, i, run).value.store) == AwaitingActions(i.store) + added
            && AwaitingActions(i.store) !! added
  {
    hide *;
    RunCounts(cfg, i, run);
    var ctx := RunContext(i, run);
    var s := Final(cfg, ctx, START, run.oracle, 0).state;
    FinalIsLast(cfg, ctx, START, run.oracle, 0);
    RunEnds(cfg, ctx, run.oracle);
    RunFacts(cfg, i, run);
    if s.eligibility == Some(Eligible) && cfg.policy.enabled {
      EligibleWaits(cfg, ctx, i.store, s, run.freshIds);
    } else {
      IneligibleDoesNotWait(cfg, ctx, i.store, s, run.freshIds);
      NothingAdded(cfg, ctx, s);
    }
  }

  lemma NothingAdded(cfg: Config, ctx: Context, s: State)
    requires s.eligibility != Some(Eligible) || !cfg.policy.enabled
    ensures NewlyWaiting(cfg, ctx, s) == {}
  {
  }

  lemma RunFacts(cfg: Config, i: Incident, run: RunInput)
    requires IncidentInv(cfg, i)
    ensures Valid(i.store) && Keyed(i.store)
    ensures RunContext(i, run).proposalIds == run.proposalIds && RunContext(i, run).actionIds == run.actionIds
  {
    hide Valid, Keyed, AutoCount, Resumable;
  }

  lemma FinalIsLast(cfg: Config, ctx: Context, p: Point, oracle: nat -> Answer, n: nat)
    ensures var t := Trace(cfg, ctx, p, oracle, n); Final(cfg, ctx, p, oracle, n) == t[|t| - 1]
  {
  }

  /** A successful resume leaves nothing waiting. */
  lemma ResumeAwaits(cfg: Config, i: Incident, d: Decision, operator: string, pending: real, timeout: real,
                     oracle: nat -> Answer, freshIds: nat -> string)
    requires IncidentInv(cfg, i)
    requires ResumeApproval(cfg, i, d, operator, pending, timeout, oracle, freshIds).Ok?
    ensures AwaitingActions(ResumeApproval(cfg, i, d, operator, pending, timeout, oracle, freshIds).value.store) == {}
  {
    hide Valid, Keyed, Settled, ResumeApproval, AutoCount, Inv;
    ResumeSucceedsIff(cfg, i, d, operator, pending, timeout, oracle, freshIds);
    ResumeAgrees(cfg, i, d, operator, pending, timeout, oracle, freshIds);
    PausedWaits(cfg, i.store, i.thread.value);
    var id := PausedAction(i.thread.value);
    var (success, waiting) := (oracle(0).executorSucceeded, AwaitingActions(i.store));
    SettledKeeps(i.store, id, d, operator, success);
    forall k | k in AwaitingActions(Settled(i.store, id, d, operator, success)) ensures false {
      OnlyMember(waiting, k, id);
    }
  }

  // ----- When a pause can be resumed -----

  function Approvable(s: Settings, ps: seq<Proposal>): seq<Proposal> {
    Filter(ps, p => AboveThreshold(s, p))
  }

  lemma WaitingIdsCons(s: Settings, p: Proposal, rest: seq<Proposal>, actionIds: string -> string)
    ensures WaitingIds(s, [p] + rest, actionIds)
         == (if AboveThreshold(s, p) then {actionIds(p.id)} else {}) + WaitingIds(s, rest, actionIds)
  {
    hide AboveThreshold;
  }

  lemma HeadIdIsNew(s: Settings, p: Proposal, rest: seq<Proposal>, actionIds: string -> string)
    requires DistinctIds([p] + rest) && forall p, q | actionIds(p) == actionIds(q) :: p == q
    ensures DistinctIds(rest) && actionIds(p.id) !in WaitingIds(s, rest, actionIds)
  {
    hide AboveThreshold;
    var ps := [p] + rest;
    forall i | 0 <= i < |rest| ensures rest[i].id != p.id {
      var n := i + 1;
      assert ps[0] == p && ps[n] == rest[i];
    }
    forall i, j | 0 <= i < j < |rest| ensures rest[i].id != rest[j].id {
      var (m, n) := (i + 1, j + 1);
      assert ps[m] == rest[i] && ps[n] == rest[j];
    }
  }

  /** Fresh ids: as many actions wait as proposals are above the threshold. */
  lemma {:induction false} OneActionEach(s: Settings, ps: seq<Proposal>, actionIds: string -> string)
    requires DistinctIds(ps) && forall p, q | actionIds(p) == actionIds(q) :: p == q
    ensures |WaitingIds(s, ps, actionIds)| == |Approvable(s, ps)|
  {
    hide AboveThreshold, DistinctIds;
    if ps == [] {
      assert WaitingIds(s, ps, actionIds) == {};
    } else {
      hide WaitingIds;
      assert ps == [ps[0]] + ps[1..];
      WaitingIdsCons(s, ps[0], ps[1..], actionIds);
      HeadIdIsNew(s, ps[0], ps[1..], actionIds);
      OneActionEach(s, ps[1..], actionIds);
    }
  }

  lemma WaitingCount(cfg: Config, ctx: Context, st: Store, s: State)
    requires FreshIds(st, ctx.proposalIds, ctx.actionIds) && RunState(cfg, ctx, s)
    requires s.policyResult.Some? && s.policyResult.value.ApprovalRequired?
    ensures |NewlyWaiting(cfg, ctx, s)| == |Approvable(cfg.policy, s.proposals)|
    ensures s.policyResult.value.action.id in NewlyWaiting(cfg, ctx, s)
  {
    hide Approvable, WaitingIds, DistinctIds, DrawnFrom, WellTyped, EvaluateAll, Choice;
    ExecutableMeansEnabled(cfg, ctx, s);
    OneActionEach(cfg.policy, s.proposals, ctx.actionIds);
    ApprovalsAreAboveThreshold(cfg, ctx, s.proposals);
    assert s.policyResult.value.action.id in ApprovalIds(s.allResults);
  }

  /** A paused run can be resumed, whatever the operator decides, exactly when nothing waited before it and
      exactly one of its proposals is above the auto-execute threshold. */
  lemma PauseResumableIff(cfg: Config, i: Incident, run: RunInput, d: Decision, operator: string, pending: real, timeout: real,
                          oracle: nat -> Answer, freshIds: nat -> string)
    requires IncidentInv(cfg, i) && FreshIds(i.store, run.proposalIds, run.actionIds)
    requires Final(cfg, RunContext(i, run), START, run.oracle, 0).node == AwaitApproval && pending <= timeout
    ensures RunInvestigation(cfg, i, run).Ok?
    ensures ResumeApproval(cfg, RunInvestigation(cfg, i, run).value, d, operator, pending, timeout, oracle, freshIds).Ok?
       <==> && AwaitingActions(i.store) == {}
            && |Approvable(cfg.policy, Final(cfg, RunContext(i, run), START, run.oracle, 0).state.proposals)| == 1
  {
    hide *;
    RunKeepsInv(cfg, i, run);
    RunCounts(cfg, i, run);
    RunAwaits(cfg, i, run);
    var ctx := RunContext(i, run);
    FinalIsLast(cfg, ctx, START, run.oracle, 0);
    RunEnds(cfg, ctx, run.oracle);
    RunFacts(cfg, i, run);
    var s := Final(cfg, ctx, START, run.oracle, 0).state;
    WaitingCount(cfg, ctx, i.store, s);
    ResumeSucceedsIff(cfg, RunInvestigation(cfg, i, run).value, d, operator, pending, timeout, oracle, freshIds);
    SizeOne(AwaitingActions(i.store), NewlyWaiting(cfg, ctx, s), s.policyResult.value.action.id);
  }

  lemma SizeOne<T>(a: set<T>, b: set<T>, x: T)
    requires x in b && a !! b
    ensures |a + b| == 1 <==> a == {} && |b| == 1
  {
    assert |a + b| == |a| + |b|;
    assert |b - {x}| == |b| - 1;
  }

  // ----- Blocked for good -----

  /** Something waits that no resume can reach: the incident is not paused, or more than one waits. */
  ghost predicate Blocked(i: Incident) {
    AwaitingActions(i.store) != {} && (i.status == AwaitingOperator ==> |AwaitingActions(i.store)| >= 2)
  }

  lemma BlockedResume(cfg: Config, i: Incident, d: Decision, operator: string, pending: real, timeout: real,
                      oracle: nat -> Answer, freshIds: nat -> string)
    requires IncidentInv(cfg, i) && Blocked(i)
    ensures ResumeApproval(cfg, i, d, operator, pending, timeout, oracle, freshIds).Err?
  {
    hide IncidentInv, ResumeApproval, AwaitingActions;
    ResumeSucceedsIff(cfg, i, d, operator, pending, timeout, oracle, freshIds);
  }

  lemma RunStaysBlocked(cfg: Config, i: Incident, run: RunInput)
    requires IncidentInv(cfg, i) && FreshIds(i.store, run.proposalIds, run.actionIds) && Blocked(i)
    ensures RunInvestigation(cfg, i, run).Ok? && Blocked(RunInvestigation(cfg, i, run).value)
  {
    hide IncidentInv, RunInvestigation, AwaitingActions, FreshIds, RunState, NewlyWaiting, Trace, Inv, Visits, Approvable, Persist;
    RunCounts(cfg, i, run);
    RunAwaits(cfg, i, run);
    var ctx := RunContext(i, run);
    FinalIsLast(cfg, ctx, START, run.oracle, 0);
    RunEnds(cfg, ctx, run.oracle);
    var s := Final(cfg, ctx, START, run.oracle, 0).state;
    if RunInvestigation(cfg, i, run).value.status == AwaitingOperator {
      WaitingCount(cfg, ctx, i.store, s);
      var x :| x in AwaitingActions(i.store);
      SubsetSize({x, s.policyResult.value.action.id}, AwaitingActions(i.store) + NewlyWaiting(cfg, ctx, s));
    }
  }

  ghost predicate NoDecisionGoesThrough(cfg: Config, i: Incident) {
    forall d, operator, pending, timeout, oracle, freshIds ::
      ResumeApproval(cfg, i, d, operator, pending, timeout, oracle, freshIds).Err?
  }

  lemma BlockedMeansNone(cfg: Config, i: Incident)
    requires IncidentInv(cfg, i) && Blocked(i)
    ensures NoDecisionGoesThrough(cfg, i)
  {
    hide IncidentInv, ResumeApproval, Blocked;
    forall d, operator, pending, timeout, oracle, freshIds
      ensures ResumeApproval(cfg, i, d, operator, pending, timeout, oracle, freshIds).Err?
    {
      BlockedResume(cfg, i, d, operator, pending, timeout, oracle, freshIds);
    }
  }

  /** Once blocked, always blocked: no later run, and no later pause, ever lets an operator's decision on the
      incident through again. */
  lemma {:induction false} BlockedForever(cfg: Config, i: Incident, ops: seq<Op>)
    requires IncidentInv(cfg, i) && Blocked(i) && FreshOps(cfg, i, ops)
    ensures IncidentInv(cfg, ApplyOps(cfg, i, ops)) && Blocked(ApplyOps(cfg, i, ops))
    ensures NoDecisionGoesThrough(cfg, ApplyOps(cfg, i, ops))
    decreases |ops|
  {
    hide IncidentInv, RunInvestigation, ResumeApproval, FreshIds, FailedRun, FailedResume, Blocked, NoDecisionGoesThrough;
    if ops == [] {
      BlockedMeansNone(cfg, i);
    } else {
      match ops[0] {
        case Run(input) =>
          RunKeepsInv(cfg, i, input);
          RunStaysBlocked(cfg, i, input);
        case OperatorDecides(d, operator, pending, timeout, oracle, freshIds) =>
          BlockedResume(cfg, i, d, operator, pending, timeout, oracle, freshIds);
          RefusalChangesNothing(cfg, i, d, operator, pending, timeout, oracle, freshIds);
      }
      BlockedForever(cfg, ApplyOp(cfg, i, ops[0]), ops[1..]);
    }
  }
}
