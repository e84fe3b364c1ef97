/** Concrete runs after which no operator's decision on the incident ever goes through. */
module BlockedApprovals {
  import opened Wrappers
  import opened Domain
  import opened Causality
  import opened Hypotheses
  import opened Verification
  import opened Policy
  import opened Proposals
  import opened Telemetry
  import opened Graph
  import opened GraphInvariants
  import opened GraphTheorems
  import opened Audit
  import opened Investigation
  import opened InvestigationTheorems
  import opened InvestigationApprovals
  import opened Sorting
  import opened Text

  // ----- A run that verifies its hypothesis and falls back on the two default proposals -----

  const ALERT := Evidence("alert", "pool", "ALERT", "alertmanager")
  const GUESS := Suggestion("pool", "", "demo-service", 1.0, ["alert"], [], [], [])

  /** The world answers every node alike: one piece of evidence, a confirmed hypothesis, no usable
      remediation proposals, a successful executor and a recovered service. */
  const ANSWER := Answer(None, [ALERT], [], [], Some([GUESS]), (k: nat) => "hypothesis", Some(Verdict(true, 1.0, [])),
                         (k: nat) => Telemetry.Raised, None, true, Some(true))

  function Steady(n: nat): Answer {
    ANSWER
  }

  /** Settings under which the run is eligible and no limit is hit. */
  ghost predicate Open(cfg: Config, ctx: Context) {
    && cfg.policy.enabled && cfg.confidenceThreshold <= 1.0 && cfg.policy.minConfidence <= 1.0
    && ctx.priorAttempts < cfg.policy.maxAttempts && ctx.priorAutoExecutions < cfg.policy.maxAutoExecutions
  }

  /** A state ready to propose: a root cause blaming the pool. */
  ghost predicate Ready(s: State) {
    && s.rootCause.Some? && s.selected.Some? && s.selected.value.status == Verified
    && s.rootCause.value.confidence == 1.0 && s.rootCause.value.supporting != []
    && s.rootCause.value.text == "Root cause verified: " + "pool" + (". " + "" + " " + "UNKNOWN")
    && s.classification.None? && s.executed.None? && s.validation.None? && s.approval.None?
  }

  lemma Gathers(cfg: Config, ctx: Context) returns (s: State)
    ensures Final(cfg, ctx, START, Steady, 0) == Final(cfg, ctx, Point(GenerateNode, s), Steady, 6)
    ensures s == INITIAL.(evidence := [ALERT, ALERT, ALERT])
  {
    hide StepsLeft, Final;
    var p1 := Step(cfg, ctx, START, ANSWER);
    FinalStep(cfg, ctx, START, Steady, 0);
    var p2 := Step(cfg, ctx, p1, ANSWER);
    FinalStep(cfg, ctx, p1, Steady, 1);
    var p3 := Step(cfg, ctx, p2, ANSWER);
    FinalStep(cfg, ctx, p2, Steady, 2);
    var p4 := Step(cfg, ctx, p3, ANSWER);
    FinalStep(cfg, ctx, p3, Steady, 3);
    var p5 := Step(cfg, ctx, p4, ANSWER);
    FinalStep(cfg, ctx, p4, Steady, 4);
    var p6 := Step(cfg, ctx, p5, ANSWER);
    FinalStep(cfg, ctx, p5, Steady, 5);
    s := p6.state;
    assert CorrelateAll([], ctx.service, ctx.onset, s.evidence, cfg.correlationThreshold, cfg.clusters) == [];
    assert s.evidence == [ALERT, ALERT, ALERT];
  }

  lemma Guesses(cfg: Config, ctx: Context, s: State) returns (h: Hypothesis)
    requires s == INITIAL.(evidence := [ALERT, ALERT, ALERT])
    ensures Final(cfg, ctx, Point(GenerateNode, s), Steady, 6)
         == Final(cfg, ctx, Point(VerifyNode, s.(hypotheses := [h])), Steady, 7)
    ensures h.title == "pool" && h.description == "" && h.confidence == 1.0 && "alert" in h.supporting
  {
    hide StepsLeft, Final, Trace, Keep, Migrate;
    FinalStep(cfg, ctx, Point(GenerateNode, s), Steady, 6);
    var known := EvidenceIds(s.evidence);
    assert ALERT in s.evidence && "alert" in known;
    h := Sanitize(GUESS, "hypothesis", known, ChangeIds(s.changes), set x | x in s.similar);
    assert Step(cfg, ctx, Point(GenerateNode, s), ANSWER).state.hypotheses == [h];
    MigrationComplete(GUESS, "hypothesis", known, ChangeIds(s.changes), set x | x in s.similar, "alert");
  }

  lemma Confirms(cfg: Config, ctx: Context, g: State, h: Hypothesis) returns (r: State)
    requires g == INITIAL.(evidence := [ALERT, ALERT, ALERT], hypotheses := [h]) && cfg.confidenceThreshold <= 1.0
    requires h.title == "pool" && h.description == "" && "alert" in h.supporting
    ensures Final(cfg, ctx, Point(VerifyNode, g), Steady, 7) == Final(cfg, ctx, Point(ProposeNode, r), Steady, 8)
    ensures Ready(r)
  {
    hide StepsLeft, Final, Trace, CausalIds, Keep, Best;
    FinalStep(cfg, ctx, Point(VerifyNode, g), Steady, 7);
    assert Best([h]) == h;
    assert ALERT in g.evidence && "alert" in Keep(h.supporting, EvidenceIds(g.evidence));
    r := RunVerify(cfg, g, ANSWER);
    assert "Root cause verified: " + "pool" + ". " + "" + " " + "UNKNOWN" == "Root cause verified: " + "pool" + (". " + "" + " " + "UNKNOWN");
  }

  lemma Decides(cfg: Config, ctx: Context, r: State) returns (s: State)
    requires Ready(r) && Open(cfg, ctx)
    ensures s == RunPolicy(cfg, ctx, r.(proposals := FallbackProposals(ctx.proposalIds)))
    ensures Final(cfg, ctx, Point(ProposeNode, r), Steady, 8) == Final(cfg, ctx, Point(AfterPolicy(s), s), Steady, 10)
    ensures s.eligibility == Some(Eligible)
    ensures s.policyResult == Limited(cfg, ctx, Select(s.proposals, cfg.policy, CauseText(Some(r.rootCause.value.text), None), ctx.actionIds))
  {
    hide StepsLeft, Final, Select, EvaluateAll, Choice, CauseText, Limited;
    var p := Point(ProposeNode, r);
    var q := Step(cfg, ctx, p, ANSWER);
    FinalStep(cfg, ctx, p, Steady, 8);
    FinalStep(cfg, ctx, q, Steady, 9);
    s := RunPolicy(cfg, ctx, q.state);
  }

  /** The whole run up to the policy node's verdict. */
  lemma RunDecides(cfg: Config, ctx: Context) returns (s: State)
    requires Open(cfg, ctx)
    ensures Final(cfg, ctx, START, Steady, 0) == Final(cfg, ctx, Point(AfterPolicy(s), s), Steady, 10)
    ensures s.eligibility == Some(Eligible) && s.proposals == FallbackProposals(ctx.proposalIds)
    ensures s.executed.None? && s.validation.None? && s.approval.None?
    ensures s.policyResult == Limited(cfg, ctx, Select(s.proposals, cfg.policy, BLAME, ctx.actionIds))
  {
    hide StepsLeft, Final, Select, EvaluateAll, Choice, Limited, Step;
    var g := Gathers(cfg, ctx);
    var h := Guesses(cfg, ctx, g);
    var r := Confirms(cfg, ctx, g.(hypotheses := [h]), h);
    s := Decides(cfg, ctx, r);
  }

  const BLAME := CauseText(Some("Root cause verified: " + "pool" + (". " + "" + " " + "UNKNOWN")), None)

  lemma LowerContains(a: string, b: string)
    ensures Contains(Lower(a + "pool" + b), "pool")
  {
    var (text, n) := (Lower(a + "pool" + b), |a|);
    assert text[n..][..4] == "pool";
    assert "pool" <= text[n..];
  }

  lemma BlamesPool()
    ensures IsFaultInjection(BLAME) && BLAME != ""
  {
    LowerContains("Root cause verified: ", ". " + "" + " " + "UNKNOWN");
    assert FAULT_KEYWORDS[1] == "pool" && Contains(BLAME, FAULT_KEYWORDS[1]);
    var i :| 0 <= i <= |BLAME| && "pool" <= BLAME[i..];
  }

  lemma FallbackAboveThreshold(s: Settings, ids: nat -> string)
    ensures var ps := FallbackProposals(ids);
            && (s.autoExecuteMax < 1 ==> |Approvable(s, ps)| == 2)
            && (s.autoExecuteMax == 1 ==> |Approvable(s, ps)| == 1 && AboveThreshold(s, ps[1]))
  {
    var ps := FallbackProposals(ids);
    var p := (x: Proposal) => AboveThreshold(s, x);
    assert ps == [ps[0]] + [ps[1]] && ps[1..] == [ps[1]] && ps[1..][1..] == [];
    assert Lists.Filter(ps, p) == (if p(ps[0]) then [ps[0]] else []) + Lists.Filter([ps[1]], p);
    assert Lists.Filter([ps[1]], p) == if p(ps[1]) then [ps[1]] else [];
  }

  // ----- Threshold 0: the pair leaves two actions waiting -----

  lemma ChoosesApproval(cfg: Config, ctx: Context)
    requires Open(cfg, ctx) && cfg.policy.autoExecuteMax < 1
    ensures var c := Limited(cfg, ctx, Select(FallbackProposals(ctx.proposalIds), cfg.policy, BLAME, ctx.actionIds));
            c.Some? && c.value.ApprovalRequired?
  {
    hide KeyLeq, EvaluatePolicy, Select, EnforceLimits, CauseText;
    var ps := FallbackProposals(ctx.proposalIds);
    DecisionIff(ps[0], cfg.policy, ctx.actionIds);
    DecisionIff(ps[1], cfg.policy, ctx.actionIds);
    SelectionIsLeast(ps, cfg.policy, BLAME, ctx.actionIds);
    LimitsIff(Select(ps, cfg.policy, BLAME, ctx.actionIds).value, ctx.priorAttempts, ctx.priorAutoExecutions, cfg.policy);
  }

  /** With automatic execution switched off and no usable proposals from the model, the run pauses, and no
      decision on the incident goes through, then or after any further runs. */
  lemma FallbackPauseBlocks(cfg: Config, i: Incident, run: RunInput, more: seq<Op>)
    requires IncidentInv(cfg, i) && FreshIds(i.store, run.proposalIds, run.actionIds)
    requires Open(cfg, RunContext(i, run)) && cfg.policy.autoExecuteMax < 1 && run.oracle == Steady
    ensures RunInvestigation(cfg, i, run).Ok?
    ensures var i' := RunInvestigation(cfg, i, run).value;
            && i'.status == AwaitingOperator && Blocked(i')
            && (FreshOps(cfg, i', more) ==> NoDecisionGoesThrough(cfg, ApplyOps(cfg, i', more)))
  {
    hide *;
    var ctx := RunContext(i, run);
    var s := RunDecides(cfg, ctx);
    ChoosesApproval(cfg, ctx);
    PausesAt(cfg, ctx, s);
    FallbackAboveThreshold(cfg.policy, ctx.proposalIds);
    RunKeepsInv(cfg, i, run);
    RunCounts(cfg, i, run);
    FinalIsLast(cfg, ctx, START, Steady, 0);
    TwoApprovalsBlock(cfg, i, run);
    var i' := RunInvestigation(cfg, i, run).value;
    if FreshOps(cfg, i', more) {
      BlockedForever(cfg, i', more);
    }
  }

  lemma PausesAt(cfg: Config, ctx: Context, s: State)
    requires s.eligibility == Some(Eligible) && s.policyResult.Some? && s.policyResult.value.ApprovalRequired?
    ensures Final(cfg, ctx, Point(AfterPolicy(s), s), Steady, 10) == Point(AwaitApproval, s)
  {
  }

  lemma TwoApprovalsBlock(cfg: Config, i: Incident, run: RunInput)
    requires IncidentInv(cfg, i) && FreshIds(i.store, run.proposalIds, run.actionIds)
    requires var q := Final(cfg, RunContext(i, run), START, run.oracle, 0);
             q.node == AwaitApproval && |Approvable(cfg.policy, q.state.proposals)| >= 2
    ensures RunInvestigation(cfg, i, run).Ok? && Blocked(RunInvestigation(cfg, i, run).value)
  {
    hide IncidentInv, FreshIds, RunState, NewlyWaiting, Approvable, Trace, Inv, Visits, Persist, RunInvestigation, AwaitingActions, Final;
    RunAwaits(cfg, i, run);
    var ctx := RunContext(i, run);
    RunEnds(cfg, ctx, run.oracle);
    FinalIsLast(cfg, ctx, START, run.oracle, 0);
    var s := Final(cfg, ctx, START, run.oracle, 0).state;
    WaitingCount(cfg, ctx, i.store, s);
    SubsetSize(NewlyWaiting(cfg, ctx, s), AwaitingActions(i.store) + NewlyWaiting(cfg, ctx, s));
  }

  // ----- Threshold 1: the reset runs by itself and leaves the restart waiting -----

  lemma ChoosesReset(cfg: Config, ctx: Context)
    requires Open(cfg, ctx) && cfg.policy.autoExecuteMax == 1
    ensures var c := Limited(cfg, ctx, Select(FallbackProposals(ctx.proposalIds), cfg.policy, BLAME, ctx.actionIds));
            c.Some? && c.value.Allowed?
  {
    hide EvaluatePolicy, Select, IsFaultInjection, CauseText, EnforceLimits;
    var ps := FallbackProposals(ctx.proposalIds);
    DecisionIff(ps[0], cfg.policy, ctx.actionIds);
    DecisionIff(ps[1], cfg.policy, ctx.actionIds);
    SelectionIsLeast(ps, cfg.policy, BLAME, ctx.actionIds);
    BlamesPool();
    LimitsIff(Select(ps, cfg.policy, BLAME, ctx.actionIds).value, ctx.priorAttempts, ctx.priorAutoExecutions, cfg.policy);
  }

  lemma ExecutesAt(cfg: Config, ctx: Context, s: State)
    requires s.eligibility == Some(Eligible) && s.policyResult.Some? && s.policyResult.value.Allowed?
    requires s.executed.None? && s.validation.None?
    ensures Final(cfg, ctx, Point(AfterPolicy(s), s), Steady, 10)
         == Point(End, s.(executed := Some(true), validation := Some(true)))
  {
    hide StepsLeft, Final;
    var p := Point(ExecuteNode, s);
    FinalStep(cfg, ctx, p, Steady, 10);
    var v := Step(cfg, ctx, p, ANSWER);
    FinalStep(cfg, ctx, v, Steady, 11);
    var f := Step(cfg, ctx, v, ANSWER);
    FinalizeEnds(cfg, ctx, f, Steady, 12);
    FinalIsLast(cfg, ctx, f, Steady, 12);
  }

  /** At the default threshold the same run resolves the incident by itself, and what it leaves waiting
      blocks every later pause. */
  lemma AutomaticRunBlocks(cfg: Config, i: Incident, run: RunInput, more: seq<Op>)
    requires IncidentInv(cfg, i) && FreshIds(i.store, run.proposalIds, run.actionIds)
    requires Open(cfg, RunContext(i, run)) && cfg.policy.autoExecuteMax == 1 && run.oracle == Steady
    ensures RunInvestigation(cfg, i, run).Ok?
    ensures var i' := RunInvestigation(cfg, i, run).value;
            && i'.status == Resolved && Blocked(i')
            && (FreshOps(cfg, i', more) ==> NoDecisionGoesThrough(cfg, ApplyOps(cfg, i', more)))
  {
    hide *;
    var ctx := RunContext(i, run);
    var s := RunDecides(cfg, ctx);
    ChoosesReset(cfg, ctx);
    ExecutesAt(cfg, ctx, s);
    RunKeepsInv(cfg, i, run);
    var last := s.(executed := Some(true), validation := Some(true));
    RunAwaits(cfg, i, run);
    FallbackAboveThreshold(cfg.policy, ctx.proposalIds);
    RestartWaits(cfg, ctx, last);
    FinalIsLast(cfg, ctx, START, Steady, 0);
    ResolvesAt(cfg, i, run);
    var i' := RunInvestigation(cfg, i, run).value;
    LeftoverBlocks(i', ctx.actionIds(ctx.proposalIds(1)));
    if FreshOps(cfg, i', more) {
      BlockedForever(cfg, i', more);
    }
  }

  lemma RestartWaits(cfg: Config, ctx: Context, s: State)
    requires Open(cfg, ctx) && s.eligibility == Some(Eligible) && s.proposals == FallbackProposals(ctx.proposalIds)
    requires AboveThreshold(cfg.policy, s.proposals[1])
    ensures ctx.actionIds(ctx.proposalIds(1)) in NewlyWaiting(cfg, ctx, s)
  {
    assert s.proposals[1] in s.proposals && s.proposals[1].id == ctx.proposalIds(1);
  }

  lemma ResolvesAt(cfg: Config, i: Incident, run: RunInput)
    requires RunInvestigation(cfg, i, run).Ok?
    requires var q := Final(cfg, RunContext(i, run), START, run.oracle, 0); q.node == End && q.state.validation == Some(true)
    ensures RunInvestigation(cfg, i, run).value.status == Resolved
  {
    hide Trace, Persist, Visits;
    FinalIsLast(cfg, RunContext(i, run), START, run.oracle, 0);
  }

  lemma LeftoverBlocks(i: Incident, id: string)
    requires i.status != AwaitingOperator && id in AwaitingActions(i.store)
    ensures Blocked(i)
  {
  }

  // ----- Both from a new incident -----

  function Tally(k: nat): string {
    seq(k, i requires 0 <= i < k => '1')
  }

  function Same(id: string): string {
    id
  }

  function FirstRun(onset: real): RunInput {
    RunInput("demo-service", onset, Tally, Same, Tally, Steady)
  }

  lemma NewIncidentReady(cfg: Config, onset: real)
    ensures IncidentInv(cfg, NEW_INCIDENT)
    ensures FreshIds(NEW_INCIDENT.store, FirstRun(onset).proposalIds, FirstRun(onset).actionIds)
  {
    assert forall k: nat :: |Tally(k)| == k;
  }

  /** For every setting with automatic execution off there is a first run that blocks the incident for good
      while it waits for the operator; and for every setting at the default threshold there is one that
      resolves it and blocks it for good. */
  lemma NewIncidentCanBlock(cfg: Config, onset: real, more: seq<Op>)
    requires Open(cfg, RunContext(NEW_INCIDENT, FirstRun(onset))) && cfg.policy.autoExecuteMax <= 1
    requires RunInvestigation(cfg, NEW_INCIDENT, FirstRun(onset)).Ok? ==>
               FreshOps(cfg, RunInvestigation(cfg, NEW_INCIDENT, FirstRun(onset)).value, more)
    ensures RunInvestigation(cfg, NEW_INCIDENT, FirstRun(onset)).Ok?
    ensures var i := RunInvestigation(cfg, NEW_INCIDENT, FirstRun(onset)).value;
            && i.status == (if cfg.policy.autoExecuteMax < 1 then AwaitingOperator else Resolved)
            && Blocked(i) && NoDecisionGoesThrough(cfg, ApplyOps(cfg, i, more))
  {
    hide RunInvestigation, IncidentInv, FreshIds, FreshOps, ApplyOps, Blocked, NoDecisionGoesThrough, Open;
    NewIncidentReady(cfg, onset);
    if cfg.policy.autoExecuteMax < 1 {
      FallbackPauseBlocks(cfg, NEW_INCIDENT, FirstRun(onset), more);
    } else {
      AutomaticRunBlocks(cfg, NEW_INCIDENT, FirstRun(onset), more);
    }
  }
}
