/** The investigation graph: its state, its nodes as state transformers, its routing, and whole runs.
    Every answer of the language model, telemetry, executor, validator and operator is arbitrary. */
module Graph {
  import opened Wrappers
  import opened Domain
  import opened Causality
  import opened Hypotheses
  import opened Verification
  import opened Policy
  import opened Proposals
  import opened Telemetry

  datatype Config = Config(
    policy: Settings,
    maxIterations: int,
    confidenceThreshold: real,
    correlationThreshold: real,
    clusters: seq<Cluster>)

  /** What a run is about: the service resolved from the incident, its onset, the history counts, and
      the random ids the run will draw for its proposals and (per proposal) for its actions. */
  datatype Context = Context(
    service: string,
    onset: real,
    priorAttempts: int,
    priorAutoExecutions: int,
    proposalIds: nat -> string,
    actionIds: string -> string)

  datatype Reason =
    | Eligible | NoRootCause | RootCauseUnverified | InsufficientConfidence | InsufficientEvidence | InvestigationExhausted

  datatype Decision = Approve | Reject | Cancel

  /** `IncidentInvestigationState`, without the fields only read by prompts and summaries. */
  datatype State = State(
    classification: Option<string>,
    similar: seq<string>,
    changes: seq<Change>,
    correlations: seq<Correlation>,
    candidates: seq<Change>,
    evidence: seq<Evidence>,
    hypotheses: seq<Hypothesis>,
    selected: Option<Hypothesis>,
    rootCause: Option<RootCause>,
    proposals: seq<Proposal>,
    eligibility: Option<Reason>,
    policyResult: Option<PolicyResult>,
    allResults: seq<PolicyResult>,
    approval: Option<Decision>,
    executed: Option<bool>,
    validation: Option<bool>,
    iteration: int,
    missing: seq<string>)

  const INITIAL: State :=
    State(None, [], [], [], [], [], [], None, None, [], None, None, [], None, None, None, 1, [])

  datatype Node =
    | ClassifyIncident | CollectMetrics | CollectLogs | RetrieveMemory | CollectChanges | CorrelateNode
    | GenerateNode | VerifyNode | CollectAdditional | ProposeNode | PolicyNode
    | AwaitApproval | ExecuteNode | ValidateNode | FinalizeNode | End | RoutingError

  /** What the outside world answers while one node runs; each node reads its own part. */
  datatype Answer = Answer(
    classification: Option<string>,
    evidence: seq<Evidence>,
    similar: seq<string>,
    changes: seq<Change>,
    suggestions: Option<seq<Suggestion>>,
    hypothesisIds: nat -> string,
    verdict: Option<Verdict>,
    replies: nat -> Reply,
    actions: Option<seq<ActionSuggestion>>,
    executorSucceeded: bool,
    recovered: Option<bool>)

  datatype Point = Point(node: Node, state: State)

  // ----- Gates and routing -----

  /** `check_remediation_eligibility`. */
  function CheckEligibility(rootCause: Option<RootCause>, selected: Option<Hypothesis>, evidence: seq<Evidence>,
                            iteration: int, maxIterations: int, minConfidence: real): Reason
  {
    if rootCause.None? then (if iteration >= maxIterations then InvestigationExhausted else NoRootCause)
    else if selected.Some? && selected.value.status != Verified then RootCauseUnverified
    else if rootCause.value.confidence < minConfidence then InsufficientConfidence
    else if rootCause.value.supporting == [] && evidence == [] then InsufficientEvidence
    else Eligible
  }

  /** When the gate answers what, on any input. */
  lemma ReasonIff(rootCause: Option<RootCause>, selected: Option<Hypothesis>, evidence: seq<Evidence>,
                  iteration: int, maxIterations: int, minConfidence: real)
    ensures var r := CheckEligibility(rootCause, selected, evidence, iteration, maxIterations, minConfidence);
            var verified := selected.Some? ==> selected.value.status.Verified?;
            && (r == InvestigationExhausted <==> rootCause.None? && iteration >= maxIterations)
            && (r == NoRootCause <==> rootCause.None? && iteration < maxIterations)
            && (r == RootCauseUnverified <==> rootCause.Some? && !verified)
            && (r == InsufficientConfidence <==> rootCause.Some? && verified && rootCause.value.confidence < minConfidence)
            && (r == Eligible <==> && rootCause.Some? && verified && rootCause.value.confidence >= minConfidence
                                   && (rootCause.value.supporting != [] || evidence != []))
  {
  }

  /** `should_continue_investigation`. */
  function AfterVerify(cfg: Config, s: State): Node {
    if s.rootCause.Some? then ProposeNode
    else if s.iteration >= cfg.maxIterations then ProposeNode
    else if s.missing == [] then ProposeNode
    else CollectAdditional
  }

  /** `route_remediation_policy_result`, and the type test the approval node starts with. */
  function AfterPolicy(s: State): Node {
    if s.eligibility.Some? && s.eligibility != Some(Eligible) then FinalizeNode
    else if s.policyResult.Some? && s.policyResult.value.Allowed? then ExecuteNode
    else if s.policyResult.Some? && s.policyResult.value.ApprovalRequired? then AwaitApproval
    else FinalizeNode
  }

  /** `route_approval_decision`. */
  function AfterApproval(s: State): Node {
    if s.approval == Some(Approve) then ExecuteNode else FinalizeNode
  }

  // ----- Nodes -----

  function RunVerify(cfg: Config, s: State, a: Answer): State {
    var o := Verify(s.hypotheses, a.verdict, s.evidence, s.changes, s.correlations, s.iteration, cfg.maxIterations,
                    cfg.confidenceThreshold, cfg.correlationThreshold,
                    if s.classification.Some? then s.classification.value else "UNKNOWN");
    s.(hypotheses := o.hypotheses, selected := o.selected, rootCause := o.rootCause, missing := o.missing)
  }

  /** The history limits apply to an executable choice. */
  function Limited(cfg: Config, ctx: Context, chosen: Option<PolicyResult>): Option<PolicyResult> {
    if chosen.Some? && Executable(chosen.value)
    then Some(EnforceLimits(chosen.value, ctx.priorAttempts, ctx.priorAutoExecutions, cfg.policy))
    else chosen
  }

  function RunPolicy(cfg: Config, ctx: Context, s: State): State {
    var reason := CheckEligibility(s.rootCause, s.selected, s.evidence, s.iteration, cfg.maxIterations, cfg.policy.minConfidence);
    if reason != Eligible || s.proposals == [] then
      s.(eligibility := Some(reason), policyResult := None, allResults := [])
    else
      var cause := CauseText(if s.rootCause.Some? then Some(s.rootCause.value.text) else None, s.classification);
      s.(eligibility := Some(reason),
         policyResult := Limited(cfg, ctx, Select(s.proposals, cfg.policy, cause, ctx.actionIds)),
         allResults := EvaluateAll(s.proposals, cfg.policy, ctx.actionIds))
  }

  /** One node, then its outgoing edge. */
  function Step(cfg: Config, ctx: Context, p: Point, a: Answer): Point
    requires p.node !in {AwaitApproval, End, RoutingError}
  {
    var s := p.state;
    match p.node
    case ClassifyIncident => Point(CollectMetrics, s.(classification := a.classification, evidence := s.evidence + a.evidence))
    case CollectMetrics => Point(CollectLogs, s.(evidence := s.evidence + a.evidence))
    case CollectLogs => Point(RetrieveMemory, s.(evidence := s.evidence + a.evidence))
    case RetrieveMemory => Point(CollectChanges, s.(similar := a.similar))
    case CollectChanges => Point(CorrelateNode, s.(changes := a.changes))
    case CorrelateNode =>
      var cs := CorrelateAll(s.changes, ctx.service, ctx.onset, s.evidence, cfg.correlationThreshold, cfg.clusters);
      Point(GenerateNode, s.(correlations := cs, candidates := CandidateChanges(s.changes, cs)))
    case GenerateNode =>
      Point(VerifyNode, s.(hypotheses := Generate(a.suggestions, a.hypothesisIds, ctx.service, s.evidence, s.changes, s.candidates, s.similar)))
    case VerifyNode =>
      var s' := RunVerify(cfg, s, a);
      Point(AfterVerify(cfg, s'), s')
    case CollectAdditional =>
      Point(GenerateNode, s.(iteration := s.iteration + 1, missing := [], evidence := s.evidence + Collected(s.missing, a.replies)))
    case ProposeNode => Point(PolicyNode, s.(proposals := Propose(a.actions, ctx.proposalIds)))
    case PolicyNode =>
      var s' := RunPolicy(cfg, ctx, s);
      Point(AfterPolicy(s'), s')
    case ExecuteNode =>
      if s.policyResult.Some? && Executable(s.policyResult.value)
      then Point(ValidateNode, s.(executed := Some(a.executorSucceeded)))
      else Point(RoutingError, s)
    case ValidateNode =>
      if s.executed != Some(true) then Point(FinalizeNode, s.(validation := None))
      else if s.policyResult.Some? && Executable(s.policyResult.value)
      then Point(FinalizeNode, s.(validation := Some(a.recovered == Some(true))))
      else Point(RoutingError, s)
    case FinalizeNode => Point(End, s)
  }

  /** The approval node resumed with the operator's decision. */
  function Resume(s: State, d: Decision): Point {
    if s.policyResult.Some? && s.policyResult.value.ApprovalRequired? then
      var s' := s.(approval := Some(d));
      Point(AfterApproval(s'), s')
    else Point(RoutingError, s)
  }

  // ----- Whole runs -----

  predicate Stopped(p: Point) {
    p.node in {AwaitApproval, End, RoutingError}
  }

  function Remaining(cfg: Config, s: State): nat {
    if s.iteration < cfg.maxIterations then cfg.maxIterations - s.iteration else 0
  }

  /** A bound on the nodes still to run; it decreases with every node, so every run stops. */
  function StepsLeft(cfg: Config, p: Point): nat {
    var loop := 3 * Remaining(cfg, p.state);
    match p.node
    case ClassifyIncident => 13 + loop
    case CollectMetrics => 12 + loop
    case CollectLogs => 11 + loop
    case RetrieveMemory => 10 + loop
    case CollectChanges => 9 + loop
    case CorrelateNode => 8 + loop
    case GenerateNode => 7 + loop
    case VerifyNode => 6 + loop
    case CollectAdditional => if loop == 0 then 8 else 5 + loop
    case ProposeNode => 5
    case PolicyNode => 4
    case ExecuteNode => 3
    case ValidateNode => 2
    case FinalizeNode => 1
    case AwaitApproval => 0
    case End => 0
    case RoutingError => 0
  }

  lemma StepDecreases(cfg: Config, ctx: Context, p: Point, a: Answer)
    requires !Stopped(p)
    ensures StepsLeft(cfg, Step(cfg, ctx, p, a)) < StepsLeft(cfg, p)
  {
    hide Verify, Select, EvaluateAll, CheckEligibility, CauseText, Generate, Collected, CorrelateAll, CandidateChanges, Propose, EnforceLimits;
  }

  /** The points a run passes through; `oracle(n)` answers the n-th node. */
  function Trace(cfg: Config, ctx: Context, p: Point, oracle: nat -> Answer, n: nat): (t: seq<Point>)
    ensures t != [] && t[0] == p && Stopped(t[|t| - 1])
    ensures forall i | 0 <= i < |t| - 1 :: !Stopped(t[i])
    ensures |t| <= StepsLeft(cfg, p) + 1
    decreases StepsLeft(cfg, p)
  {
    if Stopped(p) then [p]
    else
      StepDecreases(cfg, ctx, p, oracle(n));
      [p] + Trace(cfg, ctx, Step(cfg, ctx, p, oracle(n)), oracle, n + 1)
  }

  /** A sequence of points from `p`, each produced from the one before by its node and the answer of its
      turn, that stops at its last point and not before. */
  ghost predicate IsRun(cfg: Config, ctx: Context, p: Point, oracle: nat -> Answer, n: nat, t: seq<Point>) {
    && t != [] && t[0] == p && Stopped(t[|t| - 1])
    && forall i: nat | i < |t| - 1 :: !Stopped(t[i]) && t[i + 1] == Step(cfg, ctx, t[i], oracle(n + i))
  }

  /** The trace is the one and only run. */
  lemma {:induction false} TraceIsTheRun(cfg: Config, ctx: Context, p: Point, oracle: nat -> Answer, n: nat, t: seq<Point>)
    ensures IsRun(cfg, ctx, p, oracle, n, t) <==> t == Trace(cfg, ctx, p, oracle, n)
    decreases StepsLeft(cfg, p)
  {
    hide Step, StepsLeft;
    if Stopped(p) {
      assert Trace(cfg, ctx, p, oracle, n) == [p];
    } else {
      StepDecreases(cfg, ctx, p, oracle(n));
      var (q, m) := (Step(cfg, ctx, p, oracle(n)), n + 1);
      var rest := Trace(cfg, ctx, q, oracle, m);
      assert Trace(cfg, ctx, p, oracle, n) == [p] + rest;
      TraceIsTheRun(cfg, ctx, q, oracle, m, rest);
      RunCons(cfg, ctx, p, oracle, n, rest);
      if IsRun(cfg, ctx, p, oracle, n, t) {
        RunTail(cfg, ctx, p, oracle, n, t);
        TraceIsTheRun(cfg, ctx, q, oracle, m, t[1..]);
        assert t == [p] + t[1..];
      }
    }
  }

  lemma RunCons(cfg: Config, ctx: Context, p: Point, oracle: nat -> Answer, n: nat, t: seq<Point>)
    requires !Stopped(p) && IsRun(cfg, ctx, Step(cfg, ctx, p, oracle(n)), oracle, n + 1, t)
    ensures IsRun(cfg, ctx, p, oracle, n, [p] + t)
  {
    hide Step;
    var r := [p] + t;
    forall i: nat | i < |r| - 1 ensures !Stopped(r[i]) && r[i + 1] == Step(cfg, ctx, r[i], oracle(n + i)) {
      if i > 0 {
        var k := i - 1;
        assert t[k + 1] == Step(cfg, ctx, t[k], oracle(n + 1 + k));
      }
    }
  }

  lemma RunTail(cfg: Config, ctx: Context, p: Point, oracle: nat -> Answer, n: nat, t: seq<Point>)
    requires !Stopped(p) && IsRun(cfg, ctx, p, oracle, n, t)
    ensures IsRun(cfg, ctx, Step(cfg, ctx, p, oracle(n)), oracle, n + 1, t[1..])
  {
    hide Step;
    var r := t[1..];
    assert t[0 + 1] == Step(cfg, ctx, t[0], oracle(n + 0));
    forall i: nat | i < |r| - 1 ensures !Stopped(r[i]) && r[i + 1] == Step(cfg, ctx, r[i], oracle(n + 1 + i)) {
      var k := i + 1;
      assert t[k + 1] == Step(cfg, ctx, t[k], oracle(n + k));
    }
  }

  function Final(cfg: Config, ctx: Context, p: Point, oracle: nat -> Answer, n: nat): (q: Point)
    ensures Stopped(q)
  {
    var t := Trace(cfg, ctx, p, oracle, n);
    t[|t| - 1]
  }
}
