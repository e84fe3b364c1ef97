/** What holds at every point of every investigation run. */
module GraphInvariants {
  import opened Wrappers
  import opened Domain
  import opened Causality
  import opened Hypotheses
  import opened Verification
  import opened Policy
  import opened Proposals
  import opened Telemetry
  import opened Graph

  predicate Early(n: Node) {
    n in {ClassifyIncident, CollectMetrics, CollectLogs, RetrieveMemory, CollectChanges, CorrelateNode}
  }

  /** The investigation loop is over. */
  predicate Late(n: Node) {
    n in {ProposeNode, PolicyNode, AwaitApproval, ExecuteNode, ValidateNode, FinalizeNode, End}
  }

  // ----- References resolve -----

  ghost predicate GroundedState(s: State, h: Hypothesis) {
    Grounded(h, EvidenceIds(s.evidence), ChangeIds(s.changes), set x | x in s.similar)
  }

  ghost predicate Referential(p: Point) {
    var s := p.state;
    && (forall h | h in s.hypotheses :: GroundedState(s, h))
    && (s.selected.Some? ==> GroundedState(s, s.selected.value))
    && (forall c | c in s.candidates :: c in s.changes)
    && (Early(p.node) ==> s.hypotheses == [] && s.selected.None? && s.candidates == [])
  }

  lemma GroundedMonotone(h: Hypothesis, es: seq<Evidence>, later: seq<Evidence>, changes: set<string>, history: set<string>)
    requires es <= later && Grounded(h, EvidenceIds(es), changes, history)
    ensures Grounded(h, EvidenceIds(later), changes, history)
  {
    assert forall e | e in es :: e in later;
  }

  lemma VerifyGrounded(cfg: Config, s: State, a: Answer)
    requires s.hypotheses != [] && forall h | h in s.hypotheses :: GroundedState(s, h)
    ensures var s' := RunVerify(cfg, s, a);
            && (forall h | h in s'.hypotheses :: GroundedState(s, h))
            && s'.selected.Some? && GroundedState(s, s'.selected.value)
  {
    hide CausalIds;
    var s' := RunVerify(cfg, s, a);
    var best := Best(s.hypotheses);
    assert GroundedState(s, best);
    var u := s'.selected.value;
    assert GroundedState(s, u);
    assert s'.hypotheses == Replace(s.hypotheses, u);
    forall h | h in s'.hypotheses ensures GroundedState(s, h) {
      var i :| 0 <= i < |s'.hypotheses| && s'.hypotheses[i] == h;
      assert h == u || h == s.hypotheses[i];
    }
  }

  lemma StepReferential(cfg: Config, ctx: Context, p: Point, a: Answer)
    requires !Stopped(p) && Referential(p) && (p.node == VerifyNode ==> p.state.hypotheses != [])
    ensures Referential(Step(cfg, ctx, p, a))
    ensures p.state.evidence <= Step(cfg, ctx, p, a).state.evidence
  {
    hide Verify, Select, EvaluateAll, CheckEligibility, CauseText, Collected, CorrelateAll, Propose, EnforceLimits, Limited;
    hide Generate, CandidateChanges;
    var s := p.state;
    match p.node
    case VerifyNode => VerifyGrounded(cfg, s, a);
    case CollectAdditional =>
      var s' := Step(cfg, ctx, p, a).state;
      forall h | h in s.hypotheses || (s.selected.Some? && h == s.selected.value) ensures GroundedState(s', h) {
        assert GroundedState(s, h);
        GroundedMonotone(h, s.evidence, s'.evidence, ChangeIds(s.changes), set x | x in s.similar);
      }
    case _ =>
  }

  // ----- The bounded loop -----

  ghost predicate Looping(cfg: Config, p: Point) {
    var s := p.state;
    && s.iteration >= 1
    && (Early(p.node) ==> s.iteration == 1)
    && (!Late(p.node) ==> s.rootCause.None?)
    && (p.node == VerifyNode ==> s.hypotheses != [])
    && (p.node == CollectAdditional ==> s.iteration < cfg.maxIterations && s.missing != [])
    && (Late(p.node) ==> s.rootCause.Some? || s.iteration >= cfg.maxIterations)
  }

  lemma StepLooping(cfg: Config, ctx: Context, p: Point, a: Answer)
    requires !Stopped(p) && Looping(cfg, p)
    requires Step(cfg, ctx, p, a).node != RoutingError
    ensures Looping(cfg, Step(cfg, ctx, p, a))
  {
    hide CausalIds, Keep, Best, Replace, Select, EvaluateAll, CheckEligibility, CauseText, Collected, CorrelateAll;
    hide CandidateChanges, Propose, EnforceLimits, Limited, Generate;
  }

  // ----- Root causes -----

  ghost predicate Correlated(cfg: Config, ctx: Context, s: State, k: nat) {
    k <= |s.evidence|
    && s.correlations == CorrelateAll(s.changes, ctx.service, ctx.onset, s.evidence[..k], cfg.correlationThreshold, cfg.clusters)
  }

  /** Every causal id names a recent change of the incident's own service and of the verified
      component, from the 5850 seconds up to the onset, sharing a symptom with current evidence. */
  ghost predicate GenuineCauses(cfg: Config, ctx: Context, s: State, component: string, ids: seq<string>) {
    forall id | id in ids :: exists c ::
      c in s.changes && c.id == id && GenuineCause(c, ctx.service, component, ctx.onset, s.evidence, cfg.clusters)
  }

  ghost predicate Substantiated(cfg: Config, ctx: Context, s: State, r: RootCause) {
    && s.selected.Some? && s.selected.value in s.hypotheses
    && s.selected.value.status == Verified && s.selected.value.id == r.hypothesisId
    && s.selected.value.confidence == r.confidence >= cfg.confidenceThreshold
    && s.selected.value.supporting == r.supporting != []
    && Within(r.supporting, EvidenceIds(s.evidence))
    && Within(r.causalChangeIds, set x | x in s.selected.value.related)
    && GenuineCauses(cfg, ctx, s, s.selected.value.component, r.causalChangeIds)
  }

  ghost predicate Rooted(cfg: Config, ctx: Context, p: Point) {
    && (p.state.rootCause.Some? ==> Substantiated(cfg, ctx, p.state, p.state.rootCause.value))
    && (p.node in {GenerateNode, VerifyNode, CollectAdditional} ==> exists k: nat :: Correlated(cfg, ctx, p.state, k))
  }

  lemma PromotedGenuine(cfg: Config, ctx: Context, s: State, k: nat, h: Hypothesis)
    requires Correlated(cfg, ctx, s, k)
    ensures GenuineCauses(cfg, ctx, s, h.component,
              CausalIds(h, h.related, s.changes, s.correlations, EvidenceIds(s.evidence), cfg.correlationThreshold))
  {
    hide Gate, Correlate, GenuineCause;
    var ids := CausalIds(h, h.related, s.changes, s.correlations, EvidenceIds(s.evidence), cfg.correlationThreshold);
    forall id | id in ids
      ensures exists c :: c in s.changes && c.id == id && GenuineCause(c, ctx.service, h.component, ctx.onset, s.evidence, cfg.clusters)
    {
      assert Promoted(h, id, s.changes, s.correlations, EvidenceIds(s.evidence), cfg.correlationThreshold);
      PromotedChangeGenuine(cfg, ctx, s, k, h, id);
    }
  }

  lemma PromotedChangeGenuine(cfg: Config, ctx: Context, s: State, k: nat, h: Hypothesis, id: string)
    requires Correlated(cfg, ctx, s, k)
    requires Promoted(h, id, s.changes, s.correlations, EvidenceIds(s.evidence), cfg.correlationThreshold)
    ensures exists c :: c in s.changes && c.id == id && GenuineCause(c, ctx.service, h.component, ctx.onset, s.evidence, cfg.clusters)
  {
    hide Gate, GenuineCause;
    assert forall i | 0 <= i < |s.changes| :: s.correlations[i].changeId == s.changes[i].id;
    LastMatches(s.changes, s.correlations, id);
    var c := s.changes[LastChange(s.changes, id).value];
    GateImpliesGenuine(h, c, ctx.service, ctx.onset, s.evidence[..k], s.evidence, cfg.correlationThreshold, cfg.clusters);
    assert c in s.changes;
  }

  lemma VerifyRooted(cfg: Config, ctx: Context, s: State, a: Answer, k: nat)
    requires s.hypotheses != [] && Correlated(cfg, ctx, s, k)
    ensures var s' := RunVerify(cfg, s, a);
            s'.rootCause.Some? ==> Substantiated(cfg, ctx, s', s'.rootCause.value)
  {
    hide Correlated, GenuineCauses, CausalIds;
    var s' := RunVerify(cfg, s, a);
    if s'.rootCause.Some? {
      var u := s'.selected.value;
      var best := Best(s.hypotheses);
      var i :| 0 <= i < |s.hypotheses| && s.hypotheses[i] == best;
      assert s'.hypotheses == Replace(s.hypotheses, u) && s'.hypotheses[i] == u;
      assert s'.rootCause.value.causalChangeIds
          == CausalIds(u, u.related, s.changes, s.correlations, EvidenceIds(s.evidence), cfg.correlationThreshold);
      PromotedGenuine(cfg, ctx, s, k, u);
      CausesFrame(cfg, ctx, s, s', u.component, s'.rootCause.value.causalChangeIds);
    }
  }

  lemma CausesFrame(cfg: Config, ctx: Context, s: State, s': State, component: string, ids: seq<string>)
    requires GenuineCauses(cfg, ctx, s, component, ids) && s'.changes == s.changes && s'.evidence == s.evidence
    ensures GenuineCauses(cfg, ctx, s', component, ids)
  {
  }

  lemma StepRooted(cfg: Config, ctx: Context, p: Point, a: Answer)
    requires !Stopped(p) && Rooted(cfg, ctx, p) && Looping(cfg, p)
    ensures Rooted(cfg, ctx, Step(cfg, ctx, p, a))
  {
    hide Verify, Select, EvaluateAll, CheckEligibility, CauseText, Collected, Propose, EnforceLimits, Limited, Generate;
    hide CandidateChanges, CorrelateAll;
    var s := p.state;
    var q := Step(cfg, ctx, p, a);
    match p.node
    case CorrelateNode =>
      assert s.evidence[..|s.evidence|] == s.evidence;
      assert Correlated(cfg, ctx, q.state, |s.evidence|);
    case GenerateNode =>
      var k: nat :| Correlated(cfg, ctx, s, k);
      assert Correlated(cfg, ctx, q.state, k);
    case VerifyNode =>
      var k: nat :| Correlated(cfg, ctx, s, k);
      VerifyRooted(cfg, ctx, s, a, k);
      assert Correlated(cfg, ctx, q.state, k);
    case CollectAdditional =>
      var k: nat :| Correlated(cfg, ctx, s, k);
      assert q.state.evidence[..k] == s.evidence[..k];
      assert Correlated(cfg, ctx, q.state, k);
    case _ =>
  }

  // ----- Remediation -----

  ghost predicate Untouched(s: State) {
    s.eligibility.None? && s.policyResult.None? && s.allResults == [] && s.approval.None? && s.executed.None? && s.validation.None?
  }

  ghost predicate HasProposals(ctx: Context, s: State) {
    && s.proposals != [] && (forall p | p in s.proposals :: WellTyped(p))
    && (Injective(ctx.proposalIds) ==> DistinctIds(s.proposals) && DrawnFrom(s.proposals, ctx.proposalIds))
  }

  /** What the policy node chooses for a root cause. */
  function Choice(cfg: Config, ctx: Context, s: State): Option<PolicyResult> {
    if s.rootCause.None? then None
    else
      var cause := CauseText(Some(s.rootCause.value.text), s.classification);
      Limited(cfg, ctx, Select(s.proposals, cfg.policy, cause, ctx.actionIds))
  }

  lemma ChoiceFrame(cfg: Config, ctx: Context, s: State, s': State)
    requires s'.rootCause == s.rootCause && s'.classification == s.classification && s'.proposals == s.proposals
    ensures Choice(cfg, ctx, s') == Choice(cfg, ctx, s)
  {
  }

  /** The policy node's verdict: only three eligibility reasons occur, nothing is decided when
      ineligible, and an executable choice is one of the evaluated results within both limits. */
  ghost predicate Decided(cfg: Config, ctx: Context, s: State) {
    && s.eligibility in {Some(Eligible), Some(InsufficientConfidence), Some(InvestigationExhausted)}
    && (s.eligibility == Some(InvestigationExhausted) <==> s.rootCause.None?)
    && (s.eligibility == Some(Eligible) <==> s.rootCause.Some? && s.rootCause.value.confidence >= cfg.policy.minConfidence)
    && (s.eligibility != Some(Eligible) ==> s.policyResult.None? && s.allResults == [])
    && (s.eligibility == Some(Eligible) ==>
          && s.policyResult.Some? && s.policyResult == Choice(cfg, ctx, s)
          && s.allResults == EvaluateAll(s.proposals, cfg.policy, ctx.actionIds)
          && (Executable(s.policyResult.value) ==>
                && s.policyResult.value in s.allResults
                && ctx.priorAttempts < cfg.policy.maxAttempts
                && (s.policyResult.value.Allowed? ==> ctx.priorAutoExecutions < cfg.policy.maxAutoExecutions)))
  }

  /** The choice may be executed: it is Allowed, or it needed approval and got it. */
  ghost predicate Cleared(s: State) {
    && s.eligibility == Some(Eligible) && s.policyResult.Some?
    && ((s.policyResult.value.Allowed? && s.approval.None?)
        || (s.policyResult.value.ApprovalRequired? && s.approval == Some(Approve)))
  }

  ghost predicate Remediating(cfg: Config, ctx: Context, p: Point) {
    var s := p.state;
    match p.node
    case PolicyNode => HasProposals(ctx, s) && Untouched(s)
    case AwaitApproval =>
      && HasProposals(ctx, s) && Decided(cfg, ctx, s) && s.eligibility == Some(Eligible)
      && s.policyResult.value.ApprovalRequired? && s.approval.None? && s.executed.None? && s.validation.None?
    case ExecuteNode => HasProposals(ctx, s) && Decided(cfg, ctx, s) && Cleared(s) && s.executed.None? && s.validation.None?
    case ValidateNode => HasProposals(ctx, s) && Decided(cfg, ctx, s) && Cleared(s) && s.executed.Some? && s.validation.None?
    case FinalizeNode => Concluded(cfg, ctx, s)
    case End => Concluded(cfg, ctx, s)
    case RoutingError => false
    case _ => Untouched(s)
  }

  ghost predicate Concluded(cfg: Config, ctx: Context, s: State) {
    && HasProposals(ctx, s) && Decided(cfg, ctx, s)
    && (s.executed.Some? ==> Cleared(s))
    && (s.executed.None? ==> s.approval != Some(Approve) && (s.policyResult.Some? ==> !s.policyResult.value.Allowed?))
    && (s.validation.Some? <==> s.executed == Some(true))
    && (s.approval.Some? <==> s.policyResult.Some? && s.policyResult.value.ApprovalRequired?)
  }

  lemma EligibilityReasons(cfg: Config, ctx: Context, s: State)
    requires s.rootCause.Some? || s.iteration >= cfg.maxIterations
    requires s.rootCause.Some? ==> Substantiated(cfg, ctx, s, s.rootCause.value)
    ensures var r := CheckEligibility(s.rootCause, s.selected, s.evidence, s.iteration, cfg.maxIterations, cfg.policy.minConfidence);
            && r in {Eligible, InsufficientConfidence, InvestigationExhausted}
            && (r == InvestigationExhausted <==> s.rootCause.None?)
            && (r == Eligible <==> s.rootCause.Some? && s.rootCause.value.confidence >= cfg.policy.minConfidence)
  {
    hide GenuineCauses;
  }

  /** An executable choice that passed the limits is the selection itself. */
  lemma LimitedExecutable(cfg: Config, ctx: Context, ps: seq<Proposal>, cause: string)
    requires ps != []
    ensures var r := Limited(cfg, ctx, Select(ps, cfg.policy, cause, ctx.actionIds));
            && r.Some?
            && (Executable(r.value) ==>
                  && r.value in EvaluateAll(ps, cfg.policy, ctx.actionIds)
                  && ctx.priorAttempts < cfg.policy.maxAttempts
                  && (r.value.Allowed? ==> ctx.priorAutoExecutions < cfg.policy.maxAutoExecutions))
  {
    hide KeyOrder, EvaluatePolicy;
    var chosen := Select(ps, cfg.policy, cause, ctx.actionIds);
    var cs := Candidates(EvaluateAll(ps, cfg.policy, ctx.actionIds));
    if cs != [] {
      SortMember(cs, KeyOrder(cause));
    }
  }

  lemma SortMember(cs: seq<Candidate>, leq: (Candidate, Candidate) -> bool)
    requires cs != []
    ensures Sorting.Sort(cs, leq)[0] in cs
  {
    Sorting.SameMembers(cs, Sorting.Sort(cs, leq), Sorting.Sort(cs, leq)[0]);
  }

  lemma PolicyDecides(cfg: Config, ctx: Context, s: State)
    requires HasProposals(ctx, s) && Untouched(s)
    requires s.rootCause.Some? || s.iteration >= cfg.maxIterations
    requires s.rootCause.Some? ==> Substantiated(cfg, ctx, s, s.rootCause.value)
    ensures Decided(cfg, ctx, RunPolicy(cfg, ctx, s))
    ensures Remediating(cfg, ctx, Point(AfterPolicy(RunPolicy(cfg, ctx, s)), RunPolicy(cfg, ctx, s)))
  {
    hide Select, EvaluateAll, CheckEligibility, CauseText, Limited, Substantiated, DistinctIds, DrawnFrom, WellTyped, Injective;
    EligibilityReasons(cfg, ctx, s);
    LimitedExecutable(cfg, ctx, s.proposals,
      CauseText(if s.rootCause.Some? then Some(s.rootCause.value.text) else None, s.classification));
  }

  lemma StepRemediating(cfg: Config, ctx: Context, p: Point, a: Answer)
    requires !Stopped(p) && Remediating(cfg, ctx, p) && Rooted(cfg, ctx, p) && Looping(cfg, p)
    ensures Remediating(cfg, ctx, Step(cfg, ctx, p, a))
  {
    hide Verify, Select, EvaluateAll, CheckEligibility, CauseText, Collected, EnforceLimits, Limited, Generate;
    hide CandidateChanges, CorrelateAll, Propose, DistinctIds, DrawnFrom, WellTyped, Injective, Substantiated;
    if p.node in {ExecuteNode, ValidateNode, FinalizeNode} {
      ChoiceFrame(cfg, ctx, p.state, Step(cfg, ctx, p, a).state);
      hide Choice;
    }
    match p.node
    case PolicyNode => PolicyDecides(cfg, ctx, p.state);
    case ProposeNode =>
      if Injective(ctx.proposalIds) {
        ProposalIdsDistinct(a.actions, ctx.proposalIds);
      }
    case _ =>
  }

  // ----- Together -----

  ghost predicate Inv(cfg: Config, ctx: Context, p: Point) {
    Referential(p) && Looping(cfg, p) && Rooted(cfg, ctx, p) && Remediating(cfg, ctx, p)
  }

  lemma StepKeepsInv(cfg: Config, ctx: Context, p: Point, a: Answer)
    requires !Stopped(p) && Inv(cfg, ctx, p)
    ensures Inv(cfg, ctx, Step(cfg, ctx, p, a))
    ensures p.state.evidence <= Step(cfg, ctx, p, a).state.evidence
  {
    hide Step, Referential, Rooted;
    StepReferential(cfg, ctx, p, a);
    StepRooted(cfg, ctx, p, a);
    StepRemediating(cfg, ctx, p, a);
    StepLooping(cfg, ctx, p, a);
  }

  lemma ResumeKeepsInv(cfg: Config, ctx: Context, s: State, d: Decision)
    requires Inv(cfg, ctx, Point(AwaitApproval, s))
    ensures Inv(cfg, ctx, Resume(s, d))
  {
    hide DistinctIds, DrawnFrom, WellTyped, EvaluateAll, Choice;
    var q := Resume(s, d);
    ChoiceFrame(cfg, ctx, s, q.state);
    assert s.rootCause.Some? ==>
        GenuineCauses(cfg, ctx, q.state, s.selected.value.component, s.rootCause.value.causalChangeIds);
    assert forall h :: GroundedState(s, h) ==> GroundedState(q.state, h);
  }

  lemma InitialInv(cfg: Config, ctx: Context)
    ensures Inv(cfg, ctx, Point(ClassifyIncident, INITIAL))
  {
  }
}
