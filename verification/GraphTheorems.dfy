/** Whole-run theorems about the investigation graph. */
module GraphTheorems {
  import opened Wrappers
  import opened Domain
  import opened Causality
  import opened Hypotheses
  import opened Verification
  import opened Policy
  import opened Proposals
  import opened Graph
  import opened GraphInvariants

  const START := Point(ClassifyIncident, INITIAL)

  lemma {:induction false} TraceKeepsInv(cfg: Config, ctx: Context, p: Point, oracle: nat -> Answer, n: nat)
    requires Inv(cfg, ctx, p)
    ensures forall i | 0 <= i < |Trace(cfg, ctx, p, oracle, n)| :: Inv(cfg, ctx, Trace(cfg, ctx, p, oracle, n)[i])
    decreases StepsLeft(cfg, p)
  {
    hide Inv, Step, StepsLeft;
    if Stopped(p) {
    } else {
      StepDecreases(cfg, ctx, p, oracle(n));
      StepKeepsInv(cfg, ctx, p, oracle(n));
      TraceKeepsInv(cfg, ctx, Step(cfg, ctx, p, oracle(n)), oracle, n + 1);
    }
  }

  /** Evidence once collected never disappears: earlier evidence is a prefix of later evidence. */
  lemma {:induction false} EvidenceIsAppendOnly(cfg: Config, ctx: Context, p: Point, oracle: nat -> Answer, n: nat, i: nat, j: nat)
    requires Inv(cfg, ctx, p) && i <= j < |Trace(cfg, ctx, p, oracle, n)|
    ensures Trace(cfg, ctx, p, oracle, n)[i].state.evidence <= Trace(cfg, ctx, p, oracle, n)[j].state.evidence
    decreases StepsLeft(cfg, p)
  {
    hide Inv, Step, StepsLeft;
    if !Stopped(p) && j > 0 {
      StepDecreases(cfg, ctx, p, oracle(n));
      StepKeepsInv(cfg, ctx, p, oracle(n));
      EvidenceIsAppendOnly(cfg, ctx, Step(cfg, ctx, p, oracle(n)), oracle, n + 1, if i == 0 then 0 else i - 1, j - 1);
    }
  }

  /** At every point of every run each hypothesis refers only to evidence, changes and incidents that
      exist, whatever the language model wrote. */
  lemma HypothesesAlwaysGrounded(cfg: Config, ctx: Context, oracle: nat -> Answer, i: nat, h: Hypothesis)
    requires i < |Trace(cfg, ctx, START, oracle, 0)|
    requires h in Trace(cfg, ctx, START, oracle, 0)[i].state.hypotheses
    ensures var s := Trace(cfg, ctx, START, oracle, 0)[i].state;
            Grounded(h, EvidenceIds(s.evidence), ChangeIds(s.changes), set x | x in s.similar)
  {
    hide Looping, Rooted, Remediating, Trace;
    InitialInv(cfg, ctx);
    TraceKeepsInv(cfg, ctx, START, oracle, 0);
    assert Inv(cfg, ctx, Trace(cfg, ctx, START, oracle, 0)[i]);
    assert GroundedState(Trace(cfg, ctx, START, oracle, 0)[i].state, h);
  }

  // ----- Termination and the loop bound -----

  function Visits(node: Node, t: seq<Point>): nat {
    if t == [] then 0 else (if t[0].node == node then 1 else 0) + Visits(node, t[1..])
  }

  /** The loop spends the iterations left, one per collection. */
  lemma {:induction false} CollectionsLeft(cfg: Config, ctx: Context, p: Point, oracle: nat -> Answer, n: nat)
    requires Inv(cfg, ctx, p)
    ensures Visits(CollectAdditional, Trace(cfg, ctx, p, oracle, n)) <= if Late(p.node) then 0 else Remaining(cfg, p.state)
    decreases StepsLeft(cfg, p)
  {
    hide StepsLeft, Referential, Rooted, Remediating, Step;
    if Stopped(p) {
    } else {
      var q := Step(cfg, ctx, p, oracle(n));
      StepDecreases(cfg, ctx, p, oracle(n));
      StepKeepsInv(cfg, ctx, p, oracle(n));
      CollectionsLeft(cfg, ctx, q, oracle, n + 1);
      StepSpends(cfg, ctx, p, oracle(n));
      assert Trace(cfg, ctx, p, oracle, n) == [p] + Trace(cfg, ctx, q, oracle, n + 1);
    }
  }

  lemma StepSpends(cfg: Config, ctx: Context, p: Point, a: Answer)
    requires !Stopped(p) && Looping(cfg, p)
    ensures var q := Step(cfg, ctx, p, a);
            && (Late(p.node) ==> q.node == RoutingError || Late(q.node))
            && q.state.iteration == p.state.iteration + (if p.node == CollectAdditional then 1 else 0)
  {
    hide Verify, Select, EvaluateAll, Choice, CheckEligibility, CauseText, Telemetry.Collected, CorrelateAll, CandidateChanges;
    hide Propose, Generate, EnforceLimits, Limited;
  }

  /** Every run stops, at END or at the approval pause, within 13 + 3(max - 1) nodes, and asks for more
      telemetry at most max - 1 times. */
  lemma RunsAreBounded(cfg: Config, ctx: Context, oracle: nat -> Answer)
    ensures var t := Trace(cfg, ctx, START, oracle, 0);
            var extra := if cfg.maxIterations > 1 then cfg.maxIterations - 1 else 0;
            && t[|t| - 1].node in {AwaitApproval, End}
            && |t| <= 14 + 3 * extra
            && Visits(CollectAdditional, t) <= extra
  {
    hide Referential, Looping, Rooted, Trace;
    InitialInv(cfg, ctx);
    TraceKeepsInv(cfg, ctx, START, oracle, 0);
    CollectionsLeft(cfg, ctx, START, oracle, 0);
    var t := Trace(cfg, ctx, START, oracle, 0);
    assert Inv(cfg, ctx, t[|t| - 1]);
  }

  /** Proposals are made only with a root cause or with the iterations spent; so the third exit of
      `should_continue_investigation`, no missing queries, never decides. */
  lemma LoopExits(cfg: Config, ctx: Context, oracle: nat -> Answer, i: nat)
    requires i < |Trace(cfg, ctx, START, oracle, 0)|
    ensures var p := Trace(cfg, ctx, START, oracle, 0)[i];
            && (p.node == ProposeNode ==> p.state.rootCause.Some? || p.state.iteration >= cfg.maxIterations)
            && (p.node == VerifyNode ==> forall a ::
                  var q := Step(cfg, ctx, p, a);
                  q.node == CollectAdditional <==> q.state.rootCause.None? && q.state.iteration < cfg.maxIterations)
  {
    hide Referential, Rooted, Remediating, Trace, CausalIds, Keep, Best, Replace;
    InitialInv(cfg, ctx);
    TraceKeepsInv(cfg, ctx, START, oracle, 0);
    assert Inv(cfg, ctx, Trace(cfg, ctx, START, oracle, 0)[i]);
  }

  // ----- Unreachable errors -----

  lemma NodeIsLegal(cfg: Config, ctx: Context, p: Point)
    requires Inv(cfg, ctx, p)
    ensures p.node != RoutingError
    ensures p.state.eligibility.Some? ==> p.state.eligibility.value in {Eligible, InsufficientConfidence, InvestigationExhausted}
  {
    hide Referential, Looping, Rooted, HasProposals, EvaluateAll, Choice;
  }

  /** None of the three routing-invariant exceptions is ever raised, in a run or after a resume. */
  lemma RoutingErrorsUnreachable(cfg: Config, ctx: Context, p: Point, oracle: nat -> Answer, n: nat, i: nat)
    requires Inv(cfg, ctx, p) && i < |Trace(cfg, ctx, p, oracle, n)|
    ensures Trace(cfg, ctx, p, oracle, n)[i].node != RoutingError
  {
    hide Inv, Trace;
    TraceKeepsInv(cfg, ctx, p, oracle, n);
    NodeIsLegal(cfg, ctx, Trace(cfg, ctx, p, oracle, n)[i]);
  }

  /** NO_ROOT_CAUSE, ROOT_CAUSE_UNVERIFIED and INSUFFICIENT_EVIDENCE never come out of the gate. */
  lemma OnlyThreeEligibilityReasons(cfg: Config, ctx: Context, oracle: nat -> Answer, i: nat)
    requires i < |Trace(cfg, ctx, START, oracle, 0)|
    requires Trace(cfg, ctx, START, oracle, 0)[i].state.eligibility.Some?
    ensures Trace(cfg, ctx, START, oracle, 0)[i].state.eligibility.value in {Eligible, InsufficientConfidence, InvestigationExhausted}
  {
    hide Inv, Trace;
    InitialInv(cfg, ctx);
    TraceKeepsInv(cfg, ctx, START, oracle, 0);
    NodeIsLegal(cfg, ctx, Trace(cfg, ctx, START, oracle, 0)[i]);
  }

  // ----- Causes -----

  /** Whatever the language model returns, every causal id of a root cause names a recent change of the
      incident's service and of the verified component, made in the 5850 seconds up to the onset, that
      shares a symptom cluster with current evidence. */
  lemma CausalChangesAreGenuine(cfg: Config, ctx: Context, oracle: nat -> Answer, i: nat, id: string)
    requires i < |Trace(cfg, ctx, START, oracle, 0)|
    requires Trace(cfg, ctx, START, oracle, 0)[i].state.rootCause.Some?
    requires id in Trace(cfg, ctx, START, oracle, 0)[i].state.rootCause.value.causalChangeIds
    ensures var s := Trace(cfg, ctx, START, oracle, 0)[i].state;
            s.selected.Some? && exists c, e ::
              && c in s.changes && c.id == id
              && Text.Lower(c.service) == Text.Lower(ctx.service) == Text.Lower(s.selected.value.component)
              && ctx.onset - 5850.0 <= c.timestamp <= ctx.onset
              && e in s.evidence && SharesCluster(c, e, cfg.clusters)
  {
    hide Referential, Looping, Remediating, Trace, SharesCluster;
    InitialInv(cfg, ctx);
    TraceKeepsInv(cfg, ctx, START, oracle, 0);
    var s := Trace(cfg, ctx, START, oracle, 0)[i].state;
    assert Inv(cfg, ctx, Trace(cfg, ctx, START, oracle, 0)[i]);
    assert GenuineCauses(cfg, ctx, s, s.selected.value.component, s.rootCause.value.causalChangeIds);
    var c :| c in s.changes && c.id == id
          && GenuineCause(c, ctx.service, s.selected.value.component, ctx.onset, s.evidence, cfg.clusters);
    var e :| e in s.evidence && SharesCluster(c, e, cfg.clusters);
  }

  // ----- Executions and recovery -----

  /** The executor has not been called so far. */
  ghost predicate NotExecuted(p: Point) {
    && p.node !in {ValidateNode, RoutingError}
    && p.state.executed.None? && p.state.validation.None?
  }

  lemma StepNotExecuted(cfg: Config, ctx: Context, p: Point, a: Answer)
    requires !Stopped(p) && Inv(cfg, ctx, p) && NotExecuted(p) && p.node != ExecuteNode
    ensures NotExecuted(Step(cfg, ctx, p, a))
  {
    hide Verify, Select, EvaluateAll, Choice, CheckEligibility, CauseText, Telemetry.Collected, CorrelateAll, CandidateChanges;
    hide Propose, Generate, EnforceLimits, Limited, Referential, Looping, Rooted, HasProposals, Decided;
  }

  lemma Validates(cfg: Config, ctx: Context, q: Point, a: Answer)
    requires Inv(cfg, ctx, q) && q.node == ValidateNode
    ensures Step(cfg, ctx, q, a) == Point(FinalizeNode, q.state.(validation :=
              if q.state.executed == Some(true) then Some(a.recovered == Some(true)) else None))
  {
    hide Referential, Rooted, Looping, HasProposals, Decided;
  }

  lemma FinalizeEnds(cfg: Config, ctx: Context, f: Point, oracle: nat -> Answer, n: nat)
    requires f.node == FinalizeNode
    ensures Trace(cfg, ctx, f, oracle, n) == [f, Point(End, f.state)]
  {
    var e := Step(cfg, ctx, f, oracle(n));
    assert Trace(cfg, ctx, e, oracle, n + 1) == [e];
    assert [f] + [e] == [f, e];
  }

  /** From the validation node a run is two nodes from its end and keeps the executor's verdict. */
  lemma AfterExecution(cfg: Config, ctx: Context, q: Point, oracle: nat -> Answer, n: nat)
    requires Inv(cfg, ctx, q) && q.node == ValidateNode
    ensures var t := Trace(cfg, ctx, q, oracle, n);
            && |t| == 3 && t[0].node == ValidateNode && t[1].node == FinalizeNode && t[2].node == End
            && t[2].state == q.state.(validation :=
                 if q.state.executed == Some(true) then Some(oracle(n).recovered == Some(true)) else None)
  {
    hide Inv, Step, StepsLeft;
    Validates(cfg, ctx, q, oracle(n));
    FinalizeEnds(cfg, ctx, Step(cfg, ctx, q, oracle(n)), oracle, n + 1);
  }

  lemma {:induction false} NoVisits(node: Node, t: seq<Point>)
    requires forall i | 0 <= i < |t| :: t[i].node != node
    ensures Visits(node, t) == 0
  {
    if t == [] {
    } else {
      NoVisits(node, t[1..]);
    }
  }

  lemma VisitsCons(node: Node, p: Point, t: seq<Point>)
    ensures Visits(node, [p] + t) == (if p.node == node then 1 else 0) + Visits(node, t)
  {
    assert ([p] + t)[1..] == t;
  }

  lemma Executes(cfg: Config, ctx: Context, p: Point, a: Answer)
    requires Inv(cfg, ctx, p) && p.node == ExecuteNode
    ensures Step(cfg, ctx, p, a) == Point(ValidateNode, p.state.(executed := Some(a.executorSucceeded)))
  {
    hide Referential, Looping, Rooted, HasProposals, Decided;
  }

  /** A run calls the executor at most once, and its final state says whether it did. */
  lemma {:induction false} ExecutorCalls(cfg: Config, ctx: Context, p: Point, oracle: nat -> Answer, n: nat)
    requires Inv(cfg, ctx, p) && NotExecuted(p)
    ensures Visits(ExecuteNode, Trace(cfg, ctx, p, oracle, n))
         == if Final(cfg, ctx, p, oracle, n).state.executed.Some? then 1 else 0
    decreases StepsLeft(cfg, p)
  {
    hide Inv, StepsLeft, Visits, Step;
    if Stopped(p) {
      NoVisits(ExecuteNode, [p]);
    } else {
      var q := Step(cfg, ctx, p, oracle(n));
      var t := Trace(cfg, ctx, q, oracle, n + 1);
      StepDecreases(cfg, ctx, p, oracle(n));
      StepKeepsInv(cfg, ctx, p, oracle(n));
      VisitsCons(ExecuteNode, p, t);
      if p.node == ExecuteNode {
        Executes(cfg, ctx, p, oracle(n));
        AfterExecution(cfg, ctx, q, oracle, n + 1);
        NoVisits(ExecuteNode, t);
      } else {
        StepNotExecuted(cfg, ctx, p, oracle(n));
        ExecutorCalls(cfg, ctx, q, oracle, n + 1);
      }
    }
  }

  /** The executor succeeded at node `i` and the validator then confirmed recovery. */
  ghost predicate RecoveredAt(t: seq<Point>, oracle: nat -> Answer, n: nat, i: nat) {
    i < |t| && t[i].node == ExecuteNode && oracle(n + i).executorSucceeded && oracle(n + i + 1).recovered == Some(true)
  }

  ghost predicate Recovered(t: seq<Point>, oracle: nat -> Answer, n: nat) {
    exists i: nat :: RecoveredAt(t, oracle, n, i)
  }

  lemma RecoveredCons(p: Point, t: seq<Point>, oracle: nat -> Answer, n: nat)
    ensures Recovered([p] + t, oracle, n) <==> RecoveredAt([p] + t, oracle, n, 0) || Recovered(t, oracle, n + 1)
  {
    var m := n + 1;
    if i: nat :| RecoveredAt([p] + t, oracle, n, i) {
      if i > 0 {
        assert RecoveredAt(t, oracle, m, i - 1);
      }
    }
    if i: nat :| RecoveredAt(t, oracle, m, i) {
      assert RecoveredAt([p] + t, oracle, n, i + 1);
    }
  }

  /** A run ends with a passed validation exactly when the executor succeeded and the validator said yes
      right after it. */
  lemma {:induction false} ValidationPassedIff(cfg: Config, ctx: Context, p: Point, oracle: nat -> Answer, n: nat)
    requires Inv(cfg, ctx, p) && NotExecuted(p)
    ensures Final(cfg, ctx, p, oracle, n).state.validation == Some(true) <==> Recovered(Trace(cfg, ctx, p, oracle, n), oracle, n)
    decreases StepsLeft(cfg, p)
  {
    hide Inv, StepsLeft, Step, Recovered;
    if Stopped(p) {
      NeverRecovered([p], oracle, n);
    } else {
      var q := Step(cfg, ctx, p, oracle(n));
      var t := Trace(cfg, ctx, q, oracle, n + 1);
      StepDecreases(cfg, ctx, p, oracle(n));
      StepKeepsInv(cfg, ctx, p, oracle(n));
      RecoveredCons(p, t, oracle, n);
      if p.node == ExecuteNode {
        Executes(cfg, ctx, p, oracle(n));
        AfterExecution(cfg, ctx, q, oracle, n + 1);
        NeverRecovered(t, oracle, n + 1);
      } else {
        StepNotExecuted(cfg, ctx, p, oracle(n));
        ValidationPassedIff(cfg, ctx, q, oracle, n + 1);
      }
    }
  }

  lemma NeverRecovered(t: seq<Point>, oracle: nat -> Answer, n: nat)
    requires forall i | 0 <= i < |t| :: t[i].node != ExecuteNode
    ensures !Recovered(t, oracle, n)
  {
  }

  // ----- Where runs and resumes end -----

  /** Only an operator's decision sets the approval field. */
  lemma {:induction false} ApprovalUntouched(cfg: Config, ctx: Context, p: Point, oracle: nat -> Answer, n: nat)
    ensures Final(cfg, ctx, p, oracle, n).state.approval == p.state.approval
    decreases StepsLeft(cfg, p)
  {
    hide StepsLeft, Step;
    if Stopped(p) {
    } else {
      StepDecreases(cfg, ctx, p, oracle(n));
      StepKeepsApproval(cfg, ctx, p, oracle(n));
      ApprovalUntouched(cfg, ctx, Step(cfg, ctx, p, oracle(n)), oracle, n + 1);
    }
  }

  lemma StepKeepsApproval(cfg: Config, ctx: Context, p: Point, a: Answer)
    requires !Stopped(p)
    ensures Step(cfg, ctx, p, a).state.approval == p.state.approval
  {
    hide Verify, Select, EvaluateAll, Choice, CheckEligibility, CauseText, Telemetry.Collected, CorrelateAll, CandidateChanges;
    hide Propose, Generate, EnforceLimits, Limited;
  }

  lemma PausedFacts(cfg: Config, ctx: Context, s: State)
    requires Inv(cfg, ctx, Point(AwaitApproval, s))
    ensures s.proposals != [] && s.validation.None? && s.executed.None? && s.approval.None?
    ensures s.policyResult.Some? && s.policyResult.value.ApprovalRequired?
  {
    hide Referential, Looping, Rooted, EvaluateAll, Choice;
  }

  /** A resumed thread never pauses again.  Approval runs the executor once; anything else runs it not
      at all. */
  lemma ResumeEnds(cfg: Config, ctx: Context, s: State, d: Decision, oracle: nat -> Answer)
    requires Inv(cfg, ctx, Point(AwaitApproval, s))
    ensures var t := Trace(cfg, ctx, Resume(s, d), oracle, 0);
            var done := oracle(0).executorSucceeded;
            && t[|t| - 1].node == End
            && Visits(ExecuteNode, t) == (if d == Approve then 1 else 0)
            && t[|t| - 1].state ==
                 if d == Approve then s.(approval := Some(d), executed := Some(done),
                                         validation := if done then Some(oracle(1).recovered == Some(true)) else None)
                 else s.(approval := Some(d))
  {
    hide Inv, Visits, Step, StepsLeft;
    PausedFacts(cfg, ctx, s);
    ResumeKeepsInv(cfg, ctx, s, d);
    var q := Resume(s, d);
    if d == Approve {
      var v := Step(cfg, ctx, q, oracle(0));
      StepKeepsInv(cfg, ctx, q, oracle(0));
      Executes(cfg, ctx, q, oracle(0));
      AfterExecution(cfg, ctx, v, oracle, 1);
      var t := Trace(cfg, ctx, v, oracle, 1);
      assert Trace(cfg, ctx, q, oracle, 0) == [q] + t;
      VisitsCons(ExecuteNode, q, t);
      NoVisits(ExecuteNode, t);
    } else {
      FinalizeEnds(cfg, ctx, q, oracle, 0);
      NoVisits(ExecuteNode, [q, Point(End, q.state)]);
    }
  }

  /** Where a run from the start ends is decided by the policy alone: it executes exactly an Allowed
      choice, pauses exactly on one that needs approval, and otherwise ends without executing. */
  lemma RunOutcomeIff(cfg: Config, ctx: Context, oracle: nat -> Answer)
    ensures var q := Final(cfg, ctx, START, oracle, 0);
            && q.node in {AwaitApproval, End}
            && (q.state.executed.Some? <==> q.state.policyResult.Some? && q.state.policyResult.value.Allowed?)
            && (q.node == AwaitApproval <==> q.state.policyResult.Some? && q.state.policyResult.value.ApprovalRequired?)
  {
    hide Trace, HasProposals, EvaluateAll, Choice, Referential, Looping, Rooted;
    InitialInv(cfg, ctx);
    TraceKeepsInv(cfg, ctx, START, oracle, 0);
    RunsAreBounded(cfg, ctx, oracle);
    ApprovalUntouched(cfg, ctx, START, oracle, 0);
    var t := Trace(cfg, ctx, START, oracle, 0);
    assert Inv(cfg, ctx, t[|t| - 1]);
  }

  /** An executable verdict of the policy node is the best-ranked executable result of all it evaluated. */
  lemma PolicyChoosesLeast(cfg: Config, ctx: Context, s: State, r: PolicyResult)
    requires var s' := RunPolicy(cfg, ctx, s);
             s'.policyResult.Some? && Executable(s'.policyResult.value) && r in s'.allResults && Executable(r)
    ensures s.rootCause.Some?
    ensures KeyLeq(CauseText(Some(s.rootCause.value.text), s.classification), RunPolicy(cfg, ctx, s).policyResult.value, r)
  {
    hide CauseText, KeyLeq, EvaluatePolicy;
    var cause := CauseText(if s.rootCause.Some? then Some(s.rootCause.value.text) else None, s.classification);
    var i :| 0 <= i < |s.proposals| && r == EvaluatePolicy(s.proposals[i], cfg.policy, ctx.actionIds);
    SelectionIsLeast(s.proposals, cfg.policy, cause, ctx.actionIds);
    LimitsIff(Select(s.proposals, cfg.policy, cause, ctx.actionIds).value, ctx.priorAttempts, ctx.priorAutoExecutions, cfg.policy);
  }

  lemma FinalStep(cfg: Config, ctx: Context, p: Point, oracle: nat -> Answer, n: nat)
    requires !Stopped(p)
    ensures Final(cfg, ctx, p, oracle, n) == Final(cfg, ctx, Step(cfg, ctx, p, oracle(n)), oracle, n + 1)
  {
    hide Step, StepsLeft;
    StepDecreases(cfg, ctx, p, oracle(n));
  }

  /** Past the proposal node the proposals stay. */
  lemma {:induction false} ProposalsStay(cfg: Config, ctx: Context, p: Point, oracle: nat -> Answer, n: nat)
    requires p.node in {PolicyNode, AwaitApproval, ExecuteNode, ValidateNode, FinalizeNode, End, RoutingError}
    ensures Final(cfg, ctx, p, oracle, n).state.proposals == p.state.proposals
    decreases StepsLeft(cfg, p)
  {
    hide StepsLeft, Step;
    if Stopped(p) {
    } else {
      StepDecreases(cfg, ctx, p, oracle(n));
      StepKeepsProposals(cfg, ctx, p, oracle(n));
      FinalStep(cfg, ctx, p, oracle, n);
      ProposalsStay(cfg, ctx, Step(cfg, ctx, p, oracle(n)), oracle, n + 1);
    }
  }

  lemma StepKeepsProposals(cfg: Config, ctx: Context, p: Point, a: Answer)
    requires p.node in {PolicyNode, ExecuteNode, ValidateNode, FinalizeNode}
    ensures var q := Step(cfg, ctx, p, a);
            && q.state.proposals == p.state.proposals
            && q.node in {AwaitApproval, ExecuteNode, ValidateNode, FinalizeNode, End, RoutingError}
  {
    hide Select, EvaluateAll, Choice, CheckEligibility, CauseText, Limited;
  }

  /** A run's proposals are what the proposal node made of the answer it got. */
  lemma {:induction false} ProposalsComeFromAnswer(cfg: Config, ctx: Context, p: Point, oracle: nat -> Answer, n: nat)
    requires Inv(cfg, ctx, p) && (!Late(p.node) || p.node == ProposeNode)
    ensures exists k: nat :: ProposedAt(cfg, ctx, p, oracle, n, k)
    decreases StepsLeft(cfg, p)
  {
    hide Inv, Step, StepsLeft, Trace, Final, ProposedAt;
    NotYetStopped(cfg, ctx, p);
    if p.node == ProposeNode {
      ProposedHere(cfg, ctx, p, oracle, n);
    } else {
      var (q, m) := (Step(cfg, ctx, p, oracle(n)), n + 1);
      StepDecreases(cfg, ctx, p, oracle(n));
      StepKeepsInv(cfg, ctx, p, oracle(n));
      EarlyGoesOn(cfg, ctx, p, oracle(n));
      ProposalsComeFromAnswer(cfg, ctx, q, oracle, m);
      var k: nat :| ProposedAt(cfg, ctx, q, oracle, m, k);
      ProposedLater(cfg, ctx, p, oracle, n, k);
    }
  }

  lemma ProposedHere(cfg: Config, ctx: Context, p: Point, oracle: nat -> Answer, n: nat)
    requires p.node == ProposeNode
    ensures ProposedAt(cfg, ctx, p, oracle, n, 0)
  {
    hide Step, StepsLeft, Trace, Final;
    FinalStep(cfg, ctx, p, oracle, n);
    TraceStep(cfg, ctx, p, oracle, n);
    Proposes(cfg, ctx, p, oracle(n));
    ProposalsStay(cfg, ctx, Step(cfg, ctx, p, oracle(n)), oracle, n + 1);
  }

  lemma ProposedLater(cfg: Config, ctx: Context, p: Point, oracle: nat -> Answer, n: nat, k: nat)
    requires !Stopped(p) && ProposedAt(cfg, ctx, Step(cfg, ctx, p, oracle(n)), oracle, n + 1, k)
    ensures ProposedAt(cfg, ctx, p, oracle, n, k + 1)
  {
    hide Step, StepsLeft, Trace, Final;
    FinalStep(cfg, ctx, p, oracle, n);
    TraceStep(cfg, ctx, p, oracle, n);
  }

  ghost predicate ProposedAt(cfg: Config, ctx: Context, p: Point, oracle: nat -> Answer, n: nat, k: nat) {
    && k < |Trace(cfg, ctx, p, oracle, n)| && Trace(cfg, ctx, p, oracle, n)[k].node == ProposeNode
    && Final(cfg, ctx, p, oracle, n).state.proposals == Propose(oracle(n + k).actions, ctx.proposalIds)
  }

  lemma NotYetStopped(cfg: Config, ctx: Context, p: Point)
    requires Inv(cfg, ctx, p) && (!Late(p.node) || p.node == ProposeNode)
    ensures !Stopped(p)
  {
    hide Referential, Looping, Rooted;
  }

  lemma Proposes(cfg: Config, ctx: Context, p: Point, a: Answer)
    requires p.node == ProposeNode
    ensures Step(cfg, ctx, p, a) == Point(PolicyNode, p.state.(proposals := Propose(a.actions, ctx.proposalIds)))
  {
  }

  lemma EarlyGoesOn(cfg: Config, ctx: Context, p: Point, a: Answer)
    requires !Stopped(p) && !Late(p.node)
    ensures var q := Step(cfg, ctx, p, a); !Late(q.node) || q.node == ProposeNode
  {
    hide Verify, Generate, CandidateChanges, CorrelateAll, Telemetry.Collected;
  }

  // ----- What the answers make of a run -----

  lemma TraceStep(cfg: Config, ctx: Context, p: Point, oracle: nat -> Answer, n: nat)
    requires !Stopped(p)
    ensures Trace(cfg, ctx, p, oracle, n) == [p] + Trace(cfg, ctx, Step(cfg, ctx, p, oracle(n)), oracle, n + 1)
  {
    hide Step, StepsLeft;
    StepDecreases(cfg, ctx, p, oracle(n));
  }

  /** Everything the first three nodes found. */
  function FirstEvidence(oracle: nat -> Answer): seq<Evidence> {
    oracle(0).evidence + oracle(1).evidence + oracle(2).evidence
  }

  lemma FirstSteps(cfg: Config, ctx: Context, oracle: nat -> Answer) returns (ps: seq<Point>)
    ensures |ps| == 7 && ps[0] == START
    ensures forall i | 0 <= i < 6 :: !Stopped(ps[i]) && ps[i + 1] == Step(cfg, ctx, ps[i], oracle(i))
    ensures var cs := CorrelateAll(oracle(4).changes, ctx.service, ctx.onset, FirstEvidence(oracle), cfg.correlationThreshold, cfg.clusters);
            ps[6] == Point(GenerateNode, INITIAL.(classification := oracle(0).classification, evidence := FirstEvidence(oracle),
                                                  similar := oracle(3).similar, changes := oracle(4).changes,
                                                  correlations := cs, candidates := CandidateChanges(oracle(4).changes, cs)))
  {
    hide CorrelateAll, CandidateChanges;
    assert [] + oracle(0).evidence == oracle(0).evidence;
    var p1 := Step(cfg, ctx, START, oracle(0));
    var p2 := Step(cfg, ctx, p1, oracle(1));
    var p3 := Step(cfg, ctx, p2, oracle(2));
    var p4 := Step(cfg, ctx, p3, oracle(3));
    var p5 := Step(cfg, ctx, p4, oracle(4));
    ps := [START, p1, p2, p3, p4, p5, Step(cfg, ctx, p5, oracle(5))];
  }

  lemma {:induction false} TraceFollows(cfg: Config, ctx: Context, ps: seq<Point>, oracle: nat -> Answer, n: nat)
    requires ps != [] && forall i | 0 <= i < |ps| - 1 :: !Stopped(ps[i]) && ps[i + 1] == Step(cfg, ctx, ps[i], oracle(n + i))
    ensures ps <= Trace(cfg, ctx, ps[0], oracle, n)
  {
    hide Step, StepsLeft;
    if |ps| == 1 {
    } else {
      var (rest, m) := (ps[1..], n + 1);
      assert ps[0 + 1] == Step(cfg, ctx, ps[0], oracle(n + 0));
      forall i | 0 <= i < |rest| - 1 ensures !Stopped(rest[i]) && rest[i + 1] == Step(cfg, ctx, rest[i], oracle(m + i)) {
        var k := i + 1;
        assert ps[k + 1] == Step(cfg, ctx, ps[k], oracle(n + k));
      }
      TraceFollows(cfg, ctx, rest, oracle, m);
      TraceStep(cfg, ctx, ps[0], oracle, n);
      assert ps == [ps[0]] + rest;
    }
  }

  /** The first six nodes gather, in this order: the classification with the alert's evidence, metrics, logs,
      similar incidents, changes; and correlate the changes with all the evidence of the first three. */
  lemma GatheredBeforeHypotheses(cfg: Config, ctx: Context, oracle: nat -> Answer)
    ensures |Trace(cfg, ctx, START, oracle, 0)| > 6
    ensures var cs := CorrelateAll(oracle(4).changes, ctx.service, ctx.onset, FirstEvidence(oracle), cfg.correlationThreshold, cfg.clusters);
            Trace(cfg, ctx, START, oracle, 0)[6]
            == Point(GenerateNode, INITIAL.(classification := oracle(0).classification, evidence := FirstEvidence(oracle),
                                            similar := oracle(3).similar, changes := oracle(4).changes,
                                            correlations := cs, candidates := CandidateChanges(oracle(4).changes, cs)))
  {
    hide *;
    var ps := FirstSteps(cfg, ctx, oracle);
    TraceFollows(cfg, ctx, ps, oracle, 0);
  }

  /** One more round asks the missing queries, adds what they return, counts the iteration and forms the
      hypotheses anew from all the evidence. */
  lemma RoundIs(cfg: Config, ctx: Context, s: State, collected: Answer, generated: Answer)
    ensures var es := s.evidence + Telemetry.Collected(s.missing, collected.replies);
            var hs := Generate(generated.suggestions, generated.hypothesisIds, ctx.service, es, s.changes, s.candidates, s.similar);
            Step(cfg, ctx, Step(cfg, ctx, Point(CollectAdditional, s), collected), generated)
            == Point(VerifyNode, s.(iteration := s.iteration + 1, missing := [], evidence := es, hypotheses := hs))
  {
    hide Telemetry.Collected, Generate;
  }

  /** Past verification the root cause stays, and verification is not visited again. */
  lemma {:induction false} RootCauseStays(cfg: Config, ctx: Context, p: Point, oracle: nat -> Answer, n: nat)
    requires Inv(cfg, ctx, p) && Late(p.node)
    ensures Final(cfg, ctx, p, oracle, n).state.rootCause == p.state.rootCause
    ensures forall j | 0 <= j < |Trace(cfg, ctx, p, oracle, n)| :: Trace(cfg, ctx, p, oracle, n)[j].node != VerifyNode
    decreases StepsLeft(cfg, p)
  {
    hide StepsLeft, Step, Inv;
    if Stopped(p) {
    } else {
      var q := Step(cfg, ctx, p, oracle(n));
      StepDecreases(cfg, ctx, p, oracle(n));
      StepKeepsInv(cfg, ctx, p, oracle(n));
      LateGoesOn(cfg, ctx, p, oracle(n));
      FinalStep(cfg, ctx, p, oracle, n);
      TraceStep(cfg, ctx, p, oracle, n);
      RootCauseStays(cfg, ctx, q, oracle, n + 1);
    }
  }

  lemma LateGoesOn(cfg: Config, ctx: Context, p: Point, a: Answer)
    requires !Stopped(p) && Late(p.node) && Inv(cfg, ctx, Step(cfg, ctx, p, a))
    ensures var q := Step(cfg, ctx, p, a); Late(q.node) && q.state.rootCause == p.state.rootCause
  {
    hide Select, EvaluateAll, Choice, CheckEligibility, CauseText, Limited, Propose, Referential, Looping, Rooted, Decided, HasProposals;
  }

  /** Once verification is over, the run is eligible exactly with a root cause of sufficient confidence. */
  lemma EligibleFromRootCause(cfg: Config, ctx: Context, p: Point, oracle: nat -> Answer, n: nat)
    requires Inv(cfg, ctx, p) && p.node == ProposeNode
    ensures Final(cfg, ctx, p, oracle, n).state.eligibility == Some(Eligible)
       <==> p.state.rootCause.Some? && p.state.rootCause.value.confidence >= cfg.policy.minConfidence
  {
    hide Trace, Referential, Looping, Rooted, HasProposals, EvaluateAll, Choice;
    RootCauseStays(cfg, ctx, p, oracle, n);
    TraceKeepsInv(cfg, ctx, p, oracle, n);
    var t := Trace(cfg, ctx, p, oracle, n);
    assert Inv(cfg, ctx, t[|t| - 1]);
    assert t[|t| - 1].node in {AwaitApproval, End};
  }

  /** The `k`-th point is the last visit to verification, and the answer it got decides eligibility: the run is
      eligible exactly when the leading hypothesis was accepted there (by the verdict, or on its own score
      when there was none), with a confidence at both thresholds and support in the evidence of that point. */
  ghost predicate DecidedByVerdict(cfg: Config, ctx: Context, p: Point, oracle: nat -> Answer, n: nat, k: nat) {
    var t := Trace(cfg, ctx, p, oracle, n);
    && k < |t| && t[k].node == VerifyNode && t[k].state.hypotheses != []
    && (forall j | k < j < |t| :: t[j].node != VerifyNode)
    && var (best, verdict) := (Best(t[k].state.hypotheses), oracle(n + k).verdict);
       var confidence := if verdict.Some? then verdict.value.confidence else best.confidence;
       (Final(cfg, ctx, p, oracle, n).state.eligibility == Some(Eligible)
        <==> && (verdict.Some? ==> verdict.value.isVerified)
             && confidence >= cfg.confidenceThreshold && confidence >= cfg.policy.minConfidence
             && exists id | id in best.supporting :: id in EvidenceIds(t[k].state.evidence))
  }

  lemma {:induction false} VerdictDecides(cfg: Config, ctx: Context, p: Point, oracle: nat -> Answer, n: nat)
    requires Inv(cfg, ctx, p) && !Late(p.node)
    ensures exists k: nat :: DecidedByVerdict(cfg, ctx, p, oracle, n, k)
    decreases StepsLeft(cfg, p)
  {
    hide Inv, Step, StepsLeft, Trace, Best, DecidedByVerdict;
    NotYetStopped(cfg, ctx, p);
    var (q, m) := (Step(cfg, ctx, p, oracle(n)), n + 1);
    StepDecreases(cfg, ctx, p, oracle(n));
    StepKeepsInv(cfg, ctx, p, oracle(n));
    EarlyGoesOn(cfg, ctx, p, oracle(n));
    if q.node == ProposeNode {
      LastVisit(cfg, ctx, p, oracle, n);
    } else {
      VerdictDecides(cfg, ctx, q, oracle, m);
      var k: nat :| DecidedByVerdict(cfg, ctx, q, oracle, m, k);
      EarlierVisit(cfg, ctx, p, oracle, n, k);
    }
  }

  lemma LastVisit(cfg: Config, ctx: Context, p: Point, oracle: nat -> Answer, n: nat)
    requires Inv(cfg, ctx, p) && !Late(p.node) && !Stopped(p) && Step(cfg, ctx, p, oracle(n)).node == ProposeNode
    ensures DecidedByVerdict(cfg, ctx, p, oracle, n, 0)
  {
    hide Inv, StepsLeft, Trace, Best, Verify, Final;
    var (q, m) := (Step(cfg, ctx, p, oracle(n)), n + 1);
    StepKeepsInv(cfg, ctx, p, oracle(n));
    VerifiesSomething(cfg, ctx, p);
    FinalStep(cfg, ctx, p, oracle, n);
    TraceStep(cfg, ctx, p, oracle, n);
    RootCauseStays(cfg, ctx, q, oracle, m);
    EligibleFromRootCause(cfg, ctx, q, oracle, m);
    var s := p.state;
    PromotedIff(s.hypotheses, oracle(n).verdict, s.evidence, s.changes, s.correlations, s.iteration, cfg.maxIterations,
                cfg.confidenceThreshold, cfg.correlationThreshold,
                if s.classification.Some? then s.classification.value else "UNKNOWN");
  }

  lemma VerifiesSomething(cfg: Config, ctx: Context, p: Point)
    requires Inv(cfg, ctx, p)
    ensures p.node == VerifyNode ==> p.state.hypotheses != []
  {
    hide Referential, Rooted, Remediating;
  }

  lemma EarlierVisit(cfg: Config, ctx: Context, p: Point, oracle: nat -> Answer, n: nat, k: nat)
    requires !Stopped(p) && DecidedByVerdict(cfg, ctx, Step(cfg, ctx, p, oracle(n)), oracle, n + 1, k)
    ensures DecidedByVerdict(cfg, ctx, p, oracle, n, k + 1)
  {
    hide Step, StepsLeft, Best, Final, Trace;
    FinalStep(cfg, ctx, p, oracle, n);
    TraceStep(cfg, ctx, p, oracle, n);
    var (t, u) := (Trace(cfg, ctx, p, oracle, n), Trace(cfg, ctx, Step(cfg, ctx, p, oracle(n)), oracle, n + 1));
    assert t[k + 1] == u[k];
    forall j | k + 1 < j < |t| ensures t[j].node != VerifyNode {
      assert t[j] == u[j - 1];
    }
  }
}
