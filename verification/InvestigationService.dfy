/** The investigation service's methods in the source's imperative form, proved against `Investigation`. */
module InvestigationService {
  import opened Wrappers
  import opened Policy
  import opened Proposals
  import opened Graph
  import opened GraphTheorems
  import opened Audit
  import opened AuditService
  import Model = Investigation

  /** One incident with the audit service its session gives access to. */
  class IncidentService {
    const audit: RemediationAuditService
    var status: Model.IncidentStatus
    var thread: Option<Model.Paused>
    var executorCalls: nat
    var autoExecutions: nat

    constructor ()
      ensures audit.Separate() && fresh(audit.Repr()) && View() == Model.NEW_INCIDENT
    {
      audit := new RemediationAuditService();
      status, thread, executorCalls, autoExecutions := Model.Detected, None, 0, 0;
    }

    ghost function View(): Model.Incident
      reads this, audit, audit.Repr()
    {
      Model.Incident(audit.View(), status, thread, executorCalls, autoExecutions)
    }

    /** `_count_prior_remediations`. */
    method CountPriorRemediations() returns (attempts: nat, automatic: nat)
      ensures attempts == |audit.View().rows| && automatic == Model.AutoCount(audit.View().rows)
    {
      attempts := |audit.actions|;
      automatic := |set id | id in audit.actions && audit.actions[id].decision == AllowedDecision|;
      assert audit.View().rows.Keys == audit.actions.Keys;
      assert (set id | id in audit.actions && audit.actions[id].decision == AllowedDecision)
          == Model.AllowedIds(audit.View().rows);
    }

    /** Section 1 of `_persist_remediation`. */
    method PersistProposals(ps: seq<Proposal>)
      requires audit.Separate()
      modifies audit`proposals
      ensures audit.Separate() && audit.Repr() == old(audit.Repr())
      ensures audit.View() == Model.PersistProposals(old(audit.View()), ps)
    {
      ghost var before := audit.View();
      for k := 0 to |ps|
        invariant audit.Separate() && audit.Repr() == old(audit.Repr())
        invariant audit.View() == Model.PersistProposals(before, ps[..k])
      {
        assert ps[..k + 1][..k] == ps[..k];
        if ps[k].id !in audit.proposals {
          audit.PersistProposal(ps[k].id);
        } else {
          assert audit.View() == CreateProposal(audit.View(), ps[k].id);
        }
      }
      assert ps[..|ps|] == ps;
    }

    /** Section 2: one decision row per evaluated result, stopping at the first error. */
    method PersistDecisions(rs: seq<PolicyResult>, freshIds: nat -> string) returns (res: Result<(), AuditError>)
      requires audit.Separate()
      modifies audit`actions
      ensures audit.Separate() && fresh(audit.Repr() - old(audit.Repr()))
      ensures match Model.PersistDecisions(old(audit.View()), rs, freshIds)
              case Ok(st) => res.Ok? && audit.View() == st
              case Err(e) => res == Err(e)
    {
      ghost var before := audit.View();
      for k := 0 to |rs|
        invariant audit.Separate() && fresh(audit.Repr() - old(audit.Repr()))
        invariant Model.PersistDecisions(before, rs[..k], freshIds) == Ok(audit.View())
      {
        assert rs[..k + 1][..k] == rs[..k];
        var filed := audit.CreateActionDecision(rs[k], freshIds(k));
        if filed.Err? {
          DecisionErrorStays(before, rs, freshIds, k + 1);
          return Err(filed.error);
        }
      }
      assert rs[..|rs|] == rs;
      res := Ok(());
    }

    /** `_persist_remediation`. */
    method PersistRemediation(s: State, freshIds: nat -> string) returns (res: Result<(), AuditError>)
      requires audit.Separate()
      modifies audit.Repr()
      ensures audit.Separate() && fresh(audit.Repr() - old(audit.Repr()))
      ensures match Model.Persist(old(audit.View()), s, freshIds)
              case Ok(st) => res.Ok? && audit.View() == st
              case Err(e) => res == Err(e)
    {
      hide RecordResult, Model.PersistProposals, Model.PersistDecisions, RemediationAuditService.View, RemediationAuditService.Separate;
      PersistProposals(s.proposals);
      res := PersistDecisions(Model.ResultsToPersist(s), freshIds);
      if res.Ok? && s.executed.Some? && s.policyResult.Some? && Executable(s.policyResult.value) {
        res := audit.RecordExecutionResult(s.policyResult.value.action.id, s.executed.value);
      }
    }

    /** What both entry points do with a graph run's trace. */
    method Conclude(ctx: Context, t: seq<Point>, freshIds: nat -> string) returns (res: Result<(), AuditError>)
      requires audit.Separate() && t != [] && this !in audit.Repr()
      modifies this, audit.Repr()
      ensures audit.Separate() && fresh(audit.Repr() - old(audit.Repr())) && this !in audit.Repr()
      ensures match Model.Conclude(old(View()), ctx, t, freshIds)
              case Ok(i) => res.Ok? && View() == i
              case Err(e) => res == Err(e) && View() == Model.Counted(old(View()), t)
    {
      hide Model.Persist, Visits, RemediationAuditService.View, RemediationAuditService.Separate;
      var saved := audit.View();
      var last := t[|t| - 1];
      var calls := Visits(ExecuteNode, t);
      executorCalls := executorCalls + calls;
      if last.state.policyResult.Some? && last.state.policyResult.value.Allowed? {
        autoExecutions := autoExecutions + calls;
      }
      res := PersistRemediation(last.state, freshIds);
      if res.Err? {
        audit.Restore(saved);
        return;
      }
      if last.node == AwaitApproval {
        status, thread := Model.AwaitingOperator, Some(Model.Paused(ctx, last.state));
      } else {
        status, thread := Model.TerminalStatus(last.state), None;
      }
    }

    /** `run_investigation`. */
    method RunInvestigation(cfg: Config, run: Model.RunInput) returns (res: Result<(), AuditError>)
      requires audit.Separate() && this !in audit.Repr()
      modifies this, audit.Repr()
      ensures audit.Separate() && fresh(audit.Repr() - old(audit.Repr())) && this !in audit.Repr()
      ensures match Model.RunInvestigation(cfg, old(View()), run)
              case Ok(i) => res.Ok? && View() == i
              case Err(e) => res == Err(e) && View() == Model.FailedRun(cfg, old(View()), run)
    {
      hide Model.Persist, Visits, Trace, RemediationAuditService.View, RemediationAuditService.Separate, Model.AutoCount;
      var attempts, automatic := CountPriorRemediations();
      status := Model.Investigating;
      var ctx := Context(run.service, run.onset, attempts, automatic, run.proposalIds, run.actionIds);
      var t := Trace(cfg, ctx, START, run.oracle, 0);
      res := Conclude(ctx, t, run.freshIds);
      if res.Err? {
        status, thread := Model.FailedIncident, None;
      }
    }

    /** `resume_remediation_approval`. */
    method ResumeApproval(cfg: Config, d: Decision, operator: string, pendingSeconds: real, timeout: real,
                          oracle: nat -> Answer, freshIds: nat -> string) returns (res: Result<(), Model.ResumeError>)
      requires audit.Separate() && this !in audit.Repr()
      modifies this, audit.Repr()
      ensures audit.Separate() && fresh(audit.Repr() - old(audit.Repr())) && this !in audit.Repr()
      ensures match Model.ResumeApproval(cfg, old(View()), d, operator, pendingSeconds, timeout, oracle, freshIds)
              case Ok(i) => res.Ok? && View() == i
              case Err(e) => res == Err(e) && View() == Model.FailedResume(cfg, old(View()), d, oracle, e)
    {
      hide Model.Conclude, Model.Counted, Trace, RecordApproval, RemediationAuditService.Separate;
      var saved := audit.View();
      if status != Model.AwaitingOperator || thread.None? {
        return Err(Model.NotAwaitingOperator);
      }
      var waiting := set id | id in audit.actions && audit.actions[id].status == AwaitingApproval;
      assert waiting == Model.AwaitingActions(audit.View());
      hide RemediationAuditService.View, Model.AwaitingActions;
      if waiting == {} {
        return Err(Model.NoAwaitingAction);
      }
      if |waiting| > 1 {
        return Err(Model.SeveralAwaitingActions);
      }
      if pendingSeconds > timeout {
        return Err(Model.ApprovalStale);
      }
      var id :| id in waiting;
      forall k | k in waiting ensures k == id {
        Model.OnlyMember(waiting, k, id);
      }
      WaitingCanBeRuled(audit.View(), id, d == Decision.Approve, operator);
      var recorded := audit.RecordApprovalDecision(id, d == Decision.Approve, operator);
      var p := thread.value;
      var t := Trace(cfg, p.ctx, Graph.Resume(p.state, d), oracle, 0);
      Model.CountedStore(old(View()), audit.View(), t);
      Model.CountedStore(old(View()), saved, t);
      var done := Conclude(p.ctx, t, freshIds);
      if done.Err? {
        audit.Restore(saved);
        return Err(Model.AuditFailure(done.error));
      }
      res := Ok(());
    }
  }

  /** Recording a decision on a waiting action cannot fail. */
  lemma WaitingCanBeRuled(st: Store, id: string, approved: bool, operator: string)
    requires id in Model.AwaitingActions(st)
    ensures RecordApproval(st, id, approved, operator).Ok?
  {
  }

  /** A failing decision fails the whole batch. */
  lemma {:induction false} DecisionErrorStays(st: Store, rs: seq<PolicyResult>, freshIds: nat -> string, k: nat)
    requires k <= |rs| && Model.PersistDecisions(st, rs[..k], freshIds).Err?
    ensures Model.PersistDecisions(st, rs, freshIds) == Model.PersistDecisions(st, rs[..k], freshIds)
    decreases |rs| - k
  {
    if k == |rs| {
      assert rs[..k] == rs;
    } else {
      assert rs[..k + 1][..k] == rs[..k];
      DecisionErrorStays(st, rs, freshIds, k + 1);
    }
  }
}
