/** The audit service on mutable rows, proved against the store operations of `Audit`. */
module AuditService {
  import opened Wrappers
  import opened Policy
  import opened Audit

  /** `remediation_actions`: one object per row. */
  class RemediationAction {
    const proposal: string
    const decision: DecisionType
    const key: Option<string>
    var status: ActionStatus
    var claimExpiresAt: Option<real>
    var approvedBy: Option<string>

    constructor (row: Row)
      ensures View() == row
    {
      proposal, decision, key := row.proposal, row.decision, row.key;
      status, claimExpiresAt, approvedBy := row.status, row.claimExpiresAt, row.approvedBy;
    }

    function View(): Row
      reads this
    {
      Row(proposal, decision, status, key, claimExpiresAt, approvedBy)
    }

    /** `transition_action_status`. */
    method TransitionTo(target: ActionStatus) returns (r: Result<(), AuditError>)
      modifies this`status
      ensures match Transition(old(status), target)
              case Ok(s) => r.Ok? && status == s
              case Err(e) => r == Err(e) && status == old(status)
    {
      if status == target {
        return Ok(());
      }
      if target !in AllowedTransitions(status) {
        return Err(InvalidTransition);
      }
      status := target;
      r := Ok(());
    }

    /** The row's part of `record_execution_result`: an APPROVED action passes through EXECUTING. */
    method ApplyResult(success: bool) returns (r: Result<(), AuditError>, ghost written: seq<ActionStatus>)
      modifies this
      ensures match ResultTrail(old(status), success)
              case Ok(trail) => r.Ok? && written == trail
                                && View() == old(View()).(status := Latest(old(status), trail), claimExpiresAt := None)
              case Err(e) => r == Err(e) && written == [] && View() == old(View())
    {
      written := [];
      if status == Approved {
        r := TransitionTo(Executing);
        written := [status];
      }
      ghost var before := status;
      r := TransitionTo(if success then Succeeded else Failed);
      if r.Ok? {
        written := written + if status == before then [] else [status];
        claimExpiresAt := None;
      }
    }
  }

  class RemediationAuditService {
    var proposals: set<string>
    var actions: map<string, RemediationAction>
    var results: map<string, bool>

    /** No object serves two rows. */
    ghost predicate Separate()
      reads `actions
    {
      forall i, j | i in actions && j in actions && actions[i] == actions[j] :: i == j
    }

    ghost function Repr(): set<object>
      reads this
    {
      {this} + set id | id in actions :: actions[id]
    }

    function View(): Store
      reads Repr()
    {
      Store(proposals, map id | id in actions :: actions[id].View(), results)
    }

    /** The view of one row. */
    lemma RowOf(id: string)
      ensures (id in View().rows <==> id in actions) && View().results == results && View().proposals == proposals
      ensures id in actions ==> View().rows[id] == actions[id].View()
    {
    }

    /** What one object's update does to the table. */
    twostate lemma OneRowChanged(id: string)
      requires old(Separate()) && actions == old(actions) && id in actions
      requires forall k | k in actions && actions[k] != actions[id] :: unchanged(actions[k])
      ensures View() == Store(proposals, old(View()).rows[id := actions[id].View()], results)
    {
      forall k | k in actions && k != id ensures View().rows[k] == old(View()).rows[k] {
        assert actions[k] != actions[id];
      }
    }

    /** What inserting a new object does to the table. */
    twostate lemma OneRowAdded(id: string, new action: RemediationAction)
      requires old(Separate()) && id !in old(actions) && fresh(action) && actions == old(actions)[id := action]
      requires forall k | k in old(actions) :: unchanged(old(actions)[k])
      ensures Separate()
      ensures View() == Store(proposals, old(View()).rows[id := action.View()], results)
    {
    }

    constructor ()
      ensures Separate() && View() == Store({}, map[], map[]) && fresh(Repr())
    {
      proposals, actions, results := {}, map[], map[];
    }

    /** A session's rollback: the rows are those of an earlier state of the tables, loaded anew. */
    method Restore(saved: Store)
      modifies this
      ensures Separate() && View() == saved && fresh(Repr() - {this})
    {
      proposals, actions, results := saved.proposals, map[], saved.results;
      var ids := saved.rows.Keys;
      while ids != {}
        invariant ids <= saved.rows.Keys && actions.Keys == saved.rows.Keys - ids
        invariant Separate() && fresh(Repr() - {this}) && proposals == saved.proposals && results == saved.results
        invariant forall id | id in actions :: actions[id].View() == saved.rows[id]
      {
        var id :| id in ids;
        var action := new RemediationAction(saved.rows[id]);
        actions := actions[id := action];
        ids := ids - {id};
      }
      assert View().rows == saved.rows;
    }

    /** `create_proposal`. */
    method PersistProposal(id: string)
      requires Separate()
      modifies this`proposals
      ensures Separate() && Repr() == old(Repr())
      ensures View() == CreateProposal(old(View()), id)
    {
      proposals := proposals + {id};
    }

    /** The lookup by unique idempotency key. */
    method FindByKey(key: Option<string>) returns (found: Option<string>)
      ensures found.Some? <==> HasKey(View(), key)
      ensures found.Some? ==> found.value in View().rows && View().rows[found.value].key == key
    {
      found := None;
      if key.Some? && exists k | k in actions :: actions[k].key == key {
        var existing :| existing in actions && actions[existing].key == key;
        assert View().rows[existing].key == key;
        return Some(existing);
      }
      assert forall k | k in View().rows :: View().rows[k].key == actions[k].key;
    }

    /** `create_action_decision`.  On success `id` is the row now holding the decision. */
    method CreateActionDecision(r: PolicyResult, freshId: string) returns (res: Result<string, AuditError>)
      requires Separate()
      modifies this`actions
      ensures Separate() && fresh(Repr() - old(Repr()))
      ensures match CreateDecision(old(View()), r, freshId)
              case Ok(st) => res.Ok? && View() == st && res.value in st.rows
              case Err(e) => res == Err(e) && View() == old(View())
    {
      hide View, Separate, DecisionRow, DecisionId;
      RowOf(DecisionId(r, freshId));
      var row := DecisionRow(r);
      var id := DecisionId(r, freshId);
      if row.proposal !in proposals {
        return Err(ProposalNotFound);
      }
      if id in actions {
        return Ok(id);
      }
      var existing := FindByKey(row.key);
      if existing.Some? {
        return Ok(existing.value);
      }
      var action := new RemediationAction(row);
      actions := actions[id := action];
      OneRowAdded(id, action);
      res := Ok(id);
    }

    /** `record_approval_decision`. */
    method RecordApprovalDecision(id: string, approved: bool, operator: string) returns (res: Result<(), AuditError>)
      requires Separate()
      modifies Repr()
      ensures Separate() && actions == old(actions)
      ensures match RecordApproval(old(View()), id, approved, operator)
              case Ok(st) => res.Ok? && View() == st
              case Err(e) => res == Err(e) && View() == old(View())
    {
      hide View, Separate;
      RowOf(id);
      if id !in actions {
        return Err(ActionNotFound);
      }
      var action := actions[id];
      if action.status != AwaitingApproval {
        return Err(NotAwaitingApproval);
      }
      res := action.TransitionTo(if approved then Approved else RejectedStatus);
      action.approvedBy := Some(operator);
      OneRowChanged(id);
    }

    /** `claim_action_for_execution`. */
    method ClaimActionForExecution(id: string, now: real, leaseSeconds: real) returns (res: Result<(), AuditError>)
      requires Separate()
      modifies Repr()
      ensures Separate() && actions == old(actions)
      ensures match ClaimAction(old(View()), id, now, leaseSeconds)
              case Ok(st) => res.Ok? && View() == st
              case Err(e) => res == Err(e) && View() == old(View())
    {
      hide View, Separate;
      RowOf(id);
      if id !in actions {
        return Err(ActionNotFound);
      }
      var action := actions[id];
      if action.status == Executing {
        if action.claimExpiresAt.Some? && action.claimExpiresAt.value > now {
          return Err(ClaimRefused);
        }
      } else if action.status != Approved {
        return Err(ClaimRefused);
      }
      res := action.TransitionTo(Executing);
      action.claimExpiresAt := Some(now + leaseSeconds);
      OneRowChanged(id);
    }

    /** `record_execution_result`.  The unique result row is checked when the insert is flushed; a
        failure there rolls the whole transaction back. */
    method RecordExecutionResult(id: string, success: bool) returns (res: Result<(), AuditError>)
      requires Separate()
      modifies Repr()
      ensures Separate() && actions == old(actions)
      ensures match RecordResult(old(View()), id, success)
              case Ok(st) => res.Ok? && View() == st
              case Err(e) => res == Err(e) && View() == old(View())
    {
      hide View, Separate;
      RowOf(id);
      if id !in actions {
        return Err(IntegrityError);
      }
      var action := actions[id];
      var statusBefore, claimBefore := action.status, action.claimExpiresAt;
      ghost var written;
      res, written := action.ApplyResult(success);
      if res.Err? {
        OneRowChanged(id);
        return;
      }
      if id in results {
        action.status, action.claimExpiresAt := statusBefore, claimBefore;
        OneRowChanged(id);
        return Err(IntegrityError);
      }
      results := results[id := success];
      OneRowChanged(id);
    }
  }
}
