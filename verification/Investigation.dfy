/** The investigation service around the graph: counting history, persisting what a run decided, the
    incident's status, and resuming a paused approval.  One incident, serial operations. */
module Investigation {
  import opened Wrappers
  import opened Policy
  import opened Proposals
  import opened Graph
  import opened GraphInvariants
  import opened GraphTheorems
  import opened Audit

  datatype IncidentStatus =
    | Detected | Triaging | Investigating | RootCauseIdentified | RemediationProposed | AwaitingOperator
    | Remediating | Validating | Resolved | FailedIncident

  /** `_decide_terminal_status`. */
  function TerminalStatus(s: State): IncidentStatus {
    if s.validation == Some(true) then Resolved
    else if s.validation == Some(false) then RemediationProposed
    else if s.proposals != [] then RemediationProposed
    else if s.rootCause.Some? then RootCauseIdentified
    else FailedIncident
  }

  // ----- Persisting a run -----

  function PersistProposals(st: Store, ps: seq<Proposal>): (r: Store)
    ensures r == st.(proposals := st.proposals + set p | p in ps :: p.id)
  {
    if ps == [] then st
    else
      var n := |ps| - 1;
      assert ps == ps[..n] + [ps[n]];
      CreateProposal(PersistProposals(st, ps[..n]), ps[n].id)
  }

  /** One `create_action_decision` per result; `freshIds` supplies ids for rejections. */
  function PersistDecisions(st: Store, rs: seq<PolicyResult>, freshIds: nat -> string): Result<Store, AuditError> {
    if rs == [] then Ok(st)
    else
      var n := |rs| - 1;
      var front := PersistDecisions(st, rs[..n], freshIds);
      if front.Err? then front else CreateDecision(front.value, rs[n], freshIds(n))
  }

  function ResultsToPersist(s: State): seq<PolicyResult> {
    if s.allResults != [] then s.allResults else if s.policyResult.Some? then [s.policyResult.value] else []
  }

  /** `_persist_remediation`.  The executor reports under the id of the action it was given. */
  function Persist(st: Store, s: State, freshIds: nat -> string): Result<Store, AuditError> {
    var decided := PersistDecisions(PersistProposals(st, s.proposals), ResultsToPersist(s), freshIds);
    if decided.Err? then decided
    else if s.executed.Some? && s.policyResult.Some? && Executable(s.policyResult.value) then
      RecordResult(decided.value, s.policyResult.value.action.id, s.executed.value)
    else decided
  }

  /** What persisting decisions may do to a store: add rows, nothing else. */
  ghost predicate Extends(st: Store, st': Store) {
    && st'.proposals == st.proposals && st'.results == st.results
    && (forall id | id in st.rows :: id in st'.rows && st'.rows[id] == st.rows[id])
  }

  /** Idempotency keys are derived from proposal ids. */
  ghost predicate Keyed(st: Store) {
    forall id | id in st.rows && st.rows[id].key.Some? :: st.rows[id].key.value == "rem-exec-" + st.rows[id].proposal
  }

  ghost predicate KeyedResult(r: PolicyResult) {
    Executable(r) ==> r.action.idempotencyKey == "rem-exec-" + r.action.proposalId
  }

  lemma {:induction false} DecisionsExtend(st: Store, rs: seq<PolicyResult>, freshIds: nat -> string)
    requires Valid(st) && Keyed(st)
    requires forall r | r in rs :: ProposalOf(r) in st.proposals && KeyedResult(r)
    ensures PersistDecisions(st, rs, freshIds).Ok?
    ensures var st' := PersistDecisions(st, rs, freshIds).value; Valid(st') && Keyed(st') && Extends(st, st')
  {
    hide Valid;
    if rs == [] {
    } else {
      var n := |rs| - 1;
      assert rs[n] in rs;
      DecisionsExtend(st, rs[..n], freshIds);
      PerformKeepsValid(PersistDecisions(st, rs[..n], freshIds).value, Decide(rs[n], freshIds(n)));
    }
  }

  /** Replaying decisions whose rows exist changes nothing. */
  lemma {:induction false} DecisionsReplay(st: Store, rs: seq<PolicyResult>, freshIds: nat -> string)
    requires forall r | r in rs :: Executable(r) && r.action.proposalId in st.proposals && r.action.id in st.rows
    ensures PersistDecisions(st, rs, freshIds) == Ok(st)
  {
    if rs == [] {
    } else {
      assert rs[|rs| - 1] in rs;
      DecisionsReplay(st, rs[..|rs| - 1], freshIds);
    }
  }

  /** Executable results drawn under fresh, distinct ids. */
  ghost predicate FreshResults(st: Store, rs: seq<PolicyResult>) {
    && (forall r | r in rs :: FreshResult(st, r))
    && (forall i, j | 0 <= i < j < |rs| :: DistinctResults(rs[i], rs[j]))
  }

  ghost predicate FreshResult(st: Store, r: PolicyResult) {
    && Executable(r) && KeyedResult(r) && r.action.id !in st.rows
    && forall id | id in st.rows :: st.rows[id].proposal != r.action.proposalId
  }

  ghost predicate DistinctResults(a: PolicyResult, b: PolicyResult) {
    DecisionId(a, "") != DecisionId(b, "") && ProposalOf(a) != ProposalOf(b)
  }

  lemma FreshDecisionFiled(st: Store, r: PolicyResult, freshId: string)
    requires Keyed(st) && FreshResult(st, r) && r.action.proposalId in st.proposals
    ensures CreateDecision(st, r, freshId) == Ok(st.(rows := st.rows[r.action.id := DecisionRow(r)]))
  {
    forall id | id in st.rows && st.rows[id].key == Some(r.action.idempotencyKey) ensures false {
      SameKeySameProposalId(st.rows[id].proposal, r.action.proposalId);
    }
  }

  /** The table with one row per executable result added. */
  function FileAll(rows: map<string, Row>, rs: seq<PolicyResult>): map<string, Row> {
    if rs == [] then rows
    else
      var front := FileAll(rows, rs[..|rs| - 1]);
      front[DecisionId(rs[|rs| - 1], "") := DecisionRow(rs[|rs| - 1])]
  }

  lemma {:induction false} FileAllRows(rows: map<string, Row>, rs: seq<PolicyResult>, id: string)
    ensures (forall i | 0 <= i < |rs| :: DecisionId(rs[i], "") != id) ==>
              (id in FileAll(rows, rs) <==> id in rows) && (id in rows ==> FileAll(rows, rs)[id] == rows[id])
    ensures id in FileAll(rows, rs) ==>
              (id in rows && FileAll(rows, rs)[id] == rows[id])
              || exists i | 0 <= i < |rs| :: DecisionId(rs[i], "") == id && FileAll(rows, rs)[id] == DecisionRow(rs[i])
  {
    hide DecisionRow, DecisionId;
    if rs == [] {
    } else {
      var front := rs[..|rs| - 1];
      FileAllRows(rows, front, id);
      if id in FileAll(rows, rs) && id != DecisionId(rs[|rs| - 1], "") && !(id in rows && FileAll(rows, rs)[id] == rows[id]) {
        var i :| 0 <= i < |front| && DecisionId(front[i], "") == id && FileAll(rows, front)[id] == DecisionRow(front[i]);
        assert rs[i] == front[i];
      }
      assert id == DecisionId(rs[|rs| - 1], "") ==> FileAll(rows, rs)[id] == DecisionRow(rs[|rs| - 1]);
    }
  }

  lemma {:induction false} FileAllHas(rows: map<string, Row>, rs: seq<PolicyResult>, i: nat)
    requires i < |rs| && forall i, j | 0 <= i < j < |rs| :: DistinctResults(rs[i], rs[j])
    ensures DecisionId(rs[i], "") in FileAll(rows, rs) && FileAll(rows, rs)[DecisionId(rs[i], "")] == DecisionRow(rs[i])
  {
    hide DecisionRow, DecisionId;
    var n := |rs| - 1;
    if i < n {
      FileAllHas(rows, rs[..n], i);
      assert DistinctResults(rs[i], rs[n]);
    }
  }

  /** A result distinct from all filed ones is still fresh. */
  lemma StillFresh(st: Store, rs: seq<PolicyResult>, r: PolicyResult)
    requires FreshResult(st, r) && forall i | 0 <= i < |rs| :: DistinctResults(rs[i], r)
    ensures FreshResult(st.(rows := FileAll(st.rows, rs)), r)
  {
    hide DecisionRow, KeyedResult;
    var st1 := st.(rows := FileAll(st.rows, rs));
    forall id | id in st1.rows ensures id != r.action.id && st1.rows[id].proposal != r.action.proposalId {
      FileAllRows(st.rows, rs, id);
      if !(id in st.rows && st1.rows[id] == st.rows[id]) {
        var i :| 0 <= i < |rs| && DecisionId(rs[i], "") == id && st1.rows[id] == DecisionRow(rs[i]);
        assert DistinctResults(rs[i], r);
        RowProposal(rs[i]);
      }
    }
  }

  /** Each fresh executable result gets its own row in its initial status, and nothing else changes. */
  lemma {:induction false} FreshDecisionsFiled(st: Store, rs: seq<PolicyResult>, freshIds: nat -> string)
    requires Keyed(st) && FreshResults(st, rs)
    requires forall r | r in rs :: ProposalOf(r) in st.proposals
    ensures PersistDecisions(st, rs, freshIds) == Ok(st.(rows := FileAll(st.rows, rs)))
    ensures Keyed(st.(rows := FileAll(st.rows, rs)))
  {
    hide DecisionRow, CreateDecision, DistinctResults;
    if rs == [] {
    } else {
      var n := |rs| - 1;
      var front := rs[..n];
      assert forall r | r in front :: r in rs;
      assert forall i, j | 0 <= i < j < |front| :: front[i] == rs[i] && front[j] == rs[j];
      FreshDecisionsFiled(st, front, freshIds);
      assert FreshResult(st, rs[n]) && rs[n] in rs;
      StillFresh(st, front, rs[n]);
      FreshDecisionFiled(st.(rows := FileAll(st.rows, front)), rs[n], freshIds(n));
      RowProposal(rs[n]);
    }
  }

  lemma RowProposal(r: PolicyResult)
    ensures DecisionRow(r).proposal == ProposalOf(r)
    ensures KeyedResult(r) && DecisionRow(r).key.Some? ==> DecisionRow(r).key.value == "rem-exec-" + ProposalOf(r)
  {
  }

  lemma SameKeySameProposalId(p: string, q: string)
    requires "rem-exec-" + p == "rem-exec-" + q
    ensures p == q
  {
    var k := "rem-exec-";
    assert p == (k + p)[|k|..] && q == (k + q)[|k|..];
  }

  // ----- The incident -----

  /** A graph thread waiting for the operator. */
  datatype Paused = Paused(ctx: Context, state: State)

  /** `executions` and `autoExecutions` count calls of the executor; the code does not store them. */
  datatype Incident = Incident(
    store: Store,
    status: IncidentStatus,
    thread: Option<Paused>,
    executions: nat,
    autoExecutions: nat)

  const NEW_INCIDENT := Incident(Store({}, map[], map[]), Detected, None, 0, 0)

  function AllowedIds(rows: map<string, Row>): set<string> {
    set id | id in rows && rows[id].decision == AllowedDecision
  }

  function AutoCount(rows: map<string, Row>): nat {
    |AllowedIds(rows)|
  }

  /** What one run is given: its subject, the random ids it draws, and the world's answers. */
  datatype RunInput = RunInput(
    service: string,
    onset: real,
    proposalIds: nat -> string,
    actionIds: string -> string,
    freshIds: nat -> string,
    oracle: nat -> Answer)

  /** `_count_prior_remediations` feeds the run's limits. */
  function RunContext(i: Incident, run: RunInput): Context {
    Context(run.service, run.onset, |i.store.rows|, AutoCount(i.store.rows), run.proposalIds, run.actionIds)
  }

  /** The executor calls of a trace, which no rollback undoes. */
  function Counted(i: Incident, t: seq<Point>): Incident
    requires t != []
  {
    var (calls, last) := (Visits(ExecuteNode, t), t[|t| - 1].state);
    i.(executions := i.executions + calls,
       autoExecutions := i.autoExecutions + if last.policyResult.Some? && last.policyResult.value.Allowed? then calls else 0)
  }

  lemma CountedStore(i: Incident, st: Store, t: seq<Point>)
    requires t != []
    ensures Counted(i.(store := st), t) == Counted(i, t).(store := st)
  {
  }

  /** Persist the trace's final state and set the incident's status. */
  function Conclude(i: Incident, ctx: Context, t: seq<Point>, freshIds: nat -> string): Result<Incident, AuditError>
    requires t != []
  {
    var last := t[|t| - 1];
    var store := Persist(i.store, last.state, freshIds);
    if store.Err? then Err(store.error)
    else Ok(Counted(i, t).(
      store := store.value,
      status := if last.node == AwaitApproval then AwaitingOperator else TerminalStatus(last.state),
      thread := if last.node == AwaitApproval then Some(Paused(ctx, last.state)) else None))
  }

  /** `run_investigation`: always a new thread, whatever the incident's status. */
  function RunInvestigation(cfg: Config, i: Incident, run: RunInput): Result<Incident, AuditError> {
    var ctx := RunContext(i, run);
    Conclude(i, ctx, Trace(cfg, ctx, START, run.oracle, 0), run.freshIds)
  }

  /** What the exception handler leaves when persisting a run fails: the store rolled back, the status
      FAILED. */
  function FailedRun(cfg: Config, i: Incident, run: RunInput): Incident {
    Counted(i, Trace(cfg, RunContext(i, run), START, run.oracle, 0)).(status := FailedIncident, thread := None)
  }

  datatype ResumeError =
    | NotAwaitingOperator | NoAwaitingAction | SeveralAwaitingActions | ApprovalStale | AuditFailure(error: AuditError)

  function AwaitingActions(st: Store): set<string> {
    set id | id in st.rows && st.rows[id].status == AwaitingApproval
  }

  lemma OnlyMember<T>(s: set<T>, x: T, y: T)
    requires x in s && y in s && |s| <= 1
    ensures x == y
  {
    assert |s - {x}| == |s| - 1 == 0;
    assert y !in s - {x};
  }

  /** What a failed resume leaves: a refusal changes nothing, and a failure to persist rolls back all that
      can be rolled back. */
  function FailedResume(cfg: Config, i: Incident, d: Decision, oracle: nat -> Answer, error: ResumeError): Incident {
    if error.AuditFailure? && i.thread.Some?
    then Counted(i, Trace(cfg, i.thread.value.ctx, Graph.Resume(i.thread.value.state, d), oracle, 0))
    else i
  }

  /** `resume_remediation_approval`.  `pendingSeconds` is the age of the awaiting action. */
  ghost function ResumeApproval(cfg: Config, i: Incident, d: Decision, operator: string, pendingSeconds: real, timeout: real,
                                oracle: nat -> Answer, freshIds: nat -> string): Result<Incident, ResumeError>
  {
    if i.status != AwaitingOperator || i.thread.None? then Err(NotAwaitingOperator)
    else
      var waiting := AwaitingActions(i.store);
      if waiting == {} then Err(NoAwaitingAction)
      else if |waiting| > 1 then Err(SeveralAwaitingActions)
      else if pendingSeconds > timeout then Err(ApprovalStale)
      else
        var id :| id in waiting;
        var approved := RecordApproval(i.store, id, d == Decision.Approve, operator);
        if approved.Err? then Err(AuditFailure(approved.error))
        else
          var (ctx, s) := (i.thread.value.ctx, i.thread.value.state);
          var done := Conclude(i.(store := approved.value), ctx, Trace(cfg, ctx, Graph.Resume(s, d), oracle, 0), freshIds);
          if done.Err? then Err(AuditFailure(done.error)) else Ok(done.value)
  }

  /** A run that fails to persist leaves the tables as they were and counts what it executed; no decision can
      resume it. */
  lemma FailureRollsBack(cfg: Config, i: Incident, run: RunInput, d: Decision, operator: string, pending: real, timeout: real,
                         oracle: nat -> Answer, freshIds: nat -> string)
    ensures var f := FailedRun(cfg, i, run);
            && f.store == i.store && f.status == FailedIncident
            && f.executions == i.executions + Visits(ExecuteNode, Trace(cfg, RunContext(i, run), START, run.oracle, 0))
            && ResumeApproval(cfg, f, d, operator, pending, timeout, oracle, freshIds) == Err(NotAwaitingOperator)
  {
    hide Trace, Visits;
  }
}
