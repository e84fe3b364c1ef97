/** What the history counts: how many action rows and how many ALLOWED decisions a sequence of operations
    leaves, told from the proposals of its runs, and when that stops an automatic execution. */
module InvestigationCounts {
  import opened Wrappers
  import opened Policy
  import opened Proposals
  import opened Graph
  import opened GraphInvariants
  import opened GraphTheorems
  import opened Audit
  import opened Investigation
  import opened InvestigationTheorems
  import opened InvestigationApprovals
  import opened Lists
  import opened Ranking

  // ----- One row at a time -----

  lemma CountsOfNothing()
    ensures AutoCount(map[]) == 0
  {
  }

  /** Filing a new row counts one more ALLOWED decision exactly when the row is one. */
  lemma CountsFiledRow(rows: map<string, Row>, id: string, row: Row)
    requires id !in rows
    ensures |rows[id := row]| == |rows| + 1
    ensures AutoCount(rows[id := row]) == AutoCount(rows) + (if row.decision.AllowedDecision? then 1 else 0)
  {
    hide AllowedIds;
    AllowedIdsInsert(rows, id, row);
    assert rows[id := row].Keys == rows.Keys + {id};
  }

  lemma AllowedIdsInsert(rows: map<string, Row>, id: string, row: Row)
    requires id !in rows
    ensures id !in AllowedIds(rows)
    ensures AllowedIds(rows[id := row]) == AllowedIds(rows) + (if row.decision.AllowedDecision? then {id} else {})
  {
  }

  /** Whatever happens to rows later, their decisions are counted as filed. */
  lemma CountsKept(rows: map<string, Row>, rows': map<string, Row>)
    requires rows'.Keys == rows.Keys && forall k | k in rows :: rows'[k].decision == rows[k].decision
    ensures |rows'| == |rows| && AutoCount(rows') == AutoCount(rows)
  {
    assert |rows'.Keys| == |rows'|;
    assert AllowedIds(rows') == AllowedIds(rows);
  }

  // ----- The decisions of one run -----

  function Unasked(s: Settings, ps: seq<Proposal>): seq<Proposal> {
    Filter(ps, (p: Proposal) => RunsUnasked(s, p.actionType))
  }

  function AllowedOnes(rs: seq<PolicyResult>): seq<PolicyResult> {
    Filter(rs, (r: PolicyResult) => r.Allowed?)
  }

  lemma {:induction false} CountsFiledAll(st: Store, rs: seq<PolicyResult>)
    requires FreshResults(st, rs)
    ensures |FileAll(st.rows, rs)| == |st.rows| + |rs|
    ensures AutoCount(FileAll(st.rows, rs)) == AutoCount(st.rows) + |AllowedOnes(rs)|
  {
    hide AutoCount;
    if rs == [] {
    } else {
      var (front, last) := (rs[..|rs| - 1], rs[|rs| - 1]);
      FreshFront(st, rs);
      CountsFiledAll(st, front);
      LastIsNew(st, rs);
      CountsFiledRow(FileAll(st.rows, front), last.action.id, DecisionRow(last));
      assert rs == front + [last];
      FilterAppend(front, last, (r: PolicyResult) => r.Allowed?);
    }
  }

  lemma FreshFront(st: Store, rs: seq<PolicyResult>)
    requires FreshResults(st, rs) && rs != []
    ensures FreshResults(st, rs[..|rs| - 1])
  {
    hide FreshResult, DistinctResults;
    var front := rs[..|rs| - 1];
    assert forall r | r in front :: r in rs;
    assert forall i, j | 0 <= i < j < |front| :: front[i] == rs[i] && front[j] == rs[j];
  }

  lemma LastIsNew(st: Store, rs: seq<PolicyResult>)
    requires FreshResults(st, rs) && rs != []
    ensures Executable(rs[|rs| - 1]) && rs[|rs| - 1].action.id !in FileAll(st.rows, rs[..|rs| - 1])
  {
    var n := |rs| - 1;
    FreshAt(st, rs, n);
    forall i | 0 <= i < n ensures DecisionId(rs[..n][i], "") != rs[n].action.id {
      assert DistinctResults(rs[i], rs[n]);
    }
    FileAllRows(st.rows, rs[..n], rs[n].action.id);
  }

  lemma {:induction false} AllowedAreUnasked(s: Settings, ps: seq<Proposal>, newId: string -> string)
    requires s.enabled && forall p | p in ps :: WellTyped(p)
    ensures |AllowedOnes(EvaluateAll(ps, s, newId))| == |Unasked(s, ps)|
  {
    hide EvaluatePolicy;
    if ps == [] {
    } else {
      var (rs, rest) := (EvaluateAll(ps, s, newId), ps[1..]);
      assert ps[0] in ps && forall p | p in rest :: p in ps;
      AllowedAreUnasked(s, rest, newId);
      assert rs[1..] == EvaluateAll(rest, s, newId);
      DecisionIff(ps[0], s, newId);
    }
  }

  function RejectionRow(r: PolicyResult): Row {
    Row(ProposalOf(r), RejectedDecision, RejectedStatus, None, None, None)
  }

  function FileRejections(rows: map<string, Row>, rs: seq<PolicyResult>, freshIds: nat -> string): map<string, Row> {
    if rs == [] then rows
    else
      var n := |rs| - 1;
      FileRejections(rows, rs[..n], freshIds)[freshIds(n) := RejectionRow(rs[n])]
  }

  lemma {:induction false} RejectionIds(rows: map<string, Row>, rs: seq<PolicyResult>, freshIds: nat -> string, id: string)
    ensures id in FileRejections(rows, rs, freshIds) <==> id in rows || exists k: nat | k < |rs| :: freshIds(k) == id
  {
    if rs == [] {
    } else {
      RejectionIds(rows, rs[..|rs| - 1], freshIds, id);
    }
  }

  /** Every rejection gets a row of its own, too, and none counts as ALLOWED. */
  lemma {:induction false} RejectionsFiled(st: Store, rs: seq<PolicyResult>, freshIds: nat -> string)
    requires forall r | r in rs :: r.Rejected? && r.proposalId in st.proposals
    requires Injective(freshIds) && forall k: nat :: freshIds(k) !in st.rows
    ensures PersistDecisions(st, rs, freshIds) == Ok(st.(rows := FileRejections(st.rows, rs, freshIds)))
    ensures |FileRejections(st.rows, rs, freshIds)| == |st.rows| + |rs|
    ensures AutoCount(FileRejections(st.rows, rs, freshIds)) == AutoCount(st.rows)
  {
    hide AutoCount;
    if rs == [] {
    } else {
      var n := |rs| - 1;
      var (front, r) := (rs[..n], rs[n]);
      assert r in rs && forall x | x in front :: x in rs;
      RejectionsFiled(st, front, freshIds);
      RejectionIds(st.rows, front, freshIds, freshIds(n));
      FiledIff(st.(rows := FileRejections(st.rows, front, freshIds)), r, freshIds(n));
      CountsFiledRow(FileRejections(st.rows, front, freshIds), freshIds(n), RejectionRow(r));
    }
  }

  /** The rows and the ALLOWED decisions a run adds. */
  function RowsAdded(cfg: Config, s: State): nat {
    if s.eligibility == Some(Eligible) then |s.proposals| else 0
  }

  function UnaskedAdded(cfg: Config, s: State): nat {
    if s.eligibility == Some(Eligible) && cfg.policy.enabled then |Unasked(cfg.policy, s.proposals)| else 0
  }

  lemma ResultKeepsCounts(st: Store, id: string, success: bool)
    requires RecordResult(st, id, success).Ok?
    ensures |RecordResult(st, id, success).value.rows| == |st.rows|
    ensures AutoCount(RecordResult(st, id, success).value.rows) == AutoCount(st.rows)
  {
    CountsKept(st.rows, RecordResult(st, id, success).value.rows);
  }

  lemma EnabledRunCounts(cfg: Config, ctx: Context, st: Store, s: State, freshIds: nat -> string)
    requires Valid(st) && Keyed(st) && FreshIds(st, ctx.proposalIds, ctx.actionIds)
    requires RunState(cfg, ctx, s) && s.eligibility == Some(Eligible) && cfg.policy.enabled && Persist(st, s, freshIds).Ok?
    ensures |Persist(st, s, freshIds).value.rows| == |st.rows| + |s.proposals|
    ensures AutoCount(Persist(st, s, freshIds).value.rows) == AutoCount(st.rows) + |Unasked(cfg.policy, s.proposals)|
  {
    hide Valid, Keyed, FreshIds, DistinctIds, DrawnFrom, WellTyped, FreshResults, FileAll, PersistDecisions, RunState;
    hide PersistProposals, Injective, RecordResult, ResultsToPersist, AutoCount, Unasked, AllowedOnes;
    EligibleFacts(cfg, ctx, s);
    InjectiveOf(st, ctx);
    EnabledFiled(cfg, ctx, st, s.proposals, freshIds);
    ProposalsPersisted(st, s.proposals);
    CountsFiledAll(PersistProposals(st, s.proposals), s.allResults);
    AllowedAreUnasked(cfg.policy, s.proposals, ctx.actionIds);
    if s.executed.Some? && s.policyResult.Some? && Executable(s.policyResult.value) {
      ResultKeepsCounts(PersistDecisions(PersistProposals(st, s.proposals), ResultsToPersist(s), freshIds).value,
                        s.policyResult.value.action.id, s.executed.value);
    }
  }

  lemma DisabledRunCounts(cfg: Config, ctx: Context, st: Store, s: State, freshIds: nat -> string)
    requires RunState(cfg, ctx, s) && s.eligibility == Some(Eligible) && !cfg.policy.enabled && Persist(st, s, freshIds).Ok?
    requires Injective(freshIds) && forall k: nat :: freshIds(k) !in st.rows
    ensures |Persist(st, s, freshIds).value.rows| == |st.rows| + |s.proposals|
    ensures AutoCount(Persist(st, s, freshIds).value.rows) == AutoCount(st.rows)
  {
    hide DistinctIds, DrawnFrom, WellTyped, PersistDecisions, PersistProposals, RecordResult, AutoCount, EvaluatePolicy, Choice;
    EligibleFacts(cfg, ctx, s);
    DisabledRejectsAll(cfg, ctx, s.proposals);
    ResultProposals(cfg, ctx, s.proposals);
    ProposalsPersisted(st, s.proposals);
    if s.policyResult.Some? && Executable(s.policyResult.value) {
      ExecutableMeansEnabled(cfg, ctx, s);
    }
    forall r | r in s.allResults ensures r.Rejected? && r.proposalId in PersistProposals(st, s.proposals).proposals {
      assert exists p | p in s.proposals :: p.id == ProposalOf(r);
    }
    RejectionsFiled(PersistProposals(st, s.proposals), s.allResults, freshIds);
  }

  lemma IneligibleRunCounts(cfg: Config, ctx: Context, st: Store, s: State, freshIds: nat -> string)
    requires RunState(cfg, ctx, s) && s.eligibility != Some(Eligible) && Persist(st, s, freshIds).Ok?
    ensures Persist(st, s, freshIds).value.rows == st.rows
  {
    hide DistinctIds, DrawnFrom, WellTyped, EvaluateAll, Choice, PersistProposals, RecordResult;
    ProposalsPersisted(st, s.proposals);
  }

  /** A run raises the attempt count by one for each of its proposals, and the automatic count by one for each
      that runs unasked, when it is eligible; otherwise by nothing.  With remediation disabled it files
      rejections only. */
  lemma RunCountsRows(cfg: Config, i: Incident, run: RunInput)
    requires IncidentInv(cfg, i) && FreshIds(i.store, run.proposalIds, run.actionIds)
    requires !cfg.policy.enabled ==> Injective(run.freshIds) && forall k: nat :: run.freshIds(k) !in i.store.rows
    ensures RunInvestigation(cfg, i, run).Ok?
    ensures var (s, rows') := (Final(cfg, RunContext(i, run), START, run.oracle, 0).state, RunInvestigation(cfg, i, run).value.store.rows);
            && |rows'| == |i.store.rows| + RowsAdded(cfg, s)
            && AutoCount(rows') == AutoCount(i.store.rows) + UnaskedAdded(cfg, s)
  {
    hide IncidentInv, FreshIds, RunState, Trace, Inv, Visits, Persist, RunInvestigation, AutoCount, Final, Unasked;
    RunCounts(cfg, i, run);
    var ctx := RunContext(i, run);
    FinalIsLast(cfg, ctx, START, run.oracle, 0);
    var s := Final(cfg, ctx, START, run.oracle, 0).state;
    RunEnds(cfg, ctx, run.oracle);
    RunFacts(cfg, i, run);
    if s.eligibility != Some(Eligible) {
      IneligibleRunCounts(cfg, ctx, i.store, s, run.freshIds);
    } else if cfg.policy.enabled {
      EnabledRunCounts(cfg, ctx, i.store, s, run.freshIds);
    } else {
      DisabledRunCounts(cfg, ctx, i.store, s, run.freshIds);
    }
  }

  /** A resume moves neither count. */
  lemma ResumeKeepsCounts(cfg: Config, i: Incident, d: Decision, operator: string, pending: real, timeout: real,
                          oracle: nat -> Answer, freshIds: nat -> string)
    requires IncidentInv(cfg, i)
    requires ResumeApproval(cfg, i, d, operator, pending, timeout, oracle, freshIds).Ok?
    ensures var rows' := ResumeApproval(cfg, i, d, operator, pending, timeout, oracle, freshIds).value.store.rows;
            |rows'| == |i.store.rows| && AutoCount(rows') == AutoCount(i.store.rows)
  {
    hide Valid, Keyed, Settled, Resumable, ResumeApproval, AutoCount;
    ResumeAgrees(cfg, i, d, operator, pending, timeout, oracle, freshIds);
    PausedWaits(cfg, i.store, i.thread.value);
    var id := PausedAction(i.thread.value);
    SettledKeeps(i.store, id, d, operator, oracle(0).executorSucceeded);
    CountsKept(i.store.rows, Settled(i.store, id, d, operator, oracle(0).executorSucceeded).rows);
  }

  // ----- Whole histories -----

  /** The proposals that the eligible runs of a history made, and those of them that run unasked. */
  ghost function Attempted(cfg: Config, i: Incident, ops: seq<Op>): nat
    decreases |ops|
  {
    if ops == [] then 0
    else
      (if ops[0].Run? then RowsAdded(cfg, Final(cfg, RunContext(i, ops[0].input), START, ops[0].input.oracle, 0).state) else 0)
      + Attempted(cfg, ApplyOp(cfg, i, ops[0]), ops[1..])
  }

  ghost function AttemptedUnasked(cfg: Config, i: Incident, ops: seq<Op>): nat
    decreases |ops|
  {
    if ops == [] then 0
    else
      (if ops[0].Run? then UnaskedAdded(cfg, Final(cfg, RunContext(i, ops[0].input), START, ops[0].input.oracle, 0).state) else 0)
      + AttemptedUnasked(cfg, ApplyOp(cfg, i, ops[0]), ops[1..])
  }

  lemma OpCounts(cfg: Config, i: Incident, op: Op)
    requires IncidentInv(cfg, i) && cfg.policy.enabled
    requires op.Run? ==> FreshIds(i.store, op.input.proposalIds, op.input.actionIds)
    ensures IncidentInv(cfg, ApplyOp(cfg, i, op))
    ensures var (s, rows') := (if op.Run? then Final(cfg, RunContext(i, op.input), START, op.input.oracle, 0).state else INITIAL,
                               ApplyOp(cfg, i, op).store.rows);
            && |rows'| == |i.store.rows| + (if op.Run? then RowsAdded(cfg, s) else 0)
            && AutoCount(rows') == AutoCount(i.store.rows) + (if op.Run? then UnaskedAdded(cfg, s) else 0)
  {
    hide IncidentInv, RunInvestigation, ResumeApproval, FreshIds, AutoCount, RowsAdded, UnaskedAdded, FailedRun, FailedResume, Final;
    match op
    case Run(input) =>
      RunKeepsInv(cfg, i, input);
      RunCountsRows(cfg, i, input);
    case OperatorDecides(d, operator, pending, timeout, oracle, freshIds) =>
      if ResumeApproval(cfg, i, d, operator, pending, timeout, oracle, freshIds).Ok? {
        InvestigationTheorems.ResumeKeepsInv(cfg, i, d, operator, pending, timeout, oracle, freshIds);
        ResumeKeepsCounts(cfg, i, d, operator, pending, timeout, oracle, freshIds);
      } else {
        RefusalChangesNothing(cfg, i, d, operator, pending, timeout, oracle, freshIds);
      }
  }

  /** Over every history, the two counts the limits are compared with are what its runs proposed. */
  lemma {:induction false} HistoryCounts(cfg: Config, i: Incident, ops: seq<Op>)
    requires IncidentInv(cfg, i) && FreshOps(cfg, i, ops) && cfg.policy.enabled
    ensures |ApplyOps(cfg, i, ops).store.rows| == |i.store.rows| + Attempted(cfg, i, ops)
    ensures AutoCount(ApplyOps(cfg, i, ops).store.rows) == AutoCount(i.store.rows) + AttemptedUnasked(cfg, i, ops)
    decreases |ops|
  {
    hide IncidentInv, FreshIds, AutoCount, RowsAdded, UnaskedAdded, ApplyOp, Final;
    if ops == [] {
    } else {
      OpCounts(cfg, i, ops[0]);
      HistoryCounts(cfg, ApplyOp(cfg, i, ops[0]), ops[1..]);
    }
  }

  /** The run after a history of a new incident executes exactly when it is eligible, its proposals lead to an
      action that runs unasked, and the history's runs proposed fewer actions than the attempt limit, and
      fewer unasked ones than the automatic limit. */
  lemma AutomaticExecutionIff(cfg: Config, ops: seq<Op>, run: RunInput)
    requires cfg.policy.enabled && FreshOps(cfg, NEW_INCIDENT, ops)
    ensures var ctx := RunContext(ApplyOps(cfg, NEW_INCIDENT, ops), run);
            var s := Final(cfg, ctx, START, run.oracle, 0).state;
            s.executed.Some? <==>
              && s.eligibility == Some(Eligible) && s.rootCause.Some?
              && RunsUnasked(cfg.policy, Kind(s.proposals, Some(s.rootCause.value.text), s.classification))
              && Attempted(cfg, NEW_INCIDENT, ops) < cfg.policy.maxAttempts
              && AttemptedUnasked(cfg, NEW_INCIDENT, ops) < cfg.policy.maxAutoExecutions
  {
    hide AutoCount, Attempted, AttemptedUnasked, ApplyOps, FreshOps, Final, Kind, RunsUnasked;
    CountsOfNothing();
    HistoryCounts(cfg, NEW_INCIDENT, ops);
    var ctx := RunContext(ApplyOps(cfg, NEW_INCIDENT, ops), run);
    RunOutcomeIff(cfg, ctx, run.oracle);
    if Final(cfg, ctx, START, run.oracle, 0).state.eligibility == Some(Eligible) {
      RunChoosesByCause(cfg, ctx, run.oracle);
    } else {
      IneligibleChoosesNothing(cfg, ctx, run.oracle);
    }
  }

  lemma IneligibleChoosesNothing(cfg: Config, ctx: Context, oracle: nat -> Answer)
    requires Final(cfg, ctx, START, oracle, 0).state.eligibility != Some(Eligible)
    ensures Final(cfg, ctx, START, oracle, 0).state.policyResult.None?
  {
    hide Trace, Visits, HasProposals, EvaluateAll, Choice, Referential, Looping, Rooted;
    RunEnds(cfg, ctx, oracle);
    FinalIsLast(cfg, ctx, START, oracle, 0);
  }
}
