/** Whole-history theorems about one incident: execution limits, agreement of graph and audit store,
    and when an incident is resolved. */
module InvestigationTheorems {
  import opened Wrappers
  import opened Policy
  import opened Proposals
  import opened Graph
  import opened GraphInvariants
  import opened GraphTheorems
  import opened Audit
  import opened Investigation

  /** The random ids of a run have not been used before and do not collide. */
  ghost predicate FreshIds(st: Store, proposalIds: nat -> string, actionIds: string -> string) {
    && Injective(proposalIds)
    && (forall k: nat :: proposalIds(k) !in st.proposals)
    && (forall p, q | actionIds(p) == actionIds(q) :: p == q)
    && (forall p :: actionIds(p) !in st.rows)
  }

  // ----- A run's decisions reach the store -----

  lemma EvaluatedAreFresh(cfg: Config, ctx: Context, st: Store, ps: seq<Proposal>)
    requires Valid(st) && FreshIds(st, ctx.proposalIds, ctx.actionIds) && cfg.policy.enabled
    requires (forall p | p in ps :: WellTyped(p)) && DistinctIds(ps) && DrawnFrom(ps, ctx.proposalIds)
    ensures FreshResults(PersistProposals(st, ps), EvaluateAll(ps, cfg.policy, ctx.actionIds))
  {
    hide EvaluatePolicy, RowValid, WellTyped;
    var rs := EvaluateAll(ps, cfg.policy, ctx.actionIds);
    forall i | 0 <= i < |rs| ensures FreshResult(st, rs[i]) && rs[i].action.id == ctx.actionIds(ps[i].id) && ProposalOf(rs[i]) == ps[i].id {
      TypedExecutableIff(ps[i], cfg.policy, ctx.actionIds);
      assert ps[i] in ps;
    }
    forall i, j | 0 <= i < j < |rs| ensures DistinctResults(rs[i], rs[j]) {
      assert ps[i].id != ps[j].id;
    }
  }

  lemma DisabledRejectsAll(cfg: Config, ctx: Context, ps: seq<Proposal>)
    requires !cfg.policy.enabled
    ensures forall r | r in EvaluateAll(ps, cfg.policy, ctx.actionIds) :: r.Rejected?
  {
  }

  lemma ResultProposals(cfg: Config, ctx: Context, ps: seq<Proposal>)
    ensures forall r | r in EvaluateAll(ps, cfg.policy, ctx.actionIds) :: (exists p | p in ps :: p.id == ProposalOf(r)) && KeyedResult(r)
  {
    hide EvaluatePolicy;
    var rs := EvaluateAll(ps, cfg.policy, ctx.actionIds);
    forall r | r in rs ensures (exists p | p in ps :: p.id == ProposalOf(r)) && KeyedResult(r) {
      var i :| 0 <= i < |rs| && rs[i] == r;
      assert r == EvaluatePolicy(ps[i], cfg.policy, ctx.actionIds) && ps[i] in ps;
    }
  }

  /** The state of a run that decided something, before or after execution. */
  ghost predicate RunState(cfg: Config, ctx: Context, s: State) {
    && HasProposals(ctx, s) && Decided(cfg, ctx, s)
    && (s.executed.Some? ==> s.policyResult.Some? && s.policyResult.value.Allowed?)
  }

  /** What persisting a fresh run's decisions leaves behind. */
  ghost predicate DecisionsStored(st: Store, st': Store, s: State) {
    && Valid(st') && Keyed(st')
    && st'.results == st.results
    && (forall p | p in s.proposals :: p.id in st'.proposals)
    && (forall id | id in st.rows :: id in st'.rows && st'.rows[id] == st.rows[id])
    && (s.policyResult.Some? && Executable(s.policyResult.value) ==>
          && s.policyResult.value.action.id !in st.rows && Filed(st', s.policyResult.value)
          && (forall r | r in s.allResults :: Filed(st', r)))
  }

  ghost predicate Filed(st: Store, r: PolicyResult) {
    Executable(r) && r.action.id in st.rows && st.rows[r.action.id] == DecisionRow(r)
  }

  lemma ProposalsKeepValid(st: Store, ps: seq<Proposal>)
    requires Valid(st) && Keyed(st)
    ensures Valid(PersistProposals(st, ps)) && Keyed(PersistProposals(st, ps))
  {
    hide RowValid;
    var st1 := PersistProposals(st, ps);
    forall id | id in st1.rows ensures RowValid(st1.rows[id], ResultOf(st1, id)) {
      assert RowValid(st.rows[id], ResultOf(st, id)) && ResultOf(st1, id) == ResultOf(st, id);
    }
  }

  /** With remediation enabled every evaluated proposal gets its own row. */
  lemma EnabledFiled(cfg: Config, ctx: Context, st: Store, ps: seq<Proposal>, freshIds: nat -> string)
    requires Valid(st) && Keyed(st) && FreshIds(st, ctx.proposalIds, ctx.actionIds) && cfg.policy.enabled
    requires (forall p | p in ps :: WellTyped(p)) && DistinctIds(ps) && DrawnFrom(ps, ctx.proposalIds)
    ensures var st1 := PersistProposals(st, ps);
            var rs := EvaluateAll(ps, cfg.policy, ctx.actionIds);
            && FreshResults(st1, rs)
            && PersistDecisions(st1, rs, freshIds) == Ok(st1.(rows := FileAll(st1.rows, rs)))
  {
    hide Valid, EvaluateAll, Choice, WellTyped, DistinctIds, DrawnFrom, FreshIds, FreshResults, PersistDecisions, FileAll;
    ProposalsKeepValid(st, ps);
    ResultProposals(cfg, ctx, ps);
    EvaluatedAreFresh(cfg, ctx, st, ps);
    FreshDecisionsFiled(PersistProposals(st, ps), EvaluateAll(ps, cfg.policy, ctx.actionIds), freshIds);
  }

  ghost predicate NewlyFiled(st: Store, st': Store, r: PolicyResult) {
    Filed(st', r) && r.action.id !in st.rows
  }

  lemma AllNewlyFiled(st: Store, rs: seq<PolicyResult>)
    requires FreshResults(st, rs)
    ensures forall r | r in rs :: NewlyFiled(st, st.(rows := FileAll(st.rows, rs)), r)
  {
    hide FileAll, DecisionRow, FreshResults;
    forall r | r in rs ensures NewlyFiled(st, st.(rows := FileAll(st.rows, rs)), r) {
      var i :| 0 <= i < |rs| && rs[i] == r;
      FreshMembers(st, rs, i);
      FileAllHas(st.rows, rs, i);
    }
  }

  lemma EnabledStored(cfg: Config, ctx: Context, st: Store, ps: seq<Proposal>, freshIds: nat -> string)
    requires Valid(st) && Keyed(st) && FreshIds(st, ctx.proposalIds, ctx.actionIds) && cfg.policy.enabled
    requires (forall p | p in ps :: WellTyped(p)) && DistinctIds(ps) && DrawnFrom(ps, ctx.proposalIds)
    ensures var st1 := PersistProposals(st, ps);
            var rs := EvaluateAll(ps, cfg.policy, ctx.actionIds);
            var d := PersistDecisions(st1, rs, freshIds);
            d.Ok? && forall r | r in rs :: NewlyFiled(st1, d.value, r)
  {
    hide *;
    EnabledFiled(cfg, ctx, st, ps, freshIds);
    AllNewlyFiled(PersistProposals(st, ps), EvaluateAll(ps, cfg.policy, ctx.actionIds));
  }

  lemma EligibleFacts(cfg: Config, ctx: Context, s: State)
    requires RunState(cfg, ctx, s) && s.eligibility == Some(Eligible)
    ensures s.allResults == EvaluateAll(s.proposals, cfg.policy, ctx.actionIds) && s.allResults != []
    ensures s.policyResult.Some? && (Executable(s.policyResult.value) ==> s.policyResult.value in s.allResults)
    ensures ResultsToPersist(s) == s.allResults
    ensures forall p | p in s.proposals :: WellTyped(p)
    ensures Injective(ctx.proposalIds) ==> DistinctIds(s.proposals) && DrawnFrom(s.proposals, ctx.proposalIds)
  {
    hide EvaluateAll, Choice, WellTyped, DistinctIds, DrawnFrom, Injective;
    EvaluatedNonEmpty(cfg, ctx, s.proposals);
  }

  lemma ProposalsPersisted(st: Store, ps: seq<Proposal>)
    ensures var st1 := PersistProposals(st, ps);
            st1.rows == st.rows && st1.results == st.results && forall p | p in ps :: p.id in st1.proposals
  {
  }

  lemma EligibleRunStored(cfg: Config, ctx: Context, st: Store, s: State, freshIds: nat -> string)
    requires Valid(st) && Keyed(st) && FreshIds(st, ctx.proposalIds, ctx.actionIds)
    requires RunState(cfg, ctx, s) && s.eligibility == Some(Eligible)
    ensures var d := PersistDecisions(PersistProposals(st, s.proposals), ResultsToPersist(s), freshIds);
            d.Ok? && DecisionsStored(st, d.value, s)
  {
    hide Valid, Keyed, EvaluateAll, Choice, WellTyped, DistinctIds, DrawnFrom, FreshIds, PersistDecisions, Injective, Filed, RunState;
    hide PersistProposals, ResultsToPersist, KeyedResult;
    var st1 := PersistProposals(st, s.proposals);
    EligibleFacts(cfg, ctx, s);
    ProposalsPersisted(st, s.proposals);
    ProposalsKeepValid(st, s.proposals);
    ResultProposals(cfg, ctx, s.proposals);
    DecisionsExtend(st1, s.allResults, freshIds);
    if cfg.policy.enabled {
      InjectiveOf(st, ctx);
      EnabledStored(cfg, ctx, st, s.proposals, freshIds);
    } else {
      DisabledRejectsAll(cfg, ctx, s.proposals);
    }
  }

  lemma FreshRunStored(cfg: Config, ctx: Context, st: Store, s: State, freshIds: nat -> string)
    requires Valid(st) && Keyed(st) && FreshIds(st, ctx.proposalIds, ctx.actionIds) && RunState(cfg, ctx, s)
    ensures var d := PersistDecisions(PersistProposals(st, s.proposals), ResultsToPersist(s), freshIds);
            d.Ok? && DecisionsStored(st, d.value, s)
  {
    if s.eligibility == Some(Eligible) {
      EligibleRunStored(cfg, ctx, st, s, freshIds);
    } else {
      hide Valid, Keyed, EvaluateAll, Choice, WellTyped, DistinctIds, DrawnFrom, FreshIds, Injective, Filed, PersistProposals;
      ProposalsPersisted(st, s.proposals);
      ProposalsKeepValid(st, s.proposals);
    }
  }

  lemma EvaluatedNonEmpty(cfg: Config, ctx: Context, ps: seq<Proposal>)
    requires ps != []
    ensures EvaluateAll(ps, cfg.policy, ctx.actionIds) != []
  {
  }

  lemma FreshMembers(st: Store, rs: seq<PolicyResult>, i: nat)
    requires FreshResults(st, rs) && i < |rs|
    ensures Executable(rs[i]) && rs[i].action.id !in st.rows
    ensures forall i, j | 0 <= i < j < |rs| :: DistinctResults(rs[i], rs[j])
  {
    assert FreshResult(st, rs[i]);
  }

  lemma InjectiveOf(st: Store, ctx: Context)
    requires FreshIds(st, ctx.proposalIds, ctx.actionIds)
    ensures Injective(ctx.proposalIds)
  {
  }

  // ----- Counting rows -----

  lemma CountsGrow(rows: map<string, Row>, rows': map<string, Row>)
    requires forall k | k in rows :: k in rows' && rows'[k].decision == rows[k].decision
    ensures |rows| <= |rows'| && AutoCount(rows) <= AutoCount(rows')
    ensures forall id | id in rows' && id !in rows ::
              |rows| + 1 <= |rows'| && (rows'[id].decision == AllowedDecision ==> AutoCount(rows) + 1 <= AutoCount(rows'))
  {
    SubsetSize(rows.Keys, rows'.Keys);
    var (a, b) := (set k | k in rows && rows[k].decision == AllowedDecision, set k | k in rows' && rows'[k].decision == AllowedDecision);
    SubsetSize(a, b);
    forall id | id in rows' && id !in rows
      ensures |rows| + 1 <= |rows'| && (rows'[id].decision == AllowedDecision ==> AutoCount(rows) + 1 <= AutoCount(rows'))
    {
      SubsetSize(rows.Keys + {id}, rows'.Keys);
      if rows'[id].decision == AllowedDecision {
        SubsetSize(a + {id}, b);
      }
    }
  }

  lemma {:induction false} SubsetSize<T>(a: set<T>, b: set<T>)
    requires a <= b
    ensures |a| <= |b|
    decreases a
  {
    if x :| x in a {
      SubsetSize(a - {x}, b - {x});
    }
  }

  // ----- The incident invariant -----

  function Allowance(limit: int): nat {
    if limit < 0 then 0 else limit
  }

  /** A paused approval still counts as an execution to come. */
  function Pending(i: Incident): nat {
    if i.thread.Some? then 1 else 0
  }

  ghost predicate Resumable(cfg: Config, st: Store, p: Paused) {
    && Inv(cfg, p.ctx, Point(AwaitApproval, p.state))
    && p.state.policyResult.Some? && Executable(p.state.policyResult.value)
    && (forall q | q in p.state.proposals :: q.id in st.proposals)
    && (forall r | r in p.state.allResults :: Executable(r) && r.action.id in st.rows && r.action.proposalId in st.proposals)
    && (var id := p.state.policyResult.value.action.id; id in st.rows && st.rows[id].status == AwaitingApproval)
  }

  ghost predicate IncidentInv(cfg: Config, i: Incident) {
    && Valid(i.store) && Keyed(i.store)
    && i.executions + Pending(i) <= |i.store.rows|
    && i.executions + Pending(i) <= Allowance(cfg.policy.maxAttempts)
    && i.autoExecutions <= AutoCount(i.store.rows)
    && i.autoExecutions <= Allowance(cfg.policy.maxAutoExecutions)
    && (i.status == AwaitingOperator <==> i.thread.Some?)
    && (i.thread.Some? ==> Resumable(cfg, i.store, i.thread.value))
  }

  // ----- A run -----

  /** The facts about where a run from the start ends that the service relies on. */
  lemma RunEnds(cfg: Config, ctx: Context, oracle: nat -> Answer)
    ensures var t := Trace(cfg, ctx, START, oracle, 0);
            var q := t[|t| - 1];
            && Inv(cfg, ctx, q) && q.node in {AwaitApproval, End}
            && RunState(cfg, ctx, q.state) && q.state.approval.None?
            && Visits(ExecuteNode, t) == (if q.state.executed.Some? then 1 else 0)
            && (q.node == AwaitApproval ==>
                  q.state.executed.None? && q.state.policyResult.Some? && q.state.policyResult.value.ApprovalRequired?)
            && (q.node == End && q.state.executed.None? ==> !(q.state.policyResult.Some? && q.state.policyResult.value.Allowed?))
  {
    hide Trace, Visits, HasProposals, EvaluateAll, Choice, Referential, Looping, Rooted;
    InitialInv(cfg, ctx);
    TraceKeepsInv(cfg, ctx, START, oracle, 0);
    RunsAreBounded(cfg, ctx, oracle);
    ExecutorCalls(cfg, ctx, START, oracle, 0);
    ApprovalUntouched(cfg, ctx, START, oracle, 0);
    var t := Trace(cfg, ctx, START, oracle, 0);
    assert Inv(cfg, ctx, t[|t| - 1]);
  }

  function Recorded(st: Store, id: string, success: bool): Store
    requires id in st.rows
  {
    st.(rows := st.rows[id := st.rows[id].(status := if success then Succeeded else Failed, claimExpiresAt := None)],
        results := st.results[id := success])
  }

  /** Recording the executor's verdict on an approved action is legal. */
  lemma ExecutionStored(st: Store, id: string, success: bool)
    requires Valid(st) && Keyed(st) && id in st.rows && st.rows[id].status == Approved
    ensures RecordResult(st, id, success) == Ok(Recorded(st, id, success))
    ensures Valid(Recorded(st, id, success)) && Keyed(Recorded(st, id, success))
  {
    hide Valid;
    NoResultYet(st, id);
    PerformKeepsValid(st, ResultCall(id, success));
  }

  lemma NoResultYet(st: Store, id: string)
    requires Valid(st) && id in st.rows && st.rows[id].status == Approved
    ensures id !in st.results
  {
    assert RowValid(st.rows[id], ResultOf(st, id));
  }

  /** Persisting a finished or paused run never fails, and the executed action's row carries the
      executor's verdict. */
  lemma RunPersisted(cfg: Config, ctx: Context, st: Store, s: State, freshIds: nat -> string)
    requires Valid(st) && Keyed(st) && FreshIds(st, ctx.proposalIds, ctx.actionIds) && RunState(cfg, ctx, s)
    ensures var r := Persist(st, s, freshIds);
            && r.Ok? && Valid(r.value) && Keyed(r.value)
            && (forall p | p in s.proposals :: p.id in r.value.proposals)
            && (forall k | k in st.rows :: k in r.value.rows && r.value.rows[k] == st.rows[k])
            && (s.policyResult.Some? && Executable(s.policyResult.value) ==>
                  var a := s.policyResult.value.action;
                  && a.id !in st.rows && a.id in r.value.rows
                  && r.value.rows[a.id].decision == DecisionRow(s.policyResult.value).decision
                  && r.value.rows[a.id].status == (match s.executed
                                                   case None => DecisionRow(s.policyResult.value).status
                                                   case Some(ok) => if ok then Succeeded else Failed)
                  && (s.executed.Some? ==> ResultOf(r.value, a.id) == s.executed)
                  && (forall x | x in s.allResults :: Executable(x) && x.action.id in r.value.rows))
  {
    hide Valid, RowValid, HasProposals, Decided, FreshIds, PersistDecisions, RecordResult, Keyed;
    FreshRunStored(cfg, ctx, st, s, freshIds);
    var d := PersistDecisions(PersistProposals(st, s.proposals), ResultsToPersist(s), freshIds).value;
    if s.executed.Some? {
      ExecutionStored(d, s.policyResult.value.action.id, s.executed.value);
    }
  }

  lemma DecidedWithinLimits(cfg: Config, ctx: Context, s: State)
    requires RunState(cfg, ctx, s) && s.policyResult.Some? && Executable(s.policyResult.value)
    ensures ctx.priorAttempts < cfg.policy.maxAttempts
    ensures s.policyResult.value.Allowed? ==> ctx.priorAutoExecutions < cfg.policy.maxAutoExecutions
  {
    hide HasProposals, EvaluateAll, Choice;
  }

  /** One more executable decision still fits within every bound. */
  lemma RunBounds(cfg: Config, i: Incident, ctx: Context, s: State, st': Store)
    requires IncidentInv(cfg, i) && RunState(cfg, ctx, s)
    requires ctx.priorAttempts == |i.store.rows| && ctx.priorAutoExecutions == AutoCount(i.store.rows)
    requires forall k | k in i.store.rows :: k in st'.rows && st'.rows[k] == i.store.rows[k]
    requires s.policyResult.Some? && Executable(s.policyResult.value) ==>
               var id := s.policyResult.value.action.id;
               && id !in i.store.rows && id in st'.rows
               && st'.rows[id].decision == (if s.policyResult.value.Allowed? then AllowedDecision else ApprovalDecision)
    ensures |i.store.rows| <= |st'.rows| && AutoCount(i.store.rows) <= AutoCount(st'.rows)
    ensures s.policyResult.Some? && Executable(s.policyResult.value) ==>
              i.executions + Pending(i) + 1 <= |st'.rows| && i.executions + Pending(i) + 1 <= Allowance(cfg.policy.maxAttempts)
    ensures s.policyResult.Some? && s.policyResult.value.Allowed? ==>
              i.autoExecutions + 1 <= AutoCount(st'.rows) && i.autoExecutions + 1 <= Allowance(cfg.policy.maxAutoExecutions)
  {
    hide Valid, Keyed, Resumable, RunState, AutoCount;
    CountsGrow(i.store.rows, st'.rows);
    if s.policyResult.Some? && Executable(s.policyResult.value) {
      DecidedWithinLimits(cfg, ctx, s);
    }
  }

  /** Concluding a run within bounds keeps the incident's invariant. */
  lemma ConcludeKeepsInv(cfg: Config, i: Incident, ctx: Context, t: seq<Point>, freshIds: nat -> string, st': Store)
    requires IncidentInv(cfg, i) && t != [] && Persist(i.store, t[|t| - 1].state, freshIds) == Ok(st')
    requires Valid(st') && Keyed(st')
    requires |i.store.rows| <= |st'.rows| && AutoCount(i.store.rows) <= AutoCount(st'.rows)
    requires var s := t[|t| - 1].state;
             && s.proposals != []
             && (s.policyResult.Some? && Executable(s.policyResult.value) ==>
                   i.executions + Pending(i) + 1 <= |st'.rows| && i.executions + Pending(i) + 1 <= Allowance(cfg.policy.maxAttempts))
             && (s.policyResult.Some? && s.policyResult.value.Allowed? ==>
                   i.autoExecutions + 1 <= AutoCount(st'.rows) && i.autoExecutions + 1 <= Allowance(cfg.policy.maxAutoExecutions))
             && Visits(ExecuteNode, t) == (if s.executed.Some? then 1 else 0)
             && (s.executed.Some? ==> s.policyResult.Some? && s.policyResult.value.Allowed?)
             && (t[|t| - 1].node == AwaitApproval ==>
                   s.executed.None? && s.policyResult.Some? && s.policyResult.value.ApprovalRequired? && Resumable(cfg, st', Paused(ctx, s)))
    ensures Conclude(i, ctx, t, freshIds).Ok? && IncidentInv(cfg, Conclude(i, ctx, t, freshIds).value)
  {
    hide Valid, Keyed, Visits, Persist, AutoCount, Resumable, Allowance;
  }

  /** One investigation keeps every bound and never fails to persist. */
  lemma RunKeepsInv(cfg: Config, i: Incident, run: RunInput)
    requires IncidentInv(cfg, i) && FreshIds(i.store, run.proposalIds, run.actionIds)
    ensures RunInvestigation(cfg, i, run).Ok? && IncidentInv(cfg, RunInvestigation(cfg, i, run).value)
  {
    hide Valid, Keyed, Trace, Visits, FreshIds, Inv, RunState, Persist, AutoCount, Resumable, Allowance, Conclude;
    var ctx := RunContext(i, run);
    var t := Trace(cfg, ctx, START, run.oracle, 0);
    var s := t[|t| - 1].state;
    RunEnds(cfg, ctx, run.oracle);
    RunPersisted(cfg, ctx, i.store, s, run.freshIds);
    var st' := Persist(i.store, s, run.freshIds).value;
    RunBounds(cfg, i, ctx, s, st');
    if t[|t| - 1].node == AwaitApproval {
      PausedResumable(cfg, ctx, s, st');
    }
    if s.executed.Some? {
      ExecutedAllowed(cfg, ctx, s);
    }
    RunProposes(cfg, ctx, s);
    ConcludeKeepsInv(cfg, i, ctx, t, run.freshIds, st');
  }

  lemma ExecutedAllowed(cfg: Config, ctx: Context, s: State)
    requires RunState(cfg, ctx, s) && s.executed.Some?
    ensures s.policyResult.Some? && s.policyResult.value.Allowed?
  {
  }

  lemma RunProposes(cfg: Config, ctx: Context, s: State)
    requires RunState(cfg, ctx, s)
    ensures s.proposals != []
  {
  }

  lemma PausedResumable(cfg: Config, ctx: Context, s: State, st: Store)
    requires Inv(cfg, ctx, Point(AwaitApproval, s))
    requires forall p | p in s.proposals :: p.id in st.proposals
    requires forall r | r in s.allResults :: Executable(r) && r.action.id in st.rows
    requires s.policyResult.value.action.id in st.rows && st.rows[s.policyResult.value.action.id].status == AwaitingApproval
    ensures Resumable(cfg, st, Paused(ctx, s))
  {
    hide Referential, Looping, Rooted, EvaluateAll, Choice;
    ResultProposals(cfg, ctx, s.proposals);
  }

  // ----- A resume -----

  /** The operator's decision recorded on the paused action. */
  function Ruled(st: Store, id: string, d: Decision, operator: string): Store
    requires id in st.rows
  {
    st.(rows := st.rows[id := st.rows[id].(status := if d == Decision.Approve then Approved else RejectedStatus,
                                           approvedBy := Some(operator))])
  }

  lemma RulingStored(st: Store, id: string, d: Decision, operator: string)
    requires Valid(st) && Keyed(st) && id in st.rows && st.rows[id].status == AwaitingApproval
    ensures RecordApproval(st, id, d == Decision.Approve, operator) == Ok(Ruled(st, id, d, operator))
    ensures Valid(Ruled(st, id, d, operator)) && Keyed(Ruled(st, id, d, operator))
  {
    hide Valid;
    PerformKeepsValid(st, Call.Approve(id, d == Decision.Approve, operator));
  }

  /** A store after the whole resume. */
  function Settled(st: Store, id: string, d: Decision, operator: string, success: bool): Store
    requires id in st.rows
  {
    if d == Decision.Approve then Recorded(Ruled(st, id, d, operator), id, success) else Ruled(st, id, d, operator)
  }

  /** The action whose approval a thread awaits. */
  function PausedAction(p: Paused): string
    requires p.state.policyResult.Some? && Executable(p.state.policyResult.value)
  {
    p.state.policyResult.value.action.id
  }

  lemma ResumePersisted(cfg: Config, st: Store, p: Paused, d: Decision, operator: string, oracle: nat -> Answer, freshIds: nat -> string)
    requires Valid(st) && Keyed(st) && Resumable(cfg, st, p)
    ensures var t := Trace(cfg, p.ctx, Graph.Resume(p.state, d), oracle, 0);
            var id := PausedAction(p);
            Persist(Ruled(st, id, d, operator), t[|t| - 1].state, freshIds)
              == Ok(Settled(st, id, d, operator, oracle(0).executorSucceeded))
  {
    hide Valid, Keyed, Trace, EvaluateAll, Choice, Referential, Looping, Rooted, RecordResult, Recorded, RecordApproval;
    hide PersistDecisions, PersistProposals, HasProposals, Visits;
    var id := PausedAction(p);
    var st1 := Ruled(st, id, d, operator);
    RulingStored(st, id, d, operator);
    ResumeEnds(cfg, p.ctx, p.state, d, oracle);
    var t := Trace(cfg, p.ctx, Graph.Resume(p.state, d), oracle, 0);
    var s := t[|t| - 1].state;
    ProposalsReplay(st1, s.proposals);
    DecisionsReplay(st1, ResultsToPersist(s), freshIds);
    if d == Decision.Approve {
      ExecutionStored(st1, id, oracle(0).executorSucceeded);
    }
  }

  lemma ProposalsReplay(st: Store, ps: seq<Proposal>)
    requires forall p | p in ps :: p.id in st.proposals
    ensures PersistProposals(st, ps) == st
  {
    assert st.proposals + (set p | p in ps :: p.id) == st.proposals;
  }

  lemma PausedIsWaiting(cfg: Config, st: Store, p: Paused)
    requires Resumable(cfg, st, p)
    ensures Inv(cfg, p.ctx, Point(AwaitApproval, p.state))
    ensures p.state.policyResult.Some? && Executable(p.state.policyResult.value)
    ensures PausedAction(p) in AwaitingActions(st) && PausedAction(p) in st.rows && st.rows[PausedAction(p)].status == AwaitingApproval
  {
    hide Inv;
  }

  /** What a successful resume does, in full: the audit store, the executor and the incident agree. */
  lemma ResumeAgrees(cfg: Config, i: Incident, d: Decision, operator: string, pending: real, timeout: real,
                     oracle: nat -> Answer, freshIds: nat -> string)
    requires IncidentInv(cfg, i)
    requires ResumeApproval(cfg, i, d, operator, pending, timeout, oracle, freshIds).Ok?
    ensures i.thread.Some? && Resumable(cfg, i.store, i.thread.value)
    ensures var i' := ResumeApproval(cfg, i, d, operator, pending, timeout, oracle, freshIds).value;
            var id := PausedAction(i.thread.value);
            && i'.store == Settled(i.store, id, d, operator, oracle(0).executorSucceeded)
            && i'.executions == i.executions + (if d == Decision.Approve then 1 else 0)
            && i'.autoExecutions == i.autoExecutions
            && i'.thread.None?
            && i'.status == (if d == Decision.Approve && oracle(0).executorSucceeded && oracle(1).recovered == Some(true)
                             then Resolved else RemediationProposed)
  {
    hide Valid, Keyed, Trace, Visits, Persist, Settled, Ruled, RecordApproval, AutoCount, Resumable, AwaitingActions, Inv;
    var p := i.thread.value;
    PausedIsWaiting(cfg, i.store, p);
    var id := PausedAction(p);
    forall k | k in AwaitingActions(i.store) && |AwaitingActions(i.store)| <= 1 ensures k == id {
      OnlyMember(AwaitingActions(i.store), k, id);
    }
    RulingStored(i.store, id, d, operator);
    ResumePersisted(cfg, i.store, p, d, operator, oracle, freshIds);
    ResumeEnds(cfg, p.ctx, p.state, d, oracle);
    PausedFacts(cfg, p.ctx, p.state);
  }

  lemma SettledKeeps(st: Store, id: string, d: Decision, operator: string, success: bool)
    requires Valid(st) && Keyed(st) && id in st.rows && st.rows[id].status == AwaitingApproval
    ensures var st' := Settled(st, id, d, operator, success);
            && Valid(st') && Keyed(st') && st'.rows.Keys == st.rows.Keys
            && (forall k | k in st.rows :: st'.rows[k].decision == st.rows[k].decision)
            && (forall k | k in st.rows && k != id :: st'.rows[k] == st.rows[k])
            && st'.rows[id].status == (if d != Decision.Approve then RejectedStatus else if success then Succeeded else Failed)
            && (if d == Decision.Approve then st'.results == st.results[id := success] else st'.results == st.results)
  {
    hide Valid, Keyed, RecordApproval, RecordResult;
    RulingStored(st, id, d, operator);
    if d == Decision.Approve {
      ExecutionStored(Ruled(st, id, d, operator), id, success);
    }
  }

  lemma ResumeKeepsInv(cfg: Config, i: Incident, d: Decision, operator: string, pending: real, timeout: real,
                       oracle: nat -> Answer, freshIds: nat -> string)
    requires IncidentInv(cfg, i)
    requires ResumeApproval(cfg, i, d, operator, pending, timeout, oracle, freshIds).Ok?
    ensures IncidentInv(cfg, ResumeApproval(cfg, i, d, operator, pending, timeout, oracle, freshIds).value)
  {
    hide Valid, Keyed, Settled, Resumable, ResumeApproval, AutoCount;
    ResumeAgrees(cfg, i, d, operator, pending, timeout, oracle, freshIds);
    var i' := ResumeApproval(cfg, i, d, operator, pending, timeout, oracle, freshIds).value;
    PausedWaits(cfg, i.store, i.thread.value);
    var id := PausedAction(i.thread.value);
    SettledKeeps(i.store, id, d, operator, oracle(0).executorSucceeded);
    CountsGrow(i.store.rows, i'.store.rows);
  }

  lemma PausedWaits(cfg: Config, st: Store, p: Paused)
    requires Resumable(cfg, st, p)
    ensures p.state.policyResult.Some? && Executable(p.state.policyResult.value)
    ensures PausedAction(p) in st.rows && st.rows[PausedAction(p)].status == AwaitingApproval
  {
  }

  /** Once the guards pass, a resume always goes through: neither recording the decision, nor the graph,
      nor persisting its outcome can fail. */
  lemma ResumeSucceedsIff(cfg: Config, i: Incident, d: Decision, operator: string, pending: real, timeout: real,
                          oracle: nat -> Answer, freshIds: nat -> string)
    requires IncidentInv(cfg, i)
    ensures ResumeApproval(cfg, i, d, operator, pending, timeout, oracle, freshIds).Ok?
       <==> i.status == AwaitingOperator && |AwaitingActions(i.store)| == 1 && pending <= timeout
  {
    hide Valid, Keyed, Trace, Visits, Persist, Settled, Ruled, RecordApproval, AutoCount, Inv;
    if i.status == AwaitingOperator && |AwaitingActions(i.store)| == 1 {
      var p := i.thread.value;
      var id := PausedAction(p);
      assert id in AwaitingActions(i.store);
      forall k | k in AwaitingActions(i.store) ensures k == id {
        OnlyMember(AwaitingActions(i.store), k, id);
      }
      RulingStored(i.store, id, d, operator);
      ResumePersisted(cfg, i.store, p, d, operator, oracle, freshIds);
    }
  }

  /** A resume that does not go through was refused by a guard, and changed nothing. */
  lemma RefusalChangesNothing(cfg: Config, i: Incident, d: Decision, operator: string, pending: real, timeout: real,
                              oracle: nat -> Answer, freshIds: nat -> string)
    requires IncidentInv(cfg, i)
    requires ResumeApproval(cfg, i, d, operator, pending, timeout, oracle, freshIds).Err?
    ensures var e := ResumeApproval(cfg, i, d, operator, pending, timeout, oracle, freshIds).error;
            !e.AuditFailure? && FailedResume(cfg, i, d, oracle, e) == i
  {
    hide IncidentInv, Conclude, Trace, RecordApproval;
    ResumeSucceedsIff(cfg, i, d, operator, pending, timeout, oracle, freshIds);
  }

  // ----- Whole histories -----

  datatype Op =
    | Run(input: RunInput)
    | OperatorDecides(decision: Decision, operator: string, pending: real, timeout: real, oracle: nat -> Answer, freshIds: nat -> string)

  /** An operation that raises leaves what its exception handler leaves. */
  ghost function ApplyOp(cfg: Config, i: Incident, op: Op): Incident {
    match op
    case Run(input) =>
      var r := RunInvestigation(cfg, i, input);
      if r.Ok? then r.value else FailedRun(cfg, i, input)
    case OperatorDecides(d, operator, pending, timeout, oracle, freshIds) =>
      var r := ResumeApproval(cfg, i, d, operator, pending, timeout, oracle, freshIds);
      if r.Ok? then r.value else FailedResume(cfg, i, d, oracle, r.error)
  }

  ghost function ApplyOps(cfg: Config, i: Incident, ops: seq<Op>): Incident
    decreases |ops|
  {
    if ops == [] then i else ApplyOps(cfg, ApplyOp(cfg, i, ops[0]), ops[1..])
  }

  /** Every run draws ids the store has not seen. */
  ghost predicate FreshOps(cfg: Config, i: Incident, ops: seq<Op>)
    decreases |ops|
  {
    ops == [] ||
    (&& (ops[0].Run? ==> FreshIds(i.store, ops[0].input.proposalIds, ops[0].input.actionIds))
     && FreshOps(cfg, ApplyOp(cfg, i, ops[0]), ops[1..]))
  }

  lemma {:induction false} HistoryKeepsInv(cfg: Config, i: Incident, ops: seq<Op>)
    requires IncidentInv(cfg, i) && FreshOps(cfg, i, ops)
    ensures IncidentInv(cfg, ApplyOps(cfg, i, ops))
    decreases |ops|
  {
    hide IncidentInv, RunInvestigation, ResumeApproval, FreshIds, FailedRun, FailedResume;
    if ops == [] {
    } else {
      match ops[0] {
        case Run(input) => RunKeepsInv(cfg, i, input);
        case OperatorDecides(d, operator, pending, timeout, oracle, freshIds) =>
          if ResumeApproval(cfg, i, d, operator, pending, timeout, oracle, freshIds).Ok? {
            ResumeKeepsInv(cfg, i, d, operator, pending, timeout, oracle, freshIds);
          } else {
            RefusalChangesNothing(cfg, i, d, operator, pending, timeout, oracle, freshIds);
          }
      }
      HistoryKeepsInv(cfg, ApplyOp(cfg, i, ops[0]), ops[1..]);
    }
  }

  /** Over any sequence of investigations and operator decisions on one incident, with every answer of
      the outside world arbitrary, the executor is called at most `maxAttempts` times in all and at most
      `maxAutoExecutions` times without approval, even counting an approval still pending. */
  lemma ExecutionsWithinLimits(cfg: Config, ops: seq<Op>)
    requires FreshOps(cfg, NEW_INCIDENT, ops)
    ensures var i := ApplyOps(cfg, NEW_INCIDENT, ops);
            && i.executions + Pending(i) <= Allowance(cfg.policy.maxAttempts)
            && i.executions + Pending(i) <= |i.store.rows|
            && i.autoExecutions <= Allowance(cfg.policy.maxAutoExecutions)
            && i.autoExecutions <= AutoCount(i.store.rows)
  {
    HistoryKeepsInv(cfg, NEW_INCIDENT, ops);
  }

  // ----- Agreement and resolution -----

  /** The counters and the status move by what the graph did (a run by itself executes unasked only); FAILED and ROOT_CAUSE_IDENTIFIED are never
      reached. */
  lemma RunCounts(cfg: Config, i: Incident, run: RunInput)
    requires IncidentInv(cfg, i) && FreshIds(i.store, run.proposalIds, run.actionIds)
    ensures RunInvestigation(cfg, i, run).Ok?
    ensures var t := Trace(cfg, RunContext(i, run), START, run.oracle, 0);
            var i' := RunInvestigation(cfg, i, run).value;
            && i'.executions == i.executions + Visits(ExecuteNode, t)
            && i'.autoExecutions == i.autoExecutions + Visits(ExecuteNode, t)
            && Visits(ExecuteNode, t) == (if t[|t| - 1].state.executed.Some? then 1 else 0)
            && i'.status in {AwaitingOperator, Resolved, RemediationProposed}
            && (i'.status == AwaitingOperator <==> t[|t| - 1].node == AwaitApproval)
            && Persist(i.store, t[|t| - 1].state, run.freshIds) == Ok(i'.store)
  {
    hide *;
    RunKeepsInv(cfg, i, run);
    var ctx := RunContext(i, run);
    var t := Trace(cfg, ctx, START, run.oracle, 0);
    RunEnds(cfg, ctx, run.oracle);
    assert RunInvestigation(cfg, i, run) == Conclude(i, ctx, t, run.freshIds) by { RunIsConclude(cfg, i, run); }
    ConcludeFields(cfg, i, ctx, t, run.freshIds);
  }

  lemma RunIsConclude(cfg: Config, i: Incident, run: RunInput)
    ensures RunInvestigation(cfg, i, run)
         == Conclude(i, RunContext(i, run), Trace(cfg, RunContext(i, run), START, run.oracle, 0), run.freshIds)
  {
    hide Conclude, Trace;
  }

  lemma ConcludeFields(cfg: Config, i: Incident, ctx: Context, t: seq<Point>, freshIds: nat -> string)
    requires t != [] && Conclude(i, ctx, t, freshIds).Ok? && RunState(cfg, ctx, t[|t| - 1].state)
    requires Visits(ExecuteNode, t) == if t[|t| - 1].state.executed.Some? then 1 else 0
    ensures var i' := Conclude(i, ctx, t, freshIds).value;
            && i'.executions == i.executions + Visits(ExecuteNode, t)
            && i'.autoExecutions == i.autoExecutions + Visits(ExecuteNode, t)
            && i'.status in {AwaitingOperator, Resolved, RemediationProposed}
            && (i'.status == AwaitingOperator <==> t[|t| - 1].node == AwaitApproval)
            && Persist(i.store, t[|t| - 1].state, freshIds) == Ok(i'.store)
  {
    hide Persist, Visits, Decided;
  }

  /** The store agrees with the graph: the executed action's row is SUCCEEDED exactly when the executor
      succeeded and carries its one result; a paused action's row waits without one. */
  lemma RunAgrees(cfg: Config, i: Incident, run: RunInput)
    requires IncidentInv(cfg, i) && FreshIds(i.store, run.proposalIds, run.actionIds)
    requires Final(cfg, RunContext(i, run), START, run.oracle, 0).state.executed.Some?
          || Final(cfg, RunContext(i, run), START, run.oracle, 0).node == AwaitApproval
    ensures RunInvestigation(cfg, i, run).Ok?
    ensures var s := Final(cfg, RunContext(i, run), START, run.oracle, 0).state;
            var st := RunInvestigation(cfg, i, run).value.store;
            && s.policyResult.Some? && Executable(s.policyResult.value)
            && var id := s.policyResult.value.action.id;
               && id in st.rows && ResultOf(st, id) == s.executed
               && st.rows[id].status == (match s.executed
                                         case None => AwaitingApproval
                                         case Some(ok) => if ok then Succeeded else Failed)
  {
    hide Trace, Visits, FreshIds, Inv, HasProposals, Decided, Persist, AutoCount, RowValid;
    RunCounts(cfg, i, run);
    var ctx := RunContext(i, run);
    var s := Final(cfg, ctx, START, run.oracle, 0).state;
    RunEnds(cfg, ctx, run.oracle);
    RunPersisted(cfg, ctx, i.store, s, run.freshIds);
    if s.executed.None? {
      AwaitingHasNoResult(RunInvestigation(cfg, i, run).value.store, s.policyResult.value.action.id);
    }
  }

  lemma AwaitingHasNoResult(st: Store, id: string)
    requires Valid(st) && id in st.rows && st.rows[id].status in {AwaitingApproval, RejectedStatus}
    ensures ResultOf(st, id).None?
  {
    assert RowValid(st.rows[id], ResultOf(st, id));
  }

  /** A run resolves its incident exactly when the executor succeeded and the validator then confirmed
      recovery. */
  lemma RunResolvesIff(cfg: Config, i: Incident, run: RunInput)
    requires IncidentInv(cfg, i) && FreshIds(i.store, run.proposalIds, run.actionIds)
    ensures RunInvestigation(cfg, i, run).Ok?
    ensures RunInvestigation(cfg, i, run).value.status == Resolved
       <==> Recovered(Trace(cfg, RunContext(i, run), START, run.oracle, 0), run.oracle, 0)
  {
    hide Valid, Trace, Visits, FreshIds, Persist, AutoCount, Recovered, IncidentInv, Referential, Rooted, Looping, Decided, HasProposals;
    RunKeepsInv(cfg, i, run);
    var ctx := RunContext(i, run);
    InitialInv(cfg, ctx);
    ValidationPassedIff(cfg, ctx, START, run.oracle, 0);
    RunEnds(cfg, ctx, run.oracle);
  }

  /** What must hold of a state whose remediation counts as a recovery: a VERIFIED hypothesis with
      support in current evidence, a root cause above both thresholds with genuine causes only, an
      eligible, cleared action within the limits. */
  ghost predicate Justified(cfg: Config, ctx: Context, s: State) {
    && s.rootCause.Some? && Substantiated(cfg, ctx, s, s.rootCause.value)
    && s.rootCause.value.confidence >= cfg.confidenceThreshold
    && s.rootCause.value.confidence >= cfg.policy.minConfidence
    && s.policyResult.Some? && Executable(s.policyResult.value) && s.policyResult.value in s.allResults
    && ctx.priorAttempts < cfg.policy.maxAttempts
    && (s.policyResult.value.Allowed? ==> ctx.priorAutoExecutions < cfg.policy.maxAutoExecutions)
  }

  lemma ConcludedJustified(cfg: Config, ctx: Context, p: Point)
    requires Inv(cfg, ctx, p) && (p.node == AwaitApproval || (p.node == End && p.state.executed.Some?))
    ensures Justified(cfg, ctx, p.state)
  {
    hide Referential, Looping, EvaluateAll, Choice, GenuineCauses, HasProposals;
  }

  /** RESOLVED by a run means the run was justified in every respect and its action was Allowed. */
  lemma RunResolvedOnlyIf(cfg: Config, i: Incident, run: RunInput)
    requires IncidentInv(cfg, i) && FreshIds(i.store, run.proposalIds, run.actionIds)
    requires RunInvestigation(cfg, i, run).Ok? && RunInvestigation(cfg, i, run).value.status == Resolved
    ensures var ctx := RunContext(i, run);
            var s := Final(cfg, ctx, START, run.oracle, 0).state;
            && Justified(cfg, ctx, s) && s.policyResult.value.Allowed?
            && s.executed == Some(true) && s.validation == Some(true)
  {
    hide Valid, Trace, Visits, FreshIds, Persist, AutoCount, IncidentInv, Referential, Rooted, Looping, Decided, HasProposals, Justified;
    var ctx := RunContext(i, run);
    RunEnds(cfg, ctx, run.oracle);
    ConcludedJustified(cfg, ctx, Final(cfg, ctx, START, run.oracle, 0));
  }

  /** RESOLVED by a resume means the paused run was justified, the operator approved, the executor
      succeeded and the validator confirmed; and then the action's row is SUCCEEDED. */
  lemma ResumeResolvedOnlyIf(cfg: Config, i: Incident, d: Decision, operator: string, pending: real, timeout: real,
                             oracle: nat -> Answer, freshIds: nat -> string)
    requires IncidentInv(cfg, i)
    requires ResumeApproval(cfg, i, d, operator, pending, timeout, oracle, freshIds).Ok?
    requires ResumeApproval(cfg, i, d, operator, pending, timeout, oracle, freshIds).value.status == Resolved
    ensures i.thread.Some? && Justified(cfg, i.thread.value.ctx, i.thread.value.state)
    ensures d == Decision.Approve && oracle(0).executorSucceeded && oracle(1).recovered == Some(true) && pending <= timeout
    ensures var st := ResumeApproval(cfg, i, d, operator, pending, timeout, oracle, freshIds).value.store;
            var id := i.thread.value.state.policyResult.value.action.id;
            id in st.rows && st.rows[id].status == Succeeded && ResultOf(st, id) == Some(true)
  {
    hide Valid, Keyed, Settled, ResumeApproval, AutoCount, Inv, Justified;
    ResumeAgrees(cfg, i, d, operator, pending, timeout, oracle, freshIds);
    ResumeSucceedsIff(cfg, i, d, operator, pending, timeout, oracle, freshIds);
    var p := i.thread.value;
    ConcludedJustified(cfg, p.ctx, Point(AwaitApproval, p.state));
    PausedWaits(cfg, i.store, p);
    SettledKeeps(i.store, PausedAction(p), d, operator, oracle(0).executorSucceeded);
  }

  /** REJECT and CANCEL leave the action's row REJECTED, without a result and without an executor call;
      the replayed decision step adds no row. */
  lemma RefusalNeverExecutes(cfg: Config, i: Incident, d: Decision, operator: string, pending: real, timeout: real,
                             oracle: nat -> Answer, freshIds: nat -> string)
    requires IncidentInv(cfg, i) && d != Decision.Approve
    requires ResumeApproval(cfg, i, d, operator, pending, timeout, oracle, freshIds).Ok?
    ensures var i' := ResumeApproval(cfg, i, d, operator, pending, timeout, oracle, freshIds).value;
            && i.thread.Some? && i.thread.value.state.policyResult.Some? && Executable(i.thread.value.state.policyResult.value)
            && i'.executions == i.executions && i'.status == RemediationProposed
            && i'.store.rows.Keys == i.store.rows.Keys && i'.store.results == i.store.results
            && var id := i.thread.value.state.policyResult.value.action.id;
               id in i'.store.rows && i'.store.rows[id].status == RejectedStatus && ResultOf(i'.store, id).None?
  {
    hide Valid, Keyed, Settled, ResumeApproval, AutoCount, Inv;
    ResumeAgrees(cfg, i, d, operator, pending, timeout, oracle, freshIds);
    var p := i.thread.value;
    PausedWaits(cfg, i.store, p);
    SettledKeeps(i.store, PausedAction(p), d, operator, oracle(0).executorSucceeded);
    AwaitingHasNoResult(Settled(i.store, PausedAction(p), d, operator, oracle(0).executorSucceeded), PausedAction(p));
  }
}
