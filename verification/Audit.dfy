/** The remediation audit store on values: its operations, errors and lifecycle theorems.

    Each operation is one transaction: it either returns the new store or raises and changes nothing. */
module Audit {
  import opened Wrappers
  import opened Policy

  datatype ActionStatus =
    | Proposed | AwaitingApproval | Approved | Executing | Succeeded | Failed | RejectedStatus | RolledBack

  function AllowedTransitions(s: ActionStatus): set<ActionStatus> {
    match s
    case Proposed => {Approved, AwaitingApproval, RejectedStatus}
    case AwaitingApproval => {Approved, RejectedStatus}
    case Approved => {Executing}
    case Executing => {Succeeded, Failed}
    case _ => {}
  }

  datatype DecisionType = AllowedDecision | ApprovalDecision | RejectedDecision

  /** One row of `remediation_actions`. */
  datatype Row = Row(
    proposal: string,
    decision: DecisionType,
    status: ActionStatus,
    key: Option<string>,
    claimExpiresAt: Option<real>,
    approvedBy: Option<string>)

  /** `results` is keyed by action, the table's unique column. */
  datatype Store = Store(proposals: set<string>, rows: map<string, Row>, results: map<string, bool>)

  datatype AuditError =
    | ProposalNotFound | ActionNotFound | NotAwaitingApproval | ClaimRefused | InvalidTransition | IntegrityError

  // ----- Operations -----

  /** `transition_action_status`. */
  function Transition(current: ActionStatus, target: ActionStatus): Result<ActionStatus, AuditError> {
    if current == target || target in AllowedTransitions(current) then Ok(target) else Err(InvalidTransition)
  }

  function CreateProposal(st: Store, id: string): Store {
    st.(proposals := st.proposals + {id})
  }

  function DecisionRow(r: PolicyResult): Row {
    match r
    case Rejected(p, _) => Row(p, RejectedDecision, RejectedStatus, None, None, None)
    case Allowed(a) => Row(a.proposalId, AllowedDecision, Approved, Some(a.idempotencyKey), None, None)
    case ApprovalRequired(a) => Row(a.proposalId, ApprovalDecision, AwaitingApproval, Some(a.idempotencyKey), None, None)
  }

  /** A rejection has no action of its own and is filed under a fresh id. */
  function DecisionId(r: PolicyResult, freshId: string): string {
    if r.Rejected? then freshId else r.action.id
  }

  predicate HasKey(st: Store, key: Option<string>) {
    key.Some? && exists id | id in st.rows :: st.rows[id].key == key
  }

  /** `create_action_decision`: a row that exists by id or by idempotency key is left alone. */
  function CreateDecision(st: Store, r: PolicyResult, freshId: string): Result<Store, AuditError> {
    var (id, row) := (DecisionId(r, freshId), DecisionRow(r));
    if row.proposal !in st.proposals then Err(ProposalNotFound)
    else if id in st.rows || HasKey(st, row.key) then Ok(st)
    else Ok(st.(rows := st.rows[id := row]))
  }

  /** `record_approval_decision`. */
  function RecordApproval(st: Store, id: string, approved: bool, operator: string): Result<Store, AuditError> {
    if id !in st.rows then Err(ActionNotFound)
    else if st.rows[id].status != AwaitingApproval then Err(NotAwaitingApproval)
    else
      var t := Transition(st.rows[id].status, if approved then Approved else RejectedStatus);
      if t.Err? then Err(t.error)
      else Ok(st.(rows := st.rows[id := st.rows[id].(status := t.value, approvedBy := Some(operator))]))
  }

  /** `claim_action_for_execution`. */
  function ClaimAction(st: Store, id: string, now: real, lease: real): Result<Store, AuditError> {
    if id !in st.rows then Err(ActionNotFound)
    else
      var row := st.rows[id];
      if row.status == Executing && row.claimExpiresAt.Some? && row.claimExpiresAt.value > now then Err(ClaimRefused)
      else if row.status != Executing && row.status != Approved then Err(ClaimRefused)
      else Ok(st.(rows := st.rows[id := row.(status := Executing, claimExpiresAt := Some(now + lease))]))
  }

  /** The statuses `record_execution_result` writes, in order: an APPROVED action is first moved to
      EXECUTING; a move to the status already held writes nothing. */
  function ResultTrail(current: ActionStatus, success: bool): Result<seq<ActionStatus>, AuditError> {
    var begun := if current == Approved then Transition(current, Executing) else Ok(current);
    if begun.Err? then Err(begun.error)
    else
      var ended := Transition(begun.value, if success then Succeeded else Failed);
      if ended.Err? then Err(ended.error)
      else Ok((if begun.value == current then [] else [begun.value]) + (if ended.value == begun.value then [] else [ended.value]))
  }

  function Latest(current: ActionStatus, trail: seq<ActionStatus>): ActionStatus {
    if trail == [] then current else trail[|trail| - 1]
  }

  /** `record_execution_result`; a second result row and a result for an unknown action violate the
      table's constraints. */
  function RecordResult(st: Store, id: string, success: bool): Result<Store, AuditError> {
    if id !in st.rows then Err(IntegrityError)
    else
      var row := st.rows[id];
      var trail := ResultTrail(row.status, success);
      if trail.Err? then Err(trail.error)
      else if id in st.results then Err(IntegrityError)
      else Ok(st.(rows := st.rows[id := row.(status := Latest(row.status, trail.value), claimExpiresAt := None)],
                  results := st.results[id := success]))
  }

  // ----- Sequences of calls -----

  datatype Call =
    | AddProposal(id: string)
    | Decide(r: PolicyResult, freshId: string)
    | Approve(action: string, approved: bool, operator: string)
    | ClaimCall(action: string, at: real, lease: real)
    | ResultCall(action: string, success: bool)

  function Attempt(st: Store, c: Call): Result<Store, AuditError> {
    match c
    case AddProposal(id) => Ok(CreateProposal(st, id))
    case Decide(r, freshId) => CreateDecision(st, r, freshId)
    case Approve(id, approved, operator) => RecordApproval(st, id, approved, operator)
    case ClaimCall(id, at, lease) => ClaimAction(st, id, at, lease)
    case ResultCall(id, success) => RecordResult(st, id, success)
  }

  function Perform(st: Store, c: Call): Store {
    var r := Attempt(st, c);
    if r.Ok? then r.value else st
  }

  function PerformAll(st: Store, cs: seq<Call>): Store
    decreases |cs|
  {
    if cs == [] then st else PerformAll(Perform(st, cs[0]), cs[1..])
  }

  // ----- The invariant -----

  ghost predicate RowValid(row: Row, result: Option<bool>) {
    && (result.Some? <==> row.status in {Succeeded, Failed})
    && (result.Some? ==> (result.value <==> row.status == Succeeded))
    && (row.status == Executing ==> row.claimExpiresAt.Some?)
    && row.status !in {Proposed, RolledBack}
    && (row.decision == RejectedDecision <==> row.key.None?)
    && (row.decision == RejectedDecision ==> row.status == RejectedStatus)
    && (row.decision == AllowedDecision ==> row.status in {Approved, Executing, Succeeded, Failed})
    && (row.decision == ApprovalDecision && row.status in {Approved, Executing, Succeeded, Failed} ==> row.approvedBy.Some?)
  }

  function ResultOf(st: Store, id: string): Option<bool> {
    if id in st.results then Some(st.results[id]) else None
  }

  ghost predicate Valid(st: Store) {
    && st.results.Keys <= st.rows.Keys
    && (forall id | id in st.rows :: RowValid(st.rows[id], ResultOf(st, id)) && st.rows[id].proposal in st.proposals)
    && (forall i, j | i in st.rows && j in st.rows && st.rows[i].key.Some? && st.rows[i].key == st.rows[j].key :: i == j)
  }

  /** Changing one row and its result keeps the store consistent when the new row is. */
  lemma UpdateKeepsValid(st: Store, id: string, row: Row, results: map<string, bool>)
    requires Valid(st) && id in st.rows
    requires row.key == st.rows[id].key && row.proposal == st.rows[id].proposal
    requires results.Keys <= st.rows.Keys && forall k | k in st.rows && k != id :: ResultOf(st.(results := results), k) == ResultOf(st, k)
    requires RowValid(row, ResultOf(st.(results := results), id))
    ensures Valid(st.(rows := st.rows[id := row], results := results))
  {
    hide RowValid;
    var st' := st.(rows := st.rows[id := row], results := results);
    forall k | k in st'.rows ensures RowValid(st'.rows[k], ResultOf(st', k)) {
      if k != id {
        assert RowValid(st.rows[k], ResultOf(st, k));
        assert ResultOf(st', k) == ResultOf(st.(results := results), k);
      } else {
        assert ResultOf(st', id) == ResultOf(st.(results := results), id);
      }
    }
  }

  lemma InsertKeepsValid(st: Store, id: string, row: Row)
    requires Valid(st) && id !in st.rows && row.proposal in st.proposals && !HasKey(st, row.key) && RowValid(row, None)
    ensures Valid(st.(rows := st.rows[id := row]))
  {
    hide RowValid;
    var st' := st.(rows := st.rows[id := row]);
    forall k | k in st'.rows ensures RowValid(st'.rows[k], ResultOf(st', k)) {
      if k != id {
        assert RowValid(st.rows[k], ResultOf(st, k));
        assert ResultOf(st', k) == ResultOf(st, k);
      }
    }
  }

  /** Every call keeps the store consistent: one result per finished action with the matching verdict,
      leases on executing actions, approvals on executed Level-2 actions, unique keys. */
  lemma PerformKeepsValid(st: Store, c: Call)
    requires Valid(st)
    ensures Valid(Perform(st, c))
  {
    if Attempt(st, c).Ok? {
      match c
      case AddProposal(_) => ProposalKeepsValid(st, c.id);
      case Decide(r, freshId) => DecisionKeepsValid(st, r, freshId);
      case Approve(id, _, _) => CallKeepsRow(st, c, id);
      case ClaimCall(id, _, _) => CallKeepsRow(st, c, id);
      case ResultCall(id, _) => CallKeepsRow(st, c, id);
    }
  }

  lemma ProposalKeepsValid(st: Store, id: string)
    requires Valid(st)
    ensures Valid(CreateProposal(st, id))
  {
    hide RowValid;
    var st' := CreateProposal(st, id);
    forall k | k in st'.rows ensures RowValid(st'.rows[k], ResultOf(st', k)) {
      assert RowValid(st.rows[k], ResultOf(st, k)) && ResultOf(st', k) == ResultOf(st, k);
    }
  }

  lemma DecisionKeepsValid(st: Store, r: PolicyResult, freshId: string)
    requires Valid(st) && CreateDecision(st, r, freshId).Ok?
    ensures Valid(CreateDecision(st, r, freshId).value)
  {
    hide Valid;
    var (id, row) := (DecisionId(r, freshId), DecisionRow(r));
    if id !in st.rows && !HasKey(st, row.key) {
      InsertKeepsValid(st, id, row);
    }
  }

  /** A call on one action changes its row and its result only, and keeps the two consistent. */
  lemma CallOnRow(st: Store, c: Call, id: string)
    requires st.results.Keys <= st.rows.Keys && !c.AddProposal? && !c.Decide? && c.action == id && Attempt(st, c).Ok?
    requires id in st.rows ==> RowValid(st.rows[id], ResultOf(st, id))
    ensures var st' := Perform(st, c);
            && id in st.rows && id in st'.rows && st' == st.(rows := st.rows[id := st'.rows[id]], results := st'.results)
            && st'.results.Keys <= st.rows.Keys && (forall k | k != id :: ResultOf(st', k) == ResultOf(st, k))
            && st'.rows[id].key == st.rows[id].key && st'.rows[id].proposal == st.rows[id].proposal
            && RowValid(st'.rows[id], ResultOf(st', id))
  {
  }

  lemma CallKeepsRow(st: Store, c: Call, id: string)
    requires Valid(st) && !c.AddProposal? && !c.Decide? && c.action == id && Attempt(st, c).Ok?
    ensures Valid(Perform(st, c))
  {
    hide RowValid, Attempt, Perform;
    CallOnRow(st, c, id);
    var st' := Perform(st, c);
    UpdateKeepsValid(st, id, st'.rows[id], st'.results);
  }

  lemma {:induction false} CallsKeepValid(st: Store, cs: seq<Call>)
    requires Valid(st)
    ensures Valid(PerformAll(st, cs))
    decreases |cs|
  {
    if cs == [] {
    } else {
      PerformKeepsValid(st, cs[0]);
      CallsKeepValid(Perform(st, cs[0]), cs[1..]);
    }
  }

  // ----- Status histories -----

  ghost predicate IsPath(p: seq<ActionStatus>) {
    forall i | 0 <= i < |p| - 1 :: p[i + 1] in AllowedTransitions(p[i])
  }

  /** The statuses a call writes on an existing row, in order. */
  function Moves(st: Store, c: Call, id: string): seq<ActionStatus>
    requires id in st.rows
  {
    var (old', new') := (st.rows[id].status, Perform(st, c).rows);
    if c.ResultCall? then (if c.action == id && Attempt(st, c).Ok? then ResultTrail(old', c.success).value else [])
    else if id !in new' || new'[id].status == old' then []
    else [new'[id].status]
  }

  /** Everything the row's status has been, in order. */
  function History(st: Store, cs: seq<Call>, id: string): seq<ActionStatus>
    requires id in st.rows
    decreases |cs|
  {
    if cs == [] then [st.rows[id].status]
    else
      RowsPersist(st, cs[0], id);
      ([st.rows[id].status] + Moves(st, cs[0], id))[..|Moves(st, cs[0], id)|] + History(Perform(st, cs[0]), cs[1..], id)
  }

  lemma RowsPersist(st: Store, c: Call, id: string)
    requires id in st.rows
    ensures id in Perform(st, c).rows
  {
  }

  /** One call moves a row along the transition table. */
  lemma MovesArePath(st: Store, c: Call, id: string)
    requires id in st.rows
    ensures var m := [st.rows[id].status] + Moves(st, c, id);
            IsPath(m) && id in Perform(st, c).rows && m[|m| - 1] == Perform(st, c).rows[id].status
  {
  }

  lemma SingletonPath(s: ActionStatus)
    ensures IsPath([s])
  {
  }

  lemma PathsJoin(p: seq<ActionStatus>, q: seq<ActionStatus>)
    requires p != [] && q != [] && IsPath(p) && IsPath(q) && p[|p| - 1] == q[0]
    ensures IsPath(p[..|p| - 1] + q)
  {
    hide AllowedTransitions;
    var r := p[..|p| - 1] + q;
    forall i | 0 <= i < |r| - 1 ensures r[i + 1] in AllowedTransitions(r[i]) {
      if i < |p| - 1 {
        assert p[i + 1] in AllowedTransitions(p[i]);
      } else {
        var j := i - (|p| - 1);
        assert q[j + 1] in AllowedTransitions(q[j]);
      }
    }
  }

  /** Every status history is a path in the transition table, from the row's first status to its last. */
  lemma {:induction false} HistoryIsPath(st: Store, cs: seq<Call>, id: string)
    requires id in st.rows
    ensures var h := History(st, cs, id);
            && h != [] && h[0] == st.rows[id].status && IsPath(h)
            && id in PerformAll(st, cs).rows && h[|h| - 1] == PerformAll(st, cs).rows[id].status
    decreases |cs|
  {
    hide Perform, Moves, AllowedTransitions, IsPath;
    if cs != [] {
      MovesArePath(st, cs[0], id);
      HistoryIsPath(Perform(st, cs[0]), cs[1..], id);
      PathsJoin([st.rows[id].status] + Moves(st, cs[0], id), History(Perform(st, cs[0]), cs[1..], id));
    } else {
      SingletonPath(st.rows[id].status);
    }
  }

  // ----- Approval before execution -----

  /** An action still awaiting approval reaches execution only if some call in between approved it, on a
      store that let the approval through. */
  lemma {:induction false} ExecutesOnlyAfterApproval(st: Store, cs: seq<Call>, id: string)
    requires id in st.rows && st.rows[id].status == AwaitingApproval
    requires id in PerformAll(st, cs).rows && PerformAll(st, cs).rows[id].status in {Executing, Succeeded, Failed}
    ensures exists i: nat | i < |cs| :: Approves(st, cs, i, id)
    decreases |cs|
  {
    if cs[0].Approve? && cs[0].action == id && cs[0].approved && Attempt(st, cs[0]).Ok? {
      assert Approves(st, cs, 0, id);
    } else {
      RowsPersist(st, cs[0], id);
      var st' := Perform(st, cs[0]);
      if st'.rows[id].status == AwaitingApproval {
        ExecutesOnlyAfterApproval(st', cs[1..], id);
        var i: nat :| i < |cs[1..]| && Approves(st', cs[1..], i, id);
        var n := i + 1;
        assert cs[..n][0] == cs[0] && cs[..n][1..] == cs[1..][..i];
        assert Approves(st, cs, n, id);
      } else {
        RejectedIsFinal(st', cs[1..], id);
      }
    }
  }

  /** The `i`-th call is an approval of the action and goes through. */
  ghost predicate Approves(st: Store, cs: seq<Call>, i: nat, id: string)
    requires i < |cs|
  {
    cs[i].Approve? && cs[i].action == id && cs[i].approved && Attempt(PerformAll(st, cs[..i]), cs[i]).Ok?
  }

  /** Terminal statuses are final. */
  lemma {:induction false} RejectedIsFinal(st: Store, cs: seq<Call>, id: string)
    requires id in st.rows && st.rows[id].status == RejectedStatus
    ensures id in PerformAll(st, cs).rows && PerformAll(st, cs).rows[id].status == RejectedStatus
    decreases |cs|
  {
    if cs == [] {
    } else {
      RejectedIsFinal(Perform(st, cs[0]), cs[1..], id);
    }
  }

  // ----- Execution claims -----

  predicate ClaimSucceeds(st: Store, c: Call, id: string) {
    c.ClaimCall? && c.action == id && Attempt(st, c).Ok?
  }

  /** The instants at which an action was successfully claimed. */
  function ClaimTimes(st: Store, cs: seq<Call>, id: string): seq<real>
    decreases |cs|
  {
    if cs == [] then []
    else
      (if ClaimSucceeds(st, cs[0], id) then [cs[0].at] else [])
      + ClaimTimes(Perform(st, cs[0]), cs[1..], id)
  }

  ghost predicate LeasesAtLeast(cs: seq<Call>, lease: real) {
    forall i | 0 <= i < |cs| :: cs[i].ClaimCall? ==> cs[i].lease >= lease
  }

  ghost predicate Spaced(ts: seq<real>, gap: real) {
    forall i | 0 <= i < |ts| - 1 :: ts[i + 1] - ts[i] >= gap
  }

  /** What one call can do to a claimed or finished action. */
  lemma ClaimStep(st: Store, c: Call, id: string)
    requires Valid(st)
    ensures var st' := Perform(st, c);
            && (id in st.results ==> id in st'.results && !ClaimSucceeds(st, c, id))
            && (ClaimSucceeds(st, c, id) ==>
                  && id in st.rows && id in st'.rows && st'.rows[id].status == Executing
                  && st'.rows[id].claimExpiresAt == Some(c.at + c.lease)
                  && (st.rows[id].status == Executing ==> st.rows[id].claimExpiresAt.Some? && st.rows[id].claimExpiresAt.value <= c.at))
            && (id in st.rows && st.rows[id].status == Executing && !ClaimSucceeds(st, c, id) ==>
                  id in st'.results || (id in st'.rows && st'.rows[id] == st.rows[id]))
  {
    if id in st.rows {
      assert RowValid(st.rows[id], ResultOf(st, id));
    }
    hide Valid;
  }

  /** No claim succeeds once a result is recorded, or while the last claim's lease runs. */
  lemma {:induction false} ClaimsRespectLeases(st: Store, cs: seq<Call>, id: string, lease: real)
    requires Valid(st) && LeasesAtLeast(cs, lease)
    ensures Spaced(ClaimTimes(st, cs, id), lease)
    ensures id in st.results ==> ClaimTimes(st, cs, id) == []
    ensures id in st.rows && st.rows[id].status == Executing && st.rows[id].claimExpiresAt.Some? && ClaimTimes(st, cs, id) != [] ==>
              ClaimTimes(st, cs, id)[0] >= st.rows[id].claimExpiresAt.value
    decreases |cs|
  {
    hide Perform, Attempt, Valid;
    if cs == [] {
    } else {
      PerformKeepsValid(st, cs[0]);
      assert LeasesAtLeast(cs[1..], lease) by {
        forall i | 0 <= i < |cs[1..]| ensures cs[1..][i].ClaimCall? ==> cs[1..][i].lease >= lease {
          assert cs[1..][i] == cs[i + 1];
        }
      }
      ClaimsRespectLeases(Perform(st, cs[0]), cs[1..], id, lease);
      ClaimStep(st, cs[0], id);
    }
  }

  lemma {:induction false} SpacedSpan(ts: seq<real>, gap: real, k: nat)
    requires Spaced(ts, gap) && k < |ts|
    ensures ts[k] - ts[0] >= k as real * gap
  {
    if k > 0 {
      SpacedSpan(ts, gap, k - 1);
      assert k as real * gap == (k - 1) as real * gap + gap;
    }
  }

  /** `k` successful claims with leases of at least L span at least (k - 1) L. */
  lemma ClaimsSpan(st: Store, cs: seq<Call>, id: string, lease: real)
    requires Valid(st) && LeasesAtLeast(cs, lease) && ClaimTimes(st, cs, id) != []
    ensures var ts := ClaimTimes(st, cs, id);
            ts[|ts| - 1] - ts[0] >= (|ts| - 1) as real * lease
  {
    hide ClaimTimes, Valid;
    ClaimsRespectLeases(st, cs, id, lease);
    SpacedSpan(ClaimTimes(st, cs, id), lease, |ClaimTimes(st, cs, id)| - 1);
  }

  // ----- The calls, exactly -----

  /** The lifecycle has these eight moves and no other; staying put is always allowed. */
  lemma TransitionIff(a: ActionStatus, b: ActionStatus)
    ensures Transition(a, b).Ok? <==>
            || a == b
            || (a == Proposed && b in {Approved, AwaitingApproval, RejectedStatus})
            || (a == AwaitingApproval && b in {Approved, RejectedStatus})
            || (a == Approved && b == Executing)
            || (a == Executing && b in {Succeeded, Failed})
    ensures Transition(a, b) == Ok(b) || Transition(a, b) == Err(InvalidTransition)
  {
  }

  /** What an action awaiting approval can go through, over every sequence of calls: six histories. */
  lemma AwaitingHistories(st: Store, cs: seq<Call>, id: string)
    requires id in st.rows && st.rows[id].status == AwaitingApproval
    ensures History(st, cs, id) in {
              [AwaitingApproval],
              [AwaitingApproval, RejectedStatus],
              [AwaitingApproval, Approved],
              [AwaitingApproval, Approved, Executing],
              [AwaitingApproval, Approved, Executing, Succeeded],
              [AwaitingApproval, Approved, Executing, Failed]}
  {
    hide Perform, Moves, History;
    HistoryIsPath(st, cs, id);
    PathsFromAwaiting(History(st, cs, id));
  }

  lemma Moved(h: seq<ActionStatus>, i: nat)
    requires IsPath(h) && i + 1 < |h|
    ensures h[i + 1] in AllowedTransitions(h[i])
  {
  }

  lemma PathsFromAwaiting(h: seq<ActionStatus>)
    requires h != [] && h[0] == AwaitingApproval && IsPath(h)
    ensures h in {
              [AwaitingApproval],
              [AwaitingApproval, RejectedStatus],
              [AwaitingApproval, Approved],
              [AwaitingApproval, Approved, Executing],
              [AwaitingApproval, Approved, Executing, Succeeded],
              [AwaitingApproval, Approved, Executing, Failed]}
  {
    if |h| > 1 {
      Moved(h, 0);
    }
    if |h| > 2 {
      Moved(h, 1);
    }
    if |h| > 3 {
      Moved(h, 2);
    }
    if |h| > 4 {
      Moved(h, 3);
    } else {
      assert h == [h[0]] || h == [h[0], h[1]] || h == [h[0], h[1], h[2]] || h == [h[0], h[1], h[2], h[3]];
    }
  }

  /** A decision is filed exactly when its proposal is known and neither its id nor its key is used; then it
      is one new row, in the status its kind starts in. */
  lemma FiledIff(st: Store, r: PolicyResult, freshId: string)
    ensures CreateDecision(st, r, freshId).Ok? <==> ProposalOf(r) in st.proposals
    ensures CreateDecision(st, r, freshId).Ok? ==>
              var (id, st') := (if r.Rejected? then freshId else r.action.id, CreateDecision(st, r, freshId).value);
              var used := id in st.rows || (Executable(r) && exists k | k in st.rows :: st.rows[k].key == Some(r.action.idempotencyKey));
              && (used ==> st' == st)
              && (!used ==>
                    && st'.rows.Keys == st.rows.Keys + {id} && st'.results == st.results && st'.proposals == st.proposals
                    && (forall k | k in st.rows :: st'.rows[k] == st.rows[k])
                    && st'.rows[id].proposal == ProposalOf(r)
                    && st'.rows[id].status == (if r.Allowed? then Approved else if r.ApprovalRequired? then AwaitingApproval else RejectedStatus)
                    && st'.rows[id].key == (if r.Rejected? then None else Some(r.action.idempotencyKey))
                    && st'.rows[id].claimExpiresAt.None? && st'.rows[id].approvedBy.None?)
  {
  }

  /** An approval or rejection goes through exactly on an action awaiting it. */
  lemma ApprovalIff(st: Store, id: string, approved: bool, operator: string)
    ensures RecordApproval(st, id, approved, operator).Ok? <==> id in st.rows && st.rows[id].status == AwaitingApproval
    ensures RecordApproval(st, id, approved, operator).Ok? ==>
              var st' := RecordApproval(st, id, approved, operator).value;
              && st'.rows.Keys == st.rows.Keys && st'.results == st.results && st'.proposals == st.proposals
              && st'.rows[id].status == (if approved then Approved else RejectedStatus)
              && st'.rows[id].approvedBy == Some(operator) && st'.rows[id].decision == st.rows[id].decision
              && forall k | k in st.rows && k != id :: st'.rows[k] == st.rows[k]
  {
  }

  /** A claim goes through exactly on an approved action and on one whose lease has run out. */
  lemma ClaimIff(st: Store, id: string, now: real, lease: real)
    requires Valid(st)
    ensures ClaimAction(st, id, now, lease).Ok? <==>
            id in st.rows && (st.rows[id].status == Approved
                              || (st.rows[id].status == Executing && st.rows[id].claimExpiresAt.value <= now))
    ensures ClaimAction(st, id, now, lease).Ok? ==>
              var st' := ClaimAction(st, id, now, lease).value;
              && st'.rows.Keys == st.rows.Keys && st'.results == st.results
              && st'.rows[id].status == Executing && st'.rows[id].claimExpiresAt == Some(now + lease)
              && forall k | k in st.rows && k != id :: st'.rows[k] == st.rows[k]
  {
    if id in st.rows {
      assert RowValid(st.rows[id], ResultOf(st, id));
    }
  }

  /** A result is recorded exactly once, on an approved or executing action, and decides its final status. */
  lemma ResultIff(st: Store, id: string, success: bool)
    requires Valid(st)
    ensures RecordResult(st, id, success).Ok? <==> id in st.rows && st.rows[id].status in {Approved, Executing}
    ensures RecordResult(st, id, success).Ok? ==>
              var st' := RecordResult(st, id, success).value;
              && st'.rows.Keys == st.rows.Keys && ResultOf(st', id) == Some(success)
              && st'.rows[id].status == (if success then Succeeded else Failed) && st'.rows[id].claimExpiresAt.None?
              && forall k | k in st.rows && k != id :: st'.rows[k] == st.rows[k] && ResultOf(st', k) == ResultOf(st, k)
  {
    if id in st.rows {
      assert RowValid(st.rows[id], ResultOf(st, id));
    }
    hide Valid;
  }
}
