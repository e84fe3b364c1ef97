/** The deterministic policy engine: registry, per-proposal evaluation, ranking and the history limits. */
module Policy {
  import opened Wrappers
  import opened Sorting
  import opened Text

  datatype ActionType = ResetDemoFailure | RestartRegisteredService | Unregistered(name: string)

  function TypeName(t: ActionType): string {
    match t
    case ResetDemoFailure => "RESET_DEMO_FAILURE"
    case RestartRegisteredService => "RESTART_REGISTERED_SERVICE"
    case Unregistered(name) => name
  }

  /** A proposal as the language model suggested it.  `proposedRisk` and `requiresApproval` are the
      model's own advice; `wellFormed` says its parameters fit the schema of its action type. */
  datatype Proposal = Proposal(
    id: string,
    actionType: ActionType,
    target: Option<string>,
    wellFormed: bool,
    proposedRisk: int,
    requiresApproval: bool)

  datatype Action = Action(
    id: string,
    proposalId: string,
    actionType: ActionType,
    level: int,
    approvalRequired: bool,
    executor: string,
    idempotencyKey: string)

  datatype PolicyResult =
    | Allowed(action: Action)
    | ApprovalRequired(action: Action)
    | Rejected(proposalId: string, actionType: ActionType)

  predicate Executable(r: PolicyResult) {
    !r.Rejected?
  }

  function ProposalOf(r: PolicyResult): string {
    if r.Rejected? then r.proposalId else r.action.proposalId
  }

  datatype Settings = Settings(
    enabled: bool,
    autoExecuteMax: int,
    maxAttempts: int,
    maxAutoExecutions: int,
    minConfidence: real)

  datatype Entry = Entry(level: int, executor: string, allowedTargets: set<string>)

  function Registry(t: ActionType): Option<Entry> {
    match t
    case ResetDemoFailure => Some(Entry(1, "demo_service.reset_failure_mode", {"demo-service"}))
    case RestartRegisteredService => Some(Entry(2, "registered_service.restart_simulated", {"demo-service"}))
    case Unregistered(_) => None
  }

  /** `evaluate_policy`.  `newId` stands for the random action ids, one per proposal. */
  function EvaluatePolicy(p: Proposal, s: Settings, newId: string -> string): (r: PolicyResult)
    ensures ProposalOf(r) == p.id
    ensures Executable(r) ==> s.enabled && r.action.id == newId(p.id) && r.action.idempotencyKey == "rem-exec-" + p.id
  {
    var reject := Rejected(p.id, p.actionType);
    if !s.enabled then reject
    else
      match Registry(p.actionType)
      case None => reject
      case Some(entry) =>
        if p.target.None? || p.target.value !in entry.allowedTargets then reject
        else if !p.wellFormed then reject
        else
          var approval := entry.level > s.autoExecuteMax;
          var action := Action(newId(p.id), p.id, p.actionType, entry.level, approval, entry.executor, "rem-exec-" + p.id);
          if approval then ApprovalRequired(action) else Allowed(action)
  }

  /** What is executable at all, and what runs without approval: a reset from threshold 1, a restart
      from threshold 2. */
  lemma DecisionIff(p: Proposal, s: Settings, newId: string -> string)
    ensures var r := EvaluatePolicy(p, s, newId);
            && (Executable(r) <==> s.enabled && p.wellFormed && p.target == Some("demo-service")
                                   && (p.actionType.ResetDemoFailure? || p.actionType.RestartRegisteredService?))
            && (r.Allowed? <==> Executable(r) && s.autoExecuteMax >= (if p.actionType.ResetDemoFailure? then 1 else 2))
            && ProposalOf(r) == p.id
            && (Executable(r) ==> r.action.level == (if p.actionType.ResetDemoFailure? then 1 else 2)
                                  && r.action.executor == (if p.actionType.ResetDemoFailure? then "demo_service.reset_failure_mode"
                                                           else "registered_service.restart_simulated"))
            && (r.Rejected? ==> r.actionType == p.actionType)
            && (Executable(r) ==> r.action.actionType == p.actionType && r.action.id == newId(p.id)
                                  && r.action.idempotencyKey == "rem-exec-" + p.id
                                  && (r.action.approvalRequired <==> r.ApprovalRequired?))
  {
  }

  // ----- Ranking -----

  const FAULT_KEYWORDS: seq<string> := ["error-mode", "pool", "exhaust", "fault", "injection", "parameter", "debug"]

  /** The lower-cased text the suitability score looks at. */
  function CauseText(rootCause: Option<string>, classification: Option<string>): string {
    var text := if rootCause.Some? then Lower(rootCause.value) else "";
    if classification.Some? then Lower(text + " " + classification.value) else text
  }

  predicate IsFaultInjection(cause: string) {
    exists i | 0 <= i < |FAULT_KEYWORDS| :: Contains(cause, FAULT_KEYWORDS[i])
  }

  function Suitability(t: ActionType, cause: string): int {
    if cause == "" then 0
    else
      match t
      case ResetDemoFailure => if IsFaultInjection(cause) then 0 else 1
      case RestartRegisteredService => if IsFaultInjection(cause) then 1 else 0
      case Unregistered(_) => 2
  }

  type Candidate = r: PolicyResult | Executable(r)
    witness Allowed(Action("", "", ResetDemoFailure, 1, false, "", ""))

  /** The four-part ranking key compared lexicographically. */
  predicate KeyLeq(cause: string, a: Candidate, b: Candidate) {
    var (sa, sb) := (Suitability(a.action.actionType, cause), Suitability(b.action.actionType, cause));
    var (ta, tb) := (TypeName(a.action.actionType), TypeName(b.action.actionType));
    if sa != sb then sa < sb
    else if a.action.level != b.action.level then a.action.level < b.action.level
    else if ta != tb then StringLeq(ta, tb)
    else StringLeq(a.action.proposalId, b.action.proposalId)
  }

  function KeyOrder(cause: string): (Candidate, Candidate) -> bool {
    (a: Candidate, b: Candidate) => KeyLeq(cause, a, b)
  }

  function EvaluateAll(ps: seq<Proposal>, s: Settings, newId: string -> string): (rs: seq<PolicyResult>)
    ensures |rs| == |ps|
    ensures forall i | 0 <= i < |ps| :: rs[i] == EvaluatePolicy(ps[i], s, newId)
  {
    seq(|ps|, i requires 0 <= i < |ps| => EvaluatePolicy(ps[i], s, newId))
  }

  function Candidates(rs: seq<PolicyResult>): (cs: seq<Candidate>)
    ensures forall c: PolicyResult :: c in cs <==> c in rs && Executable(c)
  {
    if rs == [] then []
    else
      assert rs == [rs[0]] + rs[1..];
      if Executable(rs[0]) then [rs[0]] + Candidates(rs[1..]) else Candidates(rs[1..])
  }

  /** The result selected for a list of proposals. */
  function Select(ps: seq<Proposal>, s: Settings, cause: string, newId: string -> string): Option<PolicyResult> {
    var rs := EvaluateAll(ps, s, newId);
    if ps == [] then None
    else if Candidates(rs) == [] then Some(rs[0])
    else Some(Sort(Candidates(rs), KeyOrder(cause))[0])
  }

  /** `evaluate_and_rank_proposals`: one pass that evaluates and collects, then an in-place sort. */
  method EvaluateAndRank(ps: seq<Proposal>, s: Settings, cause: string, newId: string -> string)
    returns (selected: Option<PolicyResult>, all: seq<PolicyResult>)
    ensures all == EvaluateAll(ps, s, newId)
    ensures selected == Select(ps, s, cause, newId)
  {
    all := [];
    if ps == [] {
      return None, all;
    }
    var candidates: seq<Candidate> := [];
    for k := 0 to |ps|
      invariant all == EvaluateAll(ps, s, newId)[..k]
      invariant candidates == Candidates(all)
    {
      var result := EvaluatePolicy(ps[k], s, newId);
      CandidatesAppend(all, result);
      all := all + [result];
      if Executable(result) {
        candidates := candidates + [result];
      }
    }
    if candidates == [] {
      return Some(all[0]), all;
    }
    candidates := Sort(candidates, KeyOrder(cause));
    selected := Some(candidates[0]);
  }

  lemma {:induction false} CandidatesAppend(rs: seq<PolicyResult>, r: PolicyResult)
    ensures Candidates(rs + [r]) == Candidates(rs) + (if Executable(r) then [r] else [])
  {
    if rs == [] {
      assert rs + [r] == [r] && [r][1..] == [];
    } else {
      assert (rs + [r])[1..] == rs[1..] + [r];
      CandidatesAppend(rs[1..], r);
    }
  }

  lemma KeyOrderTotal(cause: string)
    ensures TotalPreorder(KeyOrder(cause))
  {
    var leq := KeyOrder(cause);
    forall x: Candidate, y: Candidate ensures leq(x, y) || leq(y, x) {
      StringLeqTotal(TypeName(x.action.actionType), TypeName(y.action.actionType));
      StringLeqTotal(x.action.proposalId, y.action.proposalId);
    }
    forall x: Candidate, y: Candidate, z: Candidate | leq(x, y) && leq(y, z) ensures leq(x, z) {
      KeyLeqTransitive(cause, x, y, z);
    }
  }

  lemma KeyLeqTransitive(cause: string, x: Candidate, y: Candidate, z: Candidate)
    requires KeyLeq(cause, x, y) && KeyLeq(cause, y, z)
    ensures KeyLeq(cause, x, z)
  {
    var (tx, ty, tz) := (TypeName(x.action.actionType), TypeName(y.action.actionType), TypeName(z.action.actionType));
    var (px, py, pz) := (x.action.proposalId, y.action.proposalId, z.action.proposalId);
    if StringLeq(tx, ty) && StringLeq(ty, tz) {
      StringLeqTransitive(tx, ty, tz);
      if tx == tz && tx != ty {
        StringLeqAntisymmetric(tx, ty);
      }
    }
    if StringLeq(px, py) && StringLeq(py, pz) {
      StringLeqTransitive(px, py, pz);
    }
  }

  /** Equal keys mean the same proposal. */
  lemma KeyLeqAntisymmetric(cause: string, x: Candidate, y: Candidate)
    requires KeyLeq(cause, x, y) && KeyLeq(cause, y, x)
    ensures x.action.proposalId == y.action.proposalId
  {
    var (tx, ty) := (TypeName(x.action.actionType), TypeName(y.action.actionType));
    if tx != ty {
      StringLeqAntisymmetric(tx, ty);
    } else {
      StringLeqAntisymmetric(x.action.proposalId, y.action.proposalId);
    }
  }

  // ----- Properties of the selection -----

  ghost predicate SomeExecutable(ps: seq<Proposal>, s: Settings, newId: string -> string) {
    exists i | 0 <= i < |ps| :: Executable(EvaluatePolicy(ps[i], s, newId))
  }

  lemma SomeExecutableIff(ps: seq<Proposal>, s: Settings, newId: string -> string)
    ensures SomeExecutable(ps, s, newId) <==> Candidates(EvaluateAll(ps, s, newId)) != []
  {
    var rs := EvaluateAll(ps, s, newId);
    if SomeExecutable(ps, s, newId) {
      var i :| 0 <= i < |ps| && Executable(EvaluatePolicy(ps[i], s, newId));
      assert rs[i] in Candidates(rs);
    }
    if Candidates(rs) != [] {
      var c := Candidates(rs)[0];
      assert c in Candidates(rs);
    }
  }

  lemma FirstRejection(ps: seq<Proposal>, s: Settings, cause: string, newId: string -> string)
    requires ps != [] && !SomeExecutable(ps, s, newId)
    ensures Select(ps, s, cause, newId) == Some(EvaluatePolicy(ps[0], s, newId))
  {
    SomeExecutableIff(ps, s, newId);
  }

  /** The choice is an executable result of one of the proposals, and no executable result has a
      smaller (suitability, level, type, id) key. */
  lemma SelectionIsLeast(ps: seq<Proposal>, s: Settings, cause: string, newId: string -> string)
    requires SomeExecutable(ps, s, newId)
    ensures var c := Select(ps, s, cause, newId);
            && c.Some? && Executable(c.value)
            && (exists i | 0 <= i < |ps| :: c.value == EvaluatePolicy(ps[i], s, newId))
            && (forall i | 0 <= i < |ps| && Executable(EvaluatePolicy(ps[i], s, newId)) ::
                  KeyLeq(cause, c.value, EvaluatePolicy(ps[i], s, newId)))
  {
    SomeExecutableIff(ps, s, newId);
    var rs := EvaluateAll(ps, s, newId);
    KeyOrderTotal(cause);
    SortLeast(Candidates(rs), KeyOrder(cause));
    var c := Select(ps, s, cause, newId).value;
    assert c in rs;
    forall i | 0 <= i < |ps| && Executable(EvaluatePolicy(ps[i], s, newId))
      ensures KeyLeq(cause, c, EvaluatePolicy(ps[i], s, newId))
    {
      assert rs[i] in Candidates(rs);
      assert KeyOrder(cause)(c, rs[i]);
    }
  }

  ghost predicate DistinctIds(ps: seq<Proposal>) {
    forall i, j | 0 <= i < j < |ps| :: ps[i].id != ps[j].id
  }

  lemma SameIdSameResult(ps: seq<Proposal>, s: Settings, newId: string -> string, a: PolicyResult, b: PolicyResult)
    requires DistinctIds(ps) && ProposalOf(a) == ProposalOf(b)
    requires exists i | 0 <= i < |ps| :: a == EvaluatePolicy(ps[i], s, newId)
    requires exists i | 0 <= i < |ps| :: b == EvaluatePolicy(ps[i], s, newId)
    ensures a == b
  {
    var i :| 0 <= i < |ps| && a == EvaluatePolicy(ps[i], s, newId);
    var j :| 0 <= j < |ps| && b == EvaluatePolicy(ps[j], s, newId);
    assert ps[i].id == ps[j].id;
  }

  /** Order does not matter: lists with the same members select the same result. */
  lemma SelectionIgnoresOrder(ps: seq<Proposal>, qs: seq<Proposal>, s: Settings, cause: string, newId: string -> string)
    requires DistinctIds(ps) && SomeExecutable(ps, s, newId)
    requires forall p :: p in ps <==> p in qs
    ensures Select(qs, s, cause, newId) == Select(ps, s, cause, newId)
  {
    var i :| 0 <= i < |ps| && Executable(EvaluatePolicy(ps[i], s, newId));
    assert ps[i] in qs;
    var j :| 0 <= j < |qs| && qs[j] == ps[i];
    assert Executable(EvaluatePolicy(qs[j], s, newId));
    SelectionIsLeast(ps, s, cause, newId);
    SelectionIsLeast(qs, s, cause, newId);
    var (a, b) := (Select(ps, s, cause, newId).value, Select(qs, s, cause, newId).value);
    var k :| 0 <= k < |ps| && a == EvaluatePolicy(ps[k], s, newId);
    var l :| 0 <= l < |qs| && b == EvaluatePolicy(qs[l], s, newId);
    assert ps[k] in qs && qs[l] in ps;
    var k' :| 0 <= k' < |qs| && qs[k'] == ps[k];
    var l' :| 0 <= l' < |ps| && ps[l'] == qs[l];
    KeyLeqAntisymmetric(cause, a, b);
    SameIdSameResult(ps, s, newId, a, b);
  }

  ghost predicate OrderImmaterial(ps: seq<Proposal>, s: Settings, cause: string, newId: string -> string) {
    forall qs | multiset(qs) == multiset(ps) :: Select(qs, s, cause, newId) == Select(ps, s, cause, newId)
  }

  lemma SwapIsPermutation(ps: seq<Proposal>)
    requires |ps| >= 2
    ensures multiset([ps[1], ps[0]] + ps[2..]) == multiset(ps)
  {
    assert ps == [ps[0], ps[1]] + ps[2..];
  }

  lemma SameMembersSameVerdict(ps: seq<Proposal>, qs: seq<Proposal>, s: Settings, newId: string -> string)
    requires multiset(qs) == multiset(ps) && SomeExecutable(qs, s, newId)
    ensures SomeExecutable(ps, s, newId)
  {
    hide EvaluatePolicy;
    var i :| 0 <= i < |qs| && Executable(EvaluatePolicy(qs[i], s, newId));
    SameMembers(ps, qs, qs[i]);
  }

  /** With everything rejected the first rejection is reported, so swapping two proposals shows. */
  lemma AllRejectedOrderShows(ps: seq<Proposal>, s: Settings, cause: string, newId: string -> string)
    requires DistinctIds(ps) && |ps| >= 2 && !SomeExecutable(ps, s, newId)
    ensures !OrderImmaterial(ps, s, cause, newId)
  {
    hide EvaluatePolicy, Select, SomeExecutable;
    var qs := [ps[1], ps[0]] + ps[2..];
    SwapIsPermutation(ps);
    if SomeExecutable(qs, s, newId) {
      SameMembersSameVerdict(ps, qs, s, newId);
    }
    FirstRejection(ps, s, cause, newId);
    FirstRejection(qs, s, cause, newId);
    assert ProposalOf(EvaluatePolicy(ps[0], s, newId)) == ps[0].id;
    assert ProposalOf(EvaluatePolicy(ps[1], s, newId)) == ps[1].id;
  }

  /** Exactly when the order of the proposals is immaterial: when something is executable, or there is
      at most one proposal. */
  lemma OrderImmaterialIff(ps: seq<Proposal>, s: Settings, cause: string, newId: string -> string)
    requires DistinctIds(ps)
    ensures OrderImmaterial(ps, s, cause, newId) <==> SomeExecutable(ps, s, newId) || |ps| <= 1
  {
    if !SomeExecutable(ps, s, newId) && |ps| >= 2 {
      AllRejectedOrderShows(ps, s, cause, newId);
    } else {
      forall qs: seq<Proposal> | multiset(qs) == multiset(ps)
        ensures Select(qs, s, cause, newId) == Select(ps, s, cause, newId)
      {
        assert |qs| == |multiset(qs)| == |multiset(ps)| == |ps|;
        forall p ensures p in ps <==> p in qs { SameMembers(ps, qs, p); }
        if SomeExecutable(ps, s, newId) {
          SelectionIgnoresOrder(ps, qs, s, cause, newId);
        } else {
          assert |ps| == 1 ==> qs[0] in qs;
          assert qs == ps;
        }
      }
    }
  }

  /** Two proposals that differ at most in the language model's advice. */
  ghost predicate SameButAdvice(p: Proposal, q: Proposal) {
    q == p.(proposedRisk := q.proposedRisk, requiresApproval := q.requiresApproval)
  }

  /** Neither the decisions nor the choice depend on the model's risk and approval suggestions. */
  lemma AdviceIsIgnored(ps: seq<Proposal>, qs: seq<Proposal>, s: Settings, cause: string, newId: string -> string)
    requires |ps| == |qs| && forall i | 0 <= i < |ps| :: SameButAdvice(ps[i], qs[i])
    ensures EvaluateAll(qs, s, newId) == EvaluateAll(ps, s, newId)
    ensures Select(qs, s, cause, newId) == Select(ps, s, cause, newId)
  {
    forall i | 0 <= i < |ps| ensures EvaluatePolicy(ps[i], s, newId) == EvaluatePolicy(qs[i], s, newId) {
      assert SameButAdvice(ps[i], qs[i]);
    }
    assert EvaluateAll(qs, s, newId) == EvaluateAll(ps, s, newId);
  }

  /** `r` under a threshold and `r'` under a higher one: only ApprovalRequired may become Allowed. */
  ghost predicate Loosened(r: PolicyResult, r': PolicyResult) {
    match r
    case Rejected(_, _) => r' == r
    case Allowed(_) => r' == r
    case ApprovalRequired(a) => r' == r || r' == Allowed(a.(approvalRequired := false))
  }

  lemma ThresholdLoosens(p: Proposal, s: Settings, higher: int, newId: string -> string)
    requires s.autoExecuteMax <= higher
    ensures Loosened(EvaluatePolicy(p, s, newId), EvaluatePolicy(p, s.(autoExecuteMax := higher), newId))
  {
  }

  /** The ranking key ignores everything a threshold can change. */
  lemma LoosenedSameKey(cause: string, a: Candidate, a': Candidate, b: Candidate, b': Candidate)
    requires Loosened(a, a') && Loosened(b, b')
    ensures KeyLeq(cause, a, b) == KeyLeq(cause, a', b')
  {
  }

  /** Raising the auto-execute threshold only turns ApprovalRequired into Allowed, result by result,
      and selects the same proposal. */
  lemma RaisingThresholdOnlyAllows(ps: seq<Proposal>, s: Settings, higher: int, cause: string, newId: string -> string)
    requires DistinctIds(ps) && s.autoExecuteMax <= higher && ps != []
    ensures forall i | 0 <= i < |ps| ::
              Loosened(EvaluatePolicy(ps[i], s, newId), EvaluatePolicy(ps[i], s.(autoExecuteMax := higher), newId))
    ensures Loosened(Select(ps, s, cause, newId).value, Select(ps, s.(autoExecuteMax := higher), cause, newId).value)
  {
    var t := s.(autoExecuteMax := higher);
    forall i | 0 <= i < |ps| ensures Loosened(EvaluatePolicy(ps[i], s, newId), EvaluatePolicy(ps[i], t, newId)) {
      ThresholdLoosens(ps[i], s, higher, newId);
    }
    SameVerdicts(ps, s, higher, newId);
    if SomeExecutable(ps, s, newId) {
      SameChoice(ps, s, higher, cause, newId);
    } else {
      FirstRejection(ps, s, cause, newId);
      FirstRejection(ps, t, cause, newId);
    }
  }

  lemma SameVerdicts(ps: seq<Proposal>, s: Settings, higher: int, newId: string -> string)
    requires s.autoExecuteMax <= higher
    ensures SomeExecutable(ps, s.(autoExecuteMax := higher), newId) == SomeExecutable(ps, s, newId)
  {
    var t := s.(autoExecuteMax := higher);
    forall i | 0 <= i < |ps| ensures Executable(EvaluatePolicy(ps[i], t, newId)) == Executable(EvaluatePolicy(ps[i], s, newId)) {
      ThresholdLoosens(ps[i], s, higher, newId);
    }
  }

  lemma SameChoice(ps: seq<Proposal>, s: Settings, higher: int, cause: string, newId: string -> string)
    requires DistinctIds(ps) && s.autoExecuteMax <= higher && ps != []
    requires SomeExecutable(ps, s, newId) && SomeExecutable(ps, s.(autoExecuteMax := higher), newId)
    ensures Loosened(Select(ps, s, cause, newId).value, Select(ps, s.(autoExecuteMax := higher), cause, newId).value)
  {
    hide EvaluatePolicy, Select, KeyLeq;
    var t := s.(autoExecuteMax := higher);
    SelectionIsLeast(ps, s, cause, newId);
    SelectionIsLeast(ps, t, cause, newId);
    var (a, b) := (Select(ps, s, cause, newId).value, Select(ps, t, cause, newId).value);
    var i :| 0 <= i < |ps| && a == EvaluatePolicy(ps[i], s, newId);
    var j :| 0 <= j < |ps| && b == EvaluatePolicy(ps[j], t, newId);
    var (a', b') := (EvaluatePolicy(ps[i], t, newId), EvaluatePolicy(ps[j], s, newId));
    ThresholdLoosens(ps[i], s, higher, newId);
    ThresholdLoosens(ps[j], s, higher, newId);
    SameKeySameProposal(cause, a, a', b, b');
  }

  lemma SameKeySameProposal(cause: string, a: Candidate, a': Candidate, b: Candidate, b': Candidate)
    requires Loosened(a, a') && Loosened(b', b)
    requires KeyLeq(cause, a, b') && KeyLeq(cause, b, a')
    ensures a.action.proposalId == b'.action.proposalId
  {
    LoosenedSameKey(cause, b', b, a, a');
    KeyLeqAntisymmetric(cause, a, b');
  }

  // ----- History limits -----

  /** `_enforce_remediation_limits`. */
  function EnforceLimits(r: PolicyResult, priorAttempts: int, priorAuto: int, s: Settings): PolicyResult {
    if priorAttempts >= s.maxAttempts then
      Rejected(ProposalOf(r), if r.Rejected? then r.actionType else r.action.actionType)
    else if r.Allowed? && priorAuto >= s.maxAutoExecutions then
      Rejected(r.action.proposalId, r.action.actionType)
    else r
  }

  /** The limits let an executable result through unchanged exactly below both of them, and turn it into
      a rejection of the same proposal otherwise; the second limit concerns automatic execution only. */
  lemma LimitsIff(r: PolicyResult, priorAttempts: int, priorAuto: int, s: Settings)
    requires Executable(r)
    ensures var l := EnforceLimits(r, priorAttempts, priorAuto, s);
            && (Executable(l) <==> priorAttempts < s.maxAttempts && (r.Allowed? ==> priorAuto < s.maxAutoExecutions))
            && (Executable(l) ==> l == r)
            && ProposalOf(l) == ProposalOf(r)
  {
  }
}
