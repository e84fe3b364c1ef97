/** Which action the policy prefers, told from the words of the root cause and the classification. */
module Ranking {
  import opened Wrappers
  import opened Policy
  import opened Proposals
  import opened Graph
  import opened GraphInvariants
  import opened GraphTheorems
  import opened Sorting
  import opened Text

  /** The text, in any casing, speaks of an injected fault. */
  predicate SpeaksOfFault(text: string) {
    var t := Lower(text);
    || Contains(t, "error-mode") || Contains(t, "pool") || Contains(t, "exhaust") || Contains(t, "fault")
    || Contains(t, "injection") || Contains(t, "parameter") || Contains(t, "debug")
  }

  /** Nothing is known of the cause, or what is known speaks of an injected fault. */
  predicate ResetPreferred(rootCause: Option<string>, classification: Option<string>) {
    || ((rootCause.None? || rootCause.value == "") && classification.None?)
    || (rootCause.Some? && SpeaksOfFault(rootCause.value))
    || (classification.Some? && SpeaksOfFault(classification.value))
  }

  lemma KeywordIff(cause: string)
    ensures IsFaultInjection(cause) <==>
            || Contains(cause, "error-mode") || Contains(cause, "pool") || Contains(cause, "exhaust") || Contains(cause, "fault")
            || Contains(cause, "injection") || Contains(cause, "parameter") || Contains(cause, "debug")
  {
    hide Contains;
    var ks := FAULT_KEYWORDS;
    assert ks[0] == "error-mode" && ks[1] == "pool" && ks[2] == "exhaust" && ks[3] == "fault";
    assert ks[4] == "injection" && ks[5] == "parameter" && ks[6] == "debug" && |ks| == 7;
  }

  lemma JoinedKeywords(a: string, b: string)
    ensures IsFaultInjection(a + " " + b) <==> IsFaultInjection(a) || IsFaultInjection(b)
  {
    hide Contains, IsFaultInjection;
    KeywordIff(a); KeywordIff(b); KeywordIff(a + " " + b);
    ContainsAcrossSpace(a, b, "error-mode"); ContainsAcrossSpace(a, b, "pool"); ContainsAcrossSpace(a, b, "exhaust");
    ContainsAcrossSpace(a, b, "fault"); ContainsAcrossSpace(a, b, "injection"); ContainsAcrossSpace(a, b, "parameter");
    ContainsAcrossSpace(a, b, "debug");
  }

  lemma NothingMentioned()
    ensures !IsFaultInjection("")
  {
    KeywordIff("");
  }

  /** The text the score looks at is empty or names a fault exactly when a reset is preferred. */
  lemma CauseTextIff(rootCause: Option<string>, classification: Option<string>)
    ensures var cause := CauseText(rootCause, classification);
            cause == "" || IsFaultInjection(cause) <==> ResetPreferred(rootCause, classification)
  {
    hide Contains, IsFaultInjection;
    var text := if rootCause.Some? then Lower(rootCause.value) else "";
    KeywordIff(text);
    NothingMentioned();
    if classification.Some? {
      var (c, space) := (classification.value, " ");
      LowerConcat(text + space, c);
      LowerConcat(text, space);
      LowerTwice(text);
      if rootCause.Some? {
        LowerTwice(rootCause.value);
      }
      assert Lower(text) == text && Lower(space) == space;
      JoinedKeywords(text, Lower(c));
      KeywordIff(Lower(c));
    }
  }

  /** The action preferred among those proposed. */
  function Preferred(rootCause: Option<string>, classification: Option<string>): ActionType {
    if ResetPreferred(rootCause, classification) then ResetDemoFailure else RestartRegisteredService
  }

  /** A candidate of the preferred kind comes strictly before one of the other kind. */
  lemma PreferredComesFirst(rootCause: Option<string>, classification: Option<string>, ps: seq<Proposal>, s: Settings,
                            newId: string -> string, i: nat, j: nat)
    requires i < |ps| && j < |ps| && WellTyped(ps[i]) && WellTyped(ps[j]) && s.enabled
    requires ps[i].actionType == Preferred(rootCause, classification) && ps[j].actionType != ps[i].actionType
    ensures Executable(EvaluatePolicy(ps[i], s, newId)) && Executable(EvaluatePolicy(ps[j], s, newId))
    ensures !KeyLeq(CauseText(rootCause, classification), EvaluatePolicy(ps[j], s, newId), EvaluatePolicy(ps[i], s, newId))
  {
    hide EvaluatePolicy, ResetPreferred, CauseText, IsFaultInjection;
    CauseTextIff(rootCause, classification);
    DecisionIff(ps[i], s, newId);
    DecisionIff(ps[j], s, newId);
  }

  /** Among typed proposals the choice is of the preferred kind whenever one is proposed, and among those of
      the chosen kind it is the one with the least id. */
  lemma SelectionByCause(ps: seq<Proposal>, s: Settings, rootCause: Option<string>, classification: Option<string>,
                         newId: string -> string)
    requires s.enabled && ps != [] && forall p | p in ps :: WellTyped(p)
    ensures var c := Select(ps, s, CauseText(rootCause, classification), newId);
            && c.Some? && Executable(c.value)
            && ((exists p | p in ps :: p.actionType == Preferred(rootCause, classification)) ==>
                  c.value.action.actionType == Preferred(rootCause, classification))
            && (exists p | p in ps :: p.id == c.value.action.proposalId && p.actionType == c.value.action.actionType)
            && (forall p | p in ps && p.actionType == c.value.action.actionType :: StringLeq(c.value.action.proposalId, p.id))
  {
    hide EvaluatePolicy, Select, CauseText, ResetPreferred, IsFaultInjection, StringLeq;
    var cause := CauseText(rootCause, classification);
    DecisionIff(ps[0], s, newId);
    assert ps[0] in ps && Executable(EvaluatePolicy(ps[0], s, newId));
    SelectionIsLeast(ps, s, cause, newId);
    var c := Select(ps, s, cause, newId).value;
    var k :| 0 <= k < |ps| && c == EvaluatePolicy(ps[k], s, newId);
    assert ps[k] in ps;
    DecisionIff(ps[k], s, newId);
    forall j: nat | j < |ps|
      ensures ps[j].actionType == Preferred(rootCause, classification) ==> c.action.actionType == ps[j].actionType
      ensures ps[j].actionType == c.action.actionType ==> StringLeq(c.action.proposalId, ps[j].id)
    {
      assert ps[j] in ps;
      DecisionIff(ps[j], s, newId);
      if ps[j].actionType == Preferred(rootCause, classification) && ps[k].actionType != ps[j].actionType {
        PreferredComesFirst(rootCause, classification, ps, s, newId, j, k);
      }
    }
  }

  // ----- At the policy node of a run -----

  /** The action runs without asking: a reset from threshold 1, a restart from threshold 2. */
  predicate RunsUnasked(s: Settings, kind: ActionType) {
    s.autoExecuteMax >= (if kind.ResetDemoFailure? then 1 else 2)
  }

  /** The kind a list of typed proposals leads to: the preferred one if it is proposed, and else the other. */
  ghost function Kind(ps: seq<Proposal>, rootCause: Option<string>, classification: Option<string>): ActionType {
    var preferred := Preferred(rootCause, classification);
    if exists p | p in ps :: p.actionType == preferred then preferred
    else if preferred.ResetDemoFailure? then RestartRegisteredService else ResetDemoFailure
  }

  lemma SelectedIsEvaluated(ps: seq<Proposal>, s: Settings, cause: string, newId: string -> string)
    requires s.enabled && ps != [] && forall p | p in ps :: WellTyped(p)
    ensures var c := Select(ps, s, cause, newId);
            && c.Some? && Executable(c.value)
            && c.value.action.actionType in {ResetDemoFailure, RestartRegisteredService}
            && (c.value.Allowed? <==> RunsUnasked(s, c.value.action.actionType))
  {
    hide EvaluatePolicy, Select, KeyLeq;
    DecisionIff(ps[0], s, newId);
    assert ps[0] in ps && Executable(EvaluatePolicy(ps[0], s, newId));
    SelectionIsLeast(ps, s, cause, newId);
    var c := Select(ps, s, cause, newId).value;
    var k :| 0 <= k < |ps| && c == EvaluatePolicy(ps[k], s, newId);
    DecisionIff(ps[k], s, newId);
    assert ps[k] in ps;
  }

  lemma SelectionIsOfKind(ps: seq<Proposal>, s: Settings, rootCause: Option<string>, classification: Option<string>,
                          newId: string -> string)
    requires s.enabled && ps != [] && forall p | p in ps :: WellTyped(p)
    ensures var c := Select(ps, s, CauseText(rootCause, classification), newId);
            && c.Some? && Executable(c.value) && c.value.action.actionType == Kind(ps, rootCause, classification)
            && (c.value.Allowed? <==> RunsUnasked(s, c.value.action.actionType))
            && (exists p | p in ps :: p.id == c.value.action.proposalId && p.actionType == c.value.action.actionType)
            && (forall p | p in ps && p.actionType == c.value.action.actionType :: StringLeq(c.value.action.proposalId, p.id))
  {
    hide EvaluatePolicy, Select, CauseText, ResetPreferred, StringLeq, WellTyped, RunsUnasked;
    SelectionByCause(ps, s, rootCause, classification, newId);
    SelectedIsEvaluated(ps, s, CauseText(rootCause, classification), newId);
  }

  /** An eligible run with remediation enabled chooses by the words of its root cause and classification; the
      choice stands exactly below the history limits, runs unasked exactly at its threshold, and among the
      proposals of its kind is the one with the least id. */
  lemma RunChoosesByCause(cfg: Config, ctx: Context, oracle: nat -> Answer)
    requires cfg.policy.enabled && Final(cfg, ctx, START, oracle, 0).state.eligibility == Some(Eligible)
    ensures var s := Final(cfg, ctx, START, oracle, 0).state;
            && s.rootCause.Some? && s.policyResult.Some?
            && var kind := Kind(s.proposals, Some(s.rootCause.value.text), s.classification);
               var r := s.policyResult.value;
               && (Executable(r) <==> ctx.priorAttempts < cfg.policy.maxAttempts
                                      && (RunsUnasked(cfg.policy, kind) ==> ctx.priorAutoExecutions < cfg.policy.maxAutoExecutions))
               && (Executable(r) ==>
                     && r.action.actionType == kind && (r.Allowed? <==> RunsUnasked(cfg.policy, kind))
                     && (exists p | p in s.proposals :: p.id == r.action.proposalId && p.actionType == kind)
                     && (forall p | p in s.proposals && p.actionType == kind :: StringLeq(r.action.proposalId, p.id)))
  {
    hide Trace, Referential, Looping, Rooted, EvaluateAll, Select, CauseText, Kind, StringLeq, EnforceLimits, RunsUnasked;
    InitialInv(cfg, ctx);
    TraceKeepsInv(cfg, ctx, START, oracle, 0);
    RunsAreBounded(cfg, ctx, oracle);
    var t := Trace(cfg, ctx, START, oracle, 0);
    assert Inv(cfg, ctx, t[|t| - 1]);
    var s := Final(cfg, ctx, START, oracle, 0).state;
    ChoiceByCause(cfg, ctx, s);
  }

  lemma ChoiceByCause(cfg: Config, ctx: Context, s: State)
    requires cfg.policy.enabled && s.eligibility == Some(Eligible) && Decided(cfg, ctx, s) && HasProposals(ctx, s)
    ensures s.rootCause.Some? && s.policyResult.Some?
    ensures var kind := Kind(s.proposals, Some(s.rootCause.value.text), s.classification);
            var r := s.policyResult.value;
            && (Executable(r) <==> ctx.priorAttempts < cfg.policy.maxAttempts
                                   && (RunsUnasked(cfg.policy, kind) ==> ctx.priorAutoExecutions < cfg.policy.maxAutoExecutions))
            && (Executable(r) ==>
                  && r.action.actionType == kind && (r.Allowed? <==> RunsUnasked(cfg.policy, kind))
                  && (exists p | p in s.proposals :: p.id == r.action.proposalId && p.actionType == kind)
                  && (forall p | p in s.proposals && p.actionType == kind :: StringLeq(r.action.proposalId, p.id)))
  {
    hide EvaluateAll, Select, CauseText, Kind, StringLeq, EnforceLimits, RunsUnasked, DistinctIds, DrawnFrom, WellTyped;
    var text := Some(s.rootCause.value.text);
    SelectionIsOfKind(s.proposals, cfg.policy, text, s.classification, ctx.actionIds);
    var c := Select(s.proposals, cfg.policy, CauseText(text, s.classification), ctx.actionIds).value;
    LimitsIff(c, ctx.priorAttempts, ctx.priorAutoExecutions, cfg.policy);
  }
}
