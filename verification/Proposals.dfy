/** Remediation proposals: the schema boundary around the language model's suggestions, and the
    fallback pair that keeps the list non-empty. */
module Proposals {
  import opened Wrappers
  import opened Policy

  /** An action the language model suggested.  `target` is the service parameter when given;
      `extraParameters` says other keys were present, which the schema forbids. */
  datatype ActionSuggestion = ActionSuggestion(actionType: string, target: Option<string>, extraParameters: bool, safetyLevel: int)

  /** `parse_remediation_proposal`: None when validation raises. */
  function Parse(a: ActionSuggestion, id: string): Option<Proposal> {
    var risk := if a.safetyLevel == 0 || a.safetyLevel == 1 then a.safetyLevel else 2;
    var fits := !a.extraParameters && (a.target.None? || a.target.value == "demo-service");
    if !fits then None
    else if a.actionType == "RESET_DEMO_FAILURE" then
      Some(Proposal(id, ResetDemoFailure, Some("demo-service"), true, risk, true))
    else if a.actionType == "RESTART_REGISTERED_SERVICE" then
      Some(Proposal(id, RestartRegisteredService, Some("demo-service"), true, risk, true))
    else None
  }

  /** A suggestion parses exactly when it names one of the two actions, gives no parameter but the service and
      no service but demo-service; the proposal keeps the action it names, aimed at demo-service. */
  lemma ParseIff(a: ActionSuggestion, id: string)
    ensures Parse(a, id).Some? <==>
            && (a.actionType == "RESET_DEMO_FAILURE" || a.actionType == "RESTART_REGISTERED_SERVICE")
            && !a.extraParameters && a.target in {None, Some("demo-service")}
    ensures Parse(a, id).Some? ==>
              var p := Parse(a, id).value;
              && p.id == id && TypeName(p.actionType) == a.actionType && !p.actionType.Unregistered?
              && p.target == Some("demo-service") && p.wellFormed
              && p.requiresApproval && (p.proposedRisk == a.safetyLevel || (p.proposedRisk == 2 && a.safetyLevel !in {0, 1}))
  {
  }

  /** What the typed proposal schema guarantees. */
  ghost predicate WellTyped(p: Proposal) {
    p.actionType in {ResetDemoFailure, RestartRegisteredService} && p.target == Some("demo-service") && p.wellFormed
  }

  /** The surviving suggestions, each with the id drawn for its position. */
  function ParseAll(acts: seq<ActionSuggestion>, ids: nat -> string): (ps: seq<Proposal>)
    ensures forall p | p in ps :: WellTyped(p)
  {
    if acts == [] then []
    else
      var n := |acts| - 1;
      var parsed := Parse(acts[n], ids(n));
      ParseAll(acts[..n], ids) + (if parsed.Some? then [parsed.value] else [])
  }

  /** A suggestion survives exactly when its action is known and its parameters fit. */
  lemma {:induction false} ParsedExactly(acts: seq<ActionSuggestion>, ids: nat -> string, p: Proposal)
    ensures p in ParseAll(acts, ids) <==> exists k: nat | k < |acts| :: Parse(acts[k], ids(k)) == Some(p)
  {
    hide Parse;
    if acts == [] {
    } else {
      var n := |acts| - 1;
      ParsedExactly(acts[..n], ids, p);
      if k: nat :| k < |acts| && Parse(acts[k], ids(k)) == Some(p) {
        assert k < n ==> acts[..n][k] == acts[k];
      }
      if k: nat :| k < n && Parse(acts[..n][k], ids(k)) == Some(p) {
        assert acts[k] == acts[..n][k];
      }
    }
  }

  function FallbackProposals(ids: nat -> string): seq<Proposal> {
    [Proposal(ids(0), ResetDemoFailure, Some("demo-service"), true, 1, true),
     Proposal(ids(1), RestartRegisteredService, Some("demo-service"), true, 2, true)]
  }

  function Propose(response: Option<seq<ActionSuggestion>>, ids: nat -> string): (ps: seq<Proposal>)
    ensures ps != [] && forall p | p in ps :: WellTyped(p)
  {
    var ps := if response.Some? then ParseAll(response.value, ids) else [];
    if ps == [] then FallbackProposals(ids) else ps
  }

  /** The fallback pair is proposed exactly when no suggestion parses: a reset and a restart, in this order,
      each under its own id. */
  lemma FallbackIff(response: Option<seq<ActionSuggestion>>, ids: nat -> string)
    ensures var usable := response.Some? && exists k: nat | k < |response.value| :: Parse(response.value[k], ids(k)).Some?;
            && (usable ==> Propose(response, ids) == ParseAll(response.value, ids))
            && (!usable ==>
                  var ps := Propose(response, ids);
                  && |ps| == 2 && ps[0].id == ids(0) && ps[1].id == ids(1)
                  && ps[0].actionType == ResetDemoFailure && ps[1].actionType == RestartRegisteredService)
  {
    hide Parse;
    if response.Some? {
      var (acts, ps) := (response.value, ParseAll(response.value, ids));
      if ps != [] {
        ParsedExactly(acts, ids, ps[0]);
        var k: nat :| k < |acts| && Parse(acts[k], ids(k)) == Some(ps[0]);
      }
      if k: nat :| k < |acts| && Parse(acts[k], ids(k)).Some? {
        ParsedExactly(acts, ids, Parse(acts[k], ids(k)).value);
      }
    }
  }

  /** `propose_remediation_node`. */
  method ProposeRemediation(response: Option<seq<ActionSuggestion>>, ids: nat -> string) returns (proposals: seq<Proposal>)
    ensures proposals == Propose(response, ids)
  {
    proposals := [];
    if response.Some? {
      var acts := response.value;
      for k := 0 to |acts|
        invariant proposals == ParseAll(acts[..k], ids)
      {
        assert acts[..k + 1][..k] == acts[..k];
        var parsed := Parse(acts[k], ids(k));
        if parsed.Some? {
          proposals := proposals + [parsed.value];
        }
      }
      assert acts[..|acts|] == acts;
    }
    if proposals == [] {
      proposals := FallbackProposals(ids);
    }
  }

  ghost predicate Injective(ids: nat -> string) {
    forall i: nat, j: nat | ids(i) == ids(j) :: i == j
  }

  ghost predicate DrawnFrom(ps: seq<Proposal>, ids: nat -> string) {
    forall p | p in ps :: exists k: nat :: p.id == ids(k)
  }

  /** Fresh ids make the list's ids distinct, which the ranking and the audit trail rely on. */
  lemma ProposalIdsDistinct(response: Option<seq<ActionSuggestion>>, ids: nat -> string)
    requires Injective(ids)
    ensures DistinctIds(Propose(response, ids)) && DrawnFrom(Propose(response, ids), ids)
  {
    if response.Some? {
      ParseAllIds(response.value, ids);
    }
    assert forall p | p in FallbackProposals(ids) :: p.id == ids(0) || p.id == ids(1);
  }

  lemma {:induction false} ParseAllIds(acts: seq<ActionSuggestion>, ids: nat -> string)
    requires Injective(ids)
    ensures DistinctIds(ParseAll(acts, ids))
    ensures forall p | p in ParseAll(acts, ids) :: exists k: nat :: k < |acts| && p.id == ids(k)
  {
    if acts == [] {
    } else {
      ParseAllIds(acts[..|acts| - 1], ids);
    }
  }

  /** A typed proposal is rejected only by the master switch. */
  lemma TypedExecutableIff(p: Proposal, s: Settings, newId: string -> string)
    requires WellTyped(p)
    ensures Executable(EvaluatePolicy(p, s, newId)) <==> s.enabled
  {
  }
}
