/** Hypothesis verification and the promotion of a root cause with its causal changes. */
module Verification {
  import opened Wrappers
  import opened Domain
  import opened Causality
  import opened Hypotheses
  import opened Text

  /** The language model's judgement of the leading hypothesis. */
  datatype Verdict = Verdict(isVerified: bool, confidence: real, queries: seq<string>)

  /** `max(hypotheses, key=confidence)`: the first of the most confident. */
  function Best(hs: seq<Hypothesis>): (b: Hypothesis)
    requires hs != []
    ensures b in hs && forall h | h in hs :: h.confidence <= b.confidence
  {
    if |hs| == 1 then hs[0]
    else
      var front := Best(hs[..|hs| - 1]);
      assert hs == hs[..|hs| - 1] + [hs[|hs| - 1]];
      if hs[|hs| - 1].confidence > front.confidence then hs[|hs| - 1] else front
  }

  /** Less confident before, no more confident after. */
  ghost predicate Leads(hs: seq<Hypothesis>, i: nat) {
    && i < |hs|
    && (forall j | 0 <= j < i :: hs[j].confidence < hs[i].confidence)
    && (forall j | i <= j < |hs| :: hs[j].confidence <= hs[i].confidence)
  }

  lemma LeadsSnoc(front: seq<Hypothesis>, h: Hypothesis, i: nat)
    requires Leads(front, i)
    ensures Leads(front + [h], if h.confidence > front[i].confidence then |front| else i)
  {
  }

  /** Among equally confident hypotheses the first is taken. */
  lemma {:induction false} BestIsFirst(hs: seq<Hypothesis>) returns (i: nat)
    requires hs != []
    ensures Leads(hs, i) && Best(hs) == hs[i]
  {
    if |hs| == 1 {
      i := 0;
    } else {
      hide Leads;
      var (front, h) := (hs[..|hs| - 1], hs[|hs| - 1]);
      i := BestIsFirst(front);
      assert hs == front + [h];
      LeadsIndex(front, i);
      LeadsSnoc(front, h, i);
      if h.confidence > front[i].confidence {
        i := |front|;
      }
    }
  }

  lemma LeadsIndex(hs: seq<Hypothesis>, i: nat)
    requires Leads(hs, i)
    ensures i < |hs|
  {
  }

  function Replace(hs: seq<Hypothesis>, u: Hypothesis): (r: seq<Hypothesis>)
    ensures |r| == |hs|
    ensures forall i | 0 <= i < |hs| :: r[i] == (if hs[i].id == u.id then u else hs[i])
  {
    seq(|hs|, i requires 0 <= i < |hs| => if hs[i].id == u.id then u else hs[i])
  }

  /** `{ch.id: ch for ch in changes}`: on a repeated id the last one wins. */
  function LastChange(changes: seq<Change>, id: string): (k: Option<nat>)
    ensures k.Some? ==> k.value < |changes| && changes[k.value].id == id
    ensures k.None? <==> id !in ChangeIds(changes)
  {
    if changes == [] then None
    else
      var n := |changes| - 1;
      assert changes == changes[..n] + [changes[n]];
      if changes[n].id == id then Some(n) else LastChange(changes[..n], id)
  }

  lemma {:induction false} LastChangeIsLast(changes: seq<Change>, id: string, i: nat)
    requires LastChange(changes, id).Some? && LastChange(changes, id).value < i < |changes|
    ensures changes[i].id != id
  {
    var n := |changes| - 1;
    if changes[n].id == id {
    } else if i < n {
      LastChangeIsLast(changes[..n], id, i);
    }
  }

  function LastCorrelation(cs: seq<Correlation>, id: string): (k: Option<nat>)
    ensures k.Some? ==> k.value < |cs| && cs[k.value].changeId == id
  {
    if cs == [] then None
    else
      var n := |cs| - 1;
      if cs[n].changeId == id then Some(n) else LastCorrelation(cs[..n], id)
  }

  function CorrelationFor(cs: seq<Correlation>, id: string): Option<Correlation> {
    var k := LastCorrelation(cs, id);
    if k.Some? then Some(cs[k.value]) else None
  }

  predicate Promoted(h: Hypothesis, id: string, changes: seq<Change>, cs: seq<Correlation>, current: set<string>, threshold: real) {
    var k := LastChange(changes, id);
    k.Some? && Gate(h, changes[k.value], CorrelationFor(cs, id), current, threshold)
  }

  function CausalIds(h: Hypothesis, ids: seq<string>, changes: seq<Change>, cs: seq<Correlation>, current: set<string>, threshold: real)
    : (r: seq<string>)
    ensures forall id :: id in r <==> id in ids && Promoted(h, id, changes, cs, current, threshold)
  {
    if ids == [] then []
    else
      var (front, id) := (CausalIds(h, ids[..|ids| - 1], changes, cs, current, threshold), ids[|ids| - 1]);
      assert ids == ids[..|ids| - 1] + [id];
      if Promoted(h, id, changes, cs, current, threshold) then front + [id] else front
  }

  /** The promotion loop of `verify_hypothesis_node`. */
  method PromoteCauses(h: Hypothesis, changes: seq<Change>, cs: seq<Correlation>, current: set<string>, threshold: real)
    returns (causal: seq<string>)
    ensures causal == CausalIds(h, h.related, changes, cs, current, threshold)
  {
    hide Gate;
    causal := [];
    for k := 0 to |h.related|
      invariant causal == CausalIds(h, h.related[..k], changes, cs, current, threshold)
    {
      assert h.related[..k + 1][..k] == h.related[..k];
      var id := h.related[k];
      var at := LastChange(changes, id);
      if at.Some? {
        var change := changes[at.value];
        if Gate(h, change, CorrelationFor(cs, id), current, threshold) {
          causal := causal + [change.id];
        }
      }
    }
    assert h.related[..|h.related|] == h.related;
  }

  lemma {:induction false} LastCorrelationIsLast(cs: seq<Correlation>, id: string, i: nat)
    requires i < |cs| && cs[i].changeId == id
    ensures LastCorrelation(cs, id).Some? && i <= LastCorrelation(cs, id).value
  {
    var n := |cs| - 1;
    if cs[n].changeId == id {
    } else {
      LastCorrelationIsLast(cs[..n], id, i);
    }
  }

  lemma {:induction false} LastMatches(changes: seq<Change>, cs: seq<Correlation>, id: string)
    requires |changes| == |cs| && forall i | 0 <= i < |cs| :: cs[i].changeId == changes[i].id
    ensures LastCorrelation(cs, id) == LastChange(changes, id)
  {
    if changes == [] {
    } else {
      var n := |changes| - 1;
      LastMatches(changes[..n], cs[..n], id);
    }
  }

  /** An id becomes causal exactly when the hypothesis names it, it is a recent change, that change is a
      causal candidate and its service is the hypothesis's component. */
  lemma CausalIdsExact(h: Hypothesis, changes: seq<Change>, service: string, onset: real, es: seq<Evidence>, later: seq<Evidence>,
                       threshold: real, clusters: seq<Cluster>, id: string)
    requires es <= later && id != ""
    ensures var cs := CorrelateAll(changes, service, onset, es, threshold, clusters);
            (id in CausalIds(h, h.related, changes, cs, EvidenceIds(later), threshold)
             <==> && id in h.related
                  && LastChange(changes, id).Some?
                  && var c := changes[LastChange(changes, id).value];
                     Correlate(c, service, onset, es, threshold, clusters).isCandidate && Lower(c.service) == Lower(h.component))
  {
    var cs := CorrelateAll(changes, service, onset, es, threshold, clusters);
    LastMatches(changes, cs, id);
    var k := LastChange(changes, id);
    if k.Some? {
      GateIff(h, changes[k.value], service, onset, es, later, threshold, clusters);
    }
  }

  /** `verify_hypothesis_node`'s outcome: the updated hypotheses and, when promoted, the root cause. */
  datatype Outcome = Outcome(hypotheses: seq<Hypothesis>, selected: Option<Hypothesis>, rootCause: Option<RootCause>, missing: seq<string>)

  /** A verdict, or the fallback on the candidate's own confidence, that accepts the candidate. */
  predicate Accepts(verdict: Option<Verdict>, own: real, threshold: real) {
    match verdict
    case Some(v) => v.isVerified && v.confidence >= threshold
    case None => own >= threshold
  }

  /** The confidence a hypothesis is judged to have: the verdict's, or its own. */
  function Judged(verdict: Option<Verdict>, own: real): real {
    match verdict
    case Some(v) => v.confidence
    case None => own
  }

  const DEFAULT_QUERY := "sum(rate(http_requests_total[1m]))"

  function Verify(hs: seq<Hypothesis>, verdict: Option<Verdict>, es: seq<Evidence>, changes: seq<Change>, cs: seq<Correlation>,
                  iteration: int, maxIterations: int, confidenceThreshold: real, correlationThreshold: real, category: string): Outcome
  {
    if hs == [] then Outcome([], None, None, [])
    else
      var best := Best(hs);
      var verified := if verdict.Some? then verdict.value.isVerified else best.confidence >= confidenceThreshold;
      var confidence := if verdict.Some? then verdict.value.confidence else best.confidence;
      var queries := if verdict.Some? then verdict.value.queries else [];
      var current := EvidenceIds(es);
      var support := Keep(best.supporting, current);
      if verified && confidence >= confidenceThreshold && support != [] then
        var updated := best.(confidence := confidence, status := Verified, supporting := support);
        var causal := CausalIds(updated, updated.related, changes, cs, current, correlationThreshold);
        var text := "Root cause verified: " + updated.title + ". " + updated.description + " " + category;
        Outcome(Replace(hs, updated), Some(updated), Some(RootCause(updated.id, text, support, causal, confidence)), [])
      else
        var exhausted := iteration >= maxIterations;
        var updated := best.(confidence := confidence, status := if exhausted then Inconclusive else Testing);
        Outcome(Replace(hs, updated), Some(updated), None,
                if exhausted then [] else if queries != [] then queries else [DEFAULT_QUERY])
  }

  /** A root cause is promoted exactly when the verdict accepts the most confident hypothesis and at least
      one of its supporting ids is current evidence; without one, more telemetry is asked for exactly
      while iterations remain.  Either way the hypothesis carries the confidence it was judged to have. */
  lemma PromotedIff(hs: seq<Hypothesis>, verdict: Option<Verdict>, es: seq<Evidence>, changes: seq<Change>, cs: seq<Correlation>,
                    iteration: int, maxIterations: int, confidenceThreshold: real, correlationThreshold: real, category: string)
    requires hs != []
    ensures var o := Verify(hs, verdict, es, changes, cs, iteration, maxIterations, confidenceThreshold, correlationThreshold, category);
            var best := Best(hs);
            && (o.rootCause.Some? <==> && Accepts(verdict, best.confidence, confidenceThreshold)
                                       && exists id | id in best.supporting :: id in EvidenceIds(es))
            && (o.missing != [] <==> o.rootCause.None? && iteration < maxIterations)
            && o.selected.Some? && o.selected.value.id == best.id
            && o.selected.value.confidence == Judged(verdict, best.confidence)
            && (o.rootCause.Some? ==> o.rootCause.value.confidence == Judged(verdict, best.confidence))
  {
    hide CausalIds, EvidenceIds, Best;
    var best := Best(hs);
    var support := Keep(best.supporting, EvidenceIds(es));
    if id :| id in best.supporting && id in EvidenceIds(es) {
      assert id in support;
    }
    if support != [] {
      assert support[0] in support;
    }
  }

  /** What a promotion writes: the hypothesis VERIFIED with its current support, the others as they were, and
      a root cause telling the same.  Nothing is asked for. */
  lemma PromotionIs(hs: seq<Hypothesis>, verdict: Option<Verdict>, es: seq<Evidence>, changes: seq<Change>, cs: seq<Correlation>,
                    iteration: int, maxIterations: int, confidenceThreshold: real, correlationThreshold: real, category: string, id: string)
    requires hs != []
    requires Verify(hs, verdict, es, changes, cs, iteration, maxIterations, confidenceThreshold, correlationThreshold, category).rootCause.Some?
    ensures var o := Verify(hs, verdict, es, changes, cs, iteration, maxIterations, confidenceThreshold, correlationThreshold, category);
            var (r, best, v) := (o.rootCause.value, Best(hs), o.selected.value);
            && v.status == Verified && v.title == best.title && v.component == best.component && v.related == best.related
            && r.hypothesisId == best.id && r.supporting == v.supporting
            && (id in r.supporting <==> id in best.supporting && id in EvidenceIds(es))
            && (id in r.causalChangeIds <==> id in best.related && Promoted(v, id, changes, cs, EvidenceIds(es), correlationThreshold))
            && r.text == "Root cause verified: " + best.title + ". " + best.description + " " + category
            && o.missing == []
            && |o.hypotheses| == |hs| && forall i | 0 <= i < |hs| :: o.hypotheses[i] == if hs[i].id == best.id then v else hs[i]
  {
    hide EvidenceIds, Best, Promoted;
  }

  /** What a refusal writes: INCONCLUSIVE at the last iteration, TESTING before, and the verdict's queries, or
      a default one, while iterations remain. */
  lemma RefusalIs(hs: seq<Hypothesis>, verdict: Option<Verdict>, es: seq<Evidence>, changes: seq<Change>, cs: seq<Correlation>,
                  iteration: int, maxIterations: int, confidenceThreshold: real, correlationThreshold: real, category: string)
    requires hs != []
    requires Verify(hs, verdict, es, changes, cs, iteration, maxIterations, confidenceThreshold, correlationThreshold, category).rootCause.None?
    ensures var o := Verify(hs, verdict, es, changes, cs, iteration, maxIterations, confidenceThreshold, correlationThreshold, category);
            var (best, v) := (Best(hs), o.selected.value);
            && v == best.(confidence := Judged(verdict, best.confidence), status := v.status)
            && v.status == (if iteration >= maxIterations then Inconclusive else Testing)
            && (iteration < maxIterations ==>
                  o.missing == if verdict.Some? && verdict.value.queries != [] then verdict.value.queries
                               else ["sum(rate(http_requests_total[1m]))"])
            && |o.hypotheses| == |hs| && forall i | 0 <= i < |hs| :: o.hypotheses[i] == if hs[i].id == best.id then v else hs[i]
  {
    hide EvidenceIds, Best, CausalIds;
  }
}
