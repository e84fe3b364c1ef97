/** Multi-factor change correlation and the ten-part promotion gate, over exact reals. */
module Causality {
  import opened Wrappers
  import opened Domain
  import opened Rounding
  import opened Text

  // ----- Temporal proximity -----

  /** `_calculate_temporal_score` on the seconds from the change to the incident's onset. */
  function TemporalScore(delta: real): real {
    if delta < 0.0 then (if -delta <= 60.0 then 0.2 else 0.0)
    else if delta <= 300.0 then 1.0 - (delta / 300.0) * 0.1
    else if delta <= 1800.0 then 0.9 - ((delta - 300.0) / 1500.0) * 0.3
    else if delta <= 7200.0 then 0.6 - ((delta - 1800.0) / 5400.0) * 0.4
    else 0.1
  }

  /** The score decays from the onset backwards and stays within [0, 1]. */
  lemma TemporalScoreDecays(d: real, e: real)
    requires 0.0 <= d <= e
    ensures 0.1 <= TemporalScore(e) <= TemporalScore(d) <= 1.0
  {
  }

  /** A score of at least 0.3 pins the change to the 5850 seconds up to and including the onset. */
  lemma TemporalCutoff(delta: real)
    ensures TemporalScore(delta) >= 0.3 <==> 0.0 <= delta <= 5850.0
    ensures 0.0 <= TemporalScore(delta) <= 1.0
  {
  }

  /** The corners of the score: 1.0 at onset, 0.9 at five minutes, 0.6 at thirty, 0.2 at two hours, 0.1
      beyond; after onset 0.2 for a minute and then nothing. */
  lemma TemporalCorners(delta: real)
    ensures TemporalScore(0.0) == 1.0 && TemporalScore(300.0) == 0.9 && TemporalScore(1800.0) == 0.6 && TemporalScore(7200.0) == 0.2
    ensures delta > 7200.0 ==> TemporalScore(delta) == 0.1
    ensures -60.0 <= delta < 0.0 ==> TemporalScore(delta) == 0.2
    ensures delta < -60.0 ==> TemporalScore(delta) == 0.0
  {
  }

  /** No corner lies strictly between the two instants. */
  predicate SameStretch(d: real, e: real) {
    (0.0 <= d <= 300.0 && 0.0 <= e <= 300.0) || (300.0 <= d <= 1800.0 && 300.0 <= e <= 1800.0)
    || (1800.0 <= d <= 7200.0 && 1800.0 <= e <= 7200.0)
  }

  /** Between corners it is a straight line. */
  lemma TemporalStraight(d: real, e: real)
    requires SameStretch(d, e)
    ensures TemporalScore((d + e) / 2.0) == (TemporalScore(d) + TemporalScore(e)) / 2.0
  {
  }

  // ----- Symptom clusters -----

  datatype Cluster = Cluster(name: string, keywords: set<string>)

  predicate InEvidence(c: Cluster, e: Evidence) {
    exists k | k in c.keywords :: Contains(Lower(e.Text()), k)
  }

  /** One cluster names a symptom of the evidence and touches the change. */
  predicate SharesCluster(change: Change, e: Evidence, cs: seq<Cluster>) {
    exists i | 0 <= i < |cs| :: change.tokens * cs[i].keywords != {} && InEvidence(cs[i], e)
  }

  /** Sharing a cluster means: some cluster has a keyword among the change's words, and a keyword that occurs
      in the evidence's summary, kind or source, in any casing. */
  lemma SharesClusterIff(change: Change, e: Evidence, cs: seq<Cluster>)
    ensures SharesCluster(change, e, cs) <==>
            exists c, word, keyword ::
              && c in cs && word in change.tokens && word in c.keywords
              && keyword in c.keywords && Contains(Lower(e.summary + " " + e.kind + " " + e.source), keyword)
  {
    hide Contains, Lower;
    if SharesCluster(change, e, cs) {
      var i :| 0 <= i < |cs| && change.tokens * cs[i].keywords != {} && InEvidence(cs[i], e);
      var word :| word in change.tokens * cs[i].keywords;
      var keyword :| keyword in cs[i].keywords && Contains(Lower(e.Text()), keyword);
      assert cs[i] in cs;
    }
    if c, word, keyword :|
      && c in cs && word in change.tokens && word in c.keywords
      && keyword in c.keywords && Contains(Lower(e.summary + " " + e.kind + " " + e.source), keyword)
    {
      var i :| 0 <= i < |cs| && cs[i] == c;
      assert word in change.tokens * cs[i].keywords && Contains(Lower(e.Text()), keyword);
    }
  }

  /** The ids of matching evidence, first occurrence first. */
  function Links(change: Change, es: seq<Evidence>, cs: seq<Cluster>): seq<string> {
    if es == [] then []
    else
      var (before, e) := (Links(change, es[..|es| - 1], cs), es[|es| - 1]);
      if SharesCluster(change, e, cs) && e.id !in before then before + [e.id] else before
  }

  lemma {:induction false} LinksExact(change: Change, es: seq<Evidence>, cs: seq<Cluster>, id: string)
    ensures id in Links(change, es, cs) <==> exists e | e in es :: e.id == id && SharesCluster(change, e, cs)
  {
    if es == [] {
    } else {
      var (front, e) := (es[..|es| - 1], es[|es| - 1]);
      LinksExact(change, front, cs, id);
      LinksExact(change, front, cs, e.id);
      assert es == front + [e];
    }
  }

  /** No id is linked twice. */
  lemma {:induction false} LinksDistinct(change: Change, es: seq<Evidence>, cs: seq<Cluster>)
    ensures forall i, j | 0 <= i < j < |Links(change, es, cs)| :: Links(change, es, cs)[i] != Links(change, es, cs)[j]
  {
    if es == [] {
    } else {
      LinksDistinct(change, es[..|es| - 1], cs);
    }
  }

  /** `_assess_symptom_match`: the scan over evidence and clusters. */
  method AssessSymptomMatch(change: Change, es: seq<Evidence>, cs: seq<Cluster>)
    returns (symptomMatch: bool, links: seq<string>)
    ensures links == Links(change, es, cs)
    ensures symptomMatch <==> links != []
  {
    hide InEvidence;
    links := [];
    var matched: set<string> := {};
    for k := 0 to |es|
      invariant links == Links(change, es[..k], cs)
      invariant matched == {} <==> links == []
    {
      var e := es[k];
      ghost var before := links;
      for i := 0 to |cs|
        invariant links == if SharesCluster(change, e, cs[..i]) && e.id !in before then before + [e.id] else before
        invariant matched == {} <==> links == []
      {
        assert SharesCluster(change, e, cs[..i + 1])
          <==> SharesCluster(change, e, cs[..i]) || (change.tokens * cs[i].keywords != {} && InEvidence(cs[i], e)) by {
          SharesClusterAppend(change, e, cs, i);
        }
        if change.tokens * cs[i].keywords != {} && InEvidence(cs[i], e) {
          matched := matched + {cs[i].name};
          if e.id !in links {
            links := links + [e.id];
          }
        }
      }
      assert cs[..|cs|] == cs;
      assert es[..k + 1][..k] == es[..k];
    }
    assert es[..|es|] == es;
    symptomMatch := |matched| > 0;
  }

  lemma SharesClusterAppend(change: Change, e: Evidence, cs: seq<Cluster>, i: nat)
    requires i < |cs|
    ensures SharesCluster(change, e, cs[..i + 1])
       <==> SharesCluster(change, e, cs[..i]) || (change.tokens * cs[i].keywords != {} && InEvidence(cs[i], e))
  {
    assert cs[..i + 1] == cs[..i] + [cs[i]];
    if SharesCluster(change, e, cs[..i]) {
      var j :| 0 <= j < i && change.tokens * cs[..i][j].keywords != {} && InEvidence(cs[..i][j], e);
      assert cs[..i + 1][j] == cs[..i][j];
    }
    if change.tokens * cs[i].keywords != {} && InEvidence(cs[i], e) {
      assert cs[..i + 1][i] == cs[i];
    }
    if SharesCluster(change, e, cs[..i + 1]) {
      var j :| 0 <= j < i + 1 && change.tokens * cs[..i + 1][j].keywords != {} && InEvidence(cs[..i + 1][j], e);
      assert j < i ==> cs[..i][j] == cs[..i + 1][j];
    }
  }

  // ----- Correlation -----

  function BaseScore(temporal: real, symptomMatch: bool, linked: bool): real {
    0.35 * temporal + 0.45 * (if symptomMatch then 1.0 else 0.0) + 0.20 * (if linked then 1.0 else 0.0)
  }

  /** `correlate_change_with_incident`. */
  function Correlate(change: Change, service: string, onset: real, es: seq<Evidence>, threshold: real, cs: seq<Cluster>)
    : Correlation
  {
    var component := Lower(change.service) == Lower(service);
    var temporal := TemporalScore(onset - change.timestamp);
    var links := Links(change, es, cs);
    var symptom := links != [];
    var base := BaseScore(temporal, symptom, links != []);
    var relevance := if !component then 0.0 else if !symptom then (if base <= 0.35 then base else 0.35) else Round2(base);
    Correlation(change.id, Round2(temporal), component, symptom, links, relevance,
                component && symptom && relevance >= threshold && temporal >= 0.3)
  }

  /** Every stored score satisfies its field's [0, 1] range. */
  lemma ScoresInRange(change: Change, service: string, onset: real, es: seq<Evidence>, threshold: real, cs: seq<Cluster>)
    ensures var c := Correlate(change, service, onset, es, threshold, cs);
            0.0 <= c.temporalScore <= 1.0 && 0.0 <= c.relevance <= 1.0
  {
    var temporal := TemporalScore(onset - change.timestamp);
    TemporalCutoff(onset - change.timestamp);
    Round2Hundredths(0); Round2Hundredths(100);
    Round2Monotone(0.0, temporal); Round2Monotone(temporal, 1.0);
    var base := BaseScore(temporal, true, true);
    Round2Monotone(0.0, base); Round2Monotone(base, 1.0);
  }

  /** Inside the time window and with matching symptoms, the score clears every threshold up to 0.76
      and no higher one: at 5850 seconds it is exactly 0.76. */
  lemma ScoreNeverDecidesIff(threshold: real)
    ensures (forall d | 0.0 <= d <= 5850.0 :: Round2(BaseScore(TemporalScore(d), true, true)) >= threshold)
       <==> threshold <= 0.76
  {
    assert TemporalScore(5850.0) == 0.3;
    var least := BaseScore(0.3, true, true);
    assert 100.0 * least == 75.5 && (75.5).Floor == 75;
    assert Round2(least) == 0.76;
    forall d | 0.0 <= d <= 5850.0 ensures Round2(BaseScore(TemporalScore(d), true, true)) >= 0.76 {
      TemporalScoreDecays(d, 5850.0);
      Round2Monotone(least, BaseScore(TemporalScore(d), true, true));
    }
  }

  /** For thresholds up to 0.76 the score never decides: a change is a candidate exactly when its
      service matches, it shares a symptom cluster with some evidence, and it happened in the 5850
      seconds up to the onset. */
  lemma CandidateIff(change: Change, service: string, onset: real, es: seq<Evidence>, threshold: real, cs: seq<Cluster>)
    requires threshold <= 0.76
    ensures Correlate(change, service, onset, es, threshold, cs).isCandidate
       <==> && Lower(change.service) == Lower(service)
            && (exists e | e in es :: SharesCluster(change, e, cs))
            && 0.0 <= onset - change.timestamp <= 5850.0
  {
    var delta := onset - change.timestamp;
    TemporalCutoff(delta);
    ScoreNeverDecidesIff(threshold);
    if 0.0 <= delta <= 5850.0 {
      assert Round2(BaseScore(TemporalScore(delta), true, true)) >= threshold;
    }
    LinksNonEmptyIff(change, es, cs);
  }

  lemma LinksNonEmptyIff(change: Change, es: seq<Evidence>, cs: seq<Cluster>)
    ensures Links(change, es, cs) != [] <==> exists e | e in es :: SharesCluster(change, e, cs)
  {
    var links := Links(change, es, cs);
    if links != [] {
      LinksExact(change, es, cs, links[0]);
    }
    if e :| e in es && SharesCluster(change, e, cs) {
      LinksExact(change, es, cs, e.id);
    }
  }

  /** The correlation of a change in full, told from the evidence that shares a cluster with it. */
  lemma CorrelationIs(change: Change, service: string, onset: real, es: seq<Evidence>, threshold: real, cs: seq<Cluster>)
    ensures var c := Correlate(change, service, onset, es, threshold, cs);
            var temporal := TemporalScore(onset - change.timestamp);
            var shared := exists e | e in es :: SharesCluster(change, e, cs);
            && c.changeId == change.id && c.temporalScore == Round2(temporal)
            && (c.componentMatch <==> Lower(change.service) == Lower(service))
            && (c.symptomMatch <==> shared)
            && (forall id :: id in c.evidenceLinks <==> exists e | e in es :: e.id == id && SharesCluster(change, e, cs))
            && (!c.componentMatch ==> c.relevance == 0.0)
            && (c.componentMatch && !shared ==> c.relevance == 0.35 * temporal)
            && (c.componentMatch && shared ==> c.relevance == Round2(0.65 + 0.35 * temporal))
            && (c.isCandidate <==> c.componentMatch && shared && 0.0 <= onset - change.timestamp <= 5850.0
                                   && Round2(0.65 + 0.35 * temporal) >= threshold)
  {
    hide TemporalScore, SharesCluster, Links, Round2;
    TemporalCutoff(onset - change.timestamp);
    LinksNonEmptyIff(change, es, cs);
    forall id ensures id in Links(change, es, cs) <==> exists e | e in es :: e.id == id && SharesCluster(change, e, cs) {
      LinksExact(change, es, cs, id);
    }
  }

  /** `correlate_evidence_node`'s loop: one correlation per change, and the candidate changes. */
  function CorrelateAll(changes: seq<Change>, service: string, onset: real, es: seq<Evidence>, threshold: real, cs: seq<Cluster>)
    : (r: seq<Correlation>)
    ensures |r| == |changes|
  {
    seq(|changes|, i requires 0 <= i < |changes| => Correlate(changes[i], service, onset, es, threshold, cs))
  }

  function CandidateChanges(changes: seq<Change>, correlations: seq<Correlation>): (r: seq<Change>)
    requires |changes| == |correlations|
    ensures forall c | c in r :: c in changes
  {
    if changes == [] then []
    else
      var n := |changes| - 1;
      CandidateChanges(changes[..n], correlations[..n]) + (if correlations[n].isCandidate then [changes[n]] else [])
  }

  /** The candidate changes are the changes whose correlation says so, in order. */
  lemma {:induction false} CandidateChangesConcat(cs: seq<Change>, ks: seq<Correlation>, ds: seq<Change>, ls: seq<Correlation>)
    requires |cs| == |ks| && |ds| == |ls|
    ensures CandidateChanges(cs + ds, ks + ls) == CandidateChanges(cs, ks) + CandidateChanges(ds, ls)
  {
    if ds == [] {
      assert cs + ds == cs && ks + ls == ks;
    } else {
      var n := |ds| - 1;
      CandidateChangesConcat(cs, ks, ds[..n], ls[..n]);
      var (all, marks) := (cs + ds, ks + ls);
      assert all[..|all| - 1] == cs + ds[..n] && marks[..|all| - 1] == ks + ls[..n];
    }
  }

  lemma CandidateChangesOfOne(c: Change, k: Correlation)
    ensures CandidateChanges([c], [k]) == if k.isCandidate then [c] else []
  {
  }

  method CorrelateEvidence(changes: seq<Change>, service: string, onset: real, es: seq<Evidence>, threshold: real, cs: seq<Cluster>)
    returns (correlations: seq<Correlation>, candidates: seq<Change>)
    ensures correlations == CorrelateAll(changes, service, onset, es, threshold, cs)
    ensures candidates == CandidateChanges(changes, correlations)
  {
    hide Correlate;
    correlations, candidates := [], [];
    for k := 0 to |changes|
      invariant correlations == CorrelateAll(changes, service, onset, es, threshold, cs)[..k]
      invariant candidates == CandidateChanges(changes[..k], correlations)
    {
      var corr := Correlate(changes[k], service, onset, es, threshold, cs);
      ghost var before := correlations;
      correlations := correlations + [corr];
      assert changes[..k + 1][..k] == changes[..k] && correlations[..k] == before;
      if corr.isCandidate {
        candidates := candidates + [changes[k]];
      }
    }
    assert changes[..|changes|] == changes;
  }

  // ----- The promotion gate -----

  /** `verify_causal_change_association`. */
  predicate Gate(h: Hypothesis, change: Change, correlation: Option<Correlation>, currentIds: set<string>, threshold: real) {
    if change.id == "" then false
    else if correlation.None? then false
    else
      var c := correlation.value;
      if c.changeId != change.id then false
      else if !c.isCandidate then false
      else if !c.componentMatch then false
      else if Lower(change.service) != Lower(h.component) then false
      else if !c.symptomMatch then false
      else if c.relevance < threshold then false
      else if c.evidenceLinks == [] then false
      else if forall i | 0 <= i < |c.evidenceLinks| :: c.evidenceLinks[i] !in currentIds then false
      else if c.temporalScore < 0.30 then false
      else change.id in h.related
  }

  /** The ten requirements, each of them needed, on any correlation whatever. */
  lemma GateRequirements(h: Hypothesis, change: Change, correlation: Option<Correlation>, currentIds: set<string>, threshold: real)
    ensures Gate(h, change, correlation, currentIds, threshold) <==>
            && change.id != "" && correlation.Some? && correlation.value.changeId == change.id
            && correlation.value.isCandidate && correlation.value.componentMatch
            && Lower(change.service) == Lower(h.component)
            && correlation.value.symptomMatch && correlation.value.relevance >= threshold
            && (exists id | id in correlation.value.evidenceLinks :: id in currentIds)
            && correlation.value.temporalScore >= 0.30 && change.id in h.related
  {
    hide Lower;
  }

  /** On a correlation computed in the same run, with evidence only appended since, the ten tests
      collapse to three: the candidate flag, the hypothesis naming the change, and the change's service
      being the hypothesis's component. */
  lemma GateIff(h: Hypothesis, change: Change, service: string, onset: real, es: seq<Evidence>, later: seq<Evidence>,
                threshold: real, cs: seq<Cluster>)
    requires es <= later && change.id != ""
    ensures var c := Correlate(change, service, onset, es, threshold, cs);
            (Gate(h, change, Some(c), EvidenceIds(later), threshold)
             <==> c.isCandidate && change.id in h.related && Lower(change.service) == Lower(h.component))
  {
    var c := Correlate(change, service, onset, es, threshold, cs);
    if c.isCandidate {
      var id := c.evidenceLinks[0];
      LinksExact(change, es, cs, id);
      var e :| e in es && e.id == id && SharesCluster(change, e, cs);
      var i :| 0 <= i < |es| && es[i] == e;
      assert later[i] == e;
      Round2Hundredths(30);
      Round2Monotone(0.3, TemporalScore(onset - change.timestamp));
    }
  }

  /** What a promoted change is known to be, whatever the language model claimed. */
  ghost predicate GenuineCause(change: Change, service: string, component: string, onset: real, es: seq<Evidence>, cs: seq<Cluster>) {
    && Lower(change.service) == Lower(service)
    && Lower(change.service) == Lower(component)
    && 0.0 <= onset - change.timestamp <= 5850.0
    && (exists e | e in es :: SharesCluster(change, e, cs))
  }

  /** The gate end to end, at every threshold. */
  lemma GateImpliesGenuine(h: Hypothesis, change: Change, service: string, onset: real, es: seq<Evidence>, later: seq<Evidence>,
                           threshold: real, cs: seq<Cluster>)
    requires es <= later
    requires Gate(h, change, Some(Correlate(change, service, onset, es, threshold, cs)), EvidenceIds(later), threshold)
    ensures GenuineCause(change, service, h.component, onset, later, cs)
  {
    TemporalCutoff(onset - change.timestamp);
    LinksNonEmptyIff(change, es, cs);
    var e :| e in es && SharesCluster(change, e, cs);
    var i :| 0 <= i < |es| && es[i] == e;
    assert later[i] == e;
  }
}
