/** Hypothesis generation: the trust boundary that filters the language model's references, and the
    deterministic fallback. */
module Hypotheses {
  import opened Wrappers
  import opened Domain
  import opened Lists
  import opened Text

  /** A hypothesis as the language model returned it; every id in it is untrusted. */
  datatype Suggestion = Suggestion(
    title: string,
    description: string,
    component: string,
    confidence: real,
    supporting: seq<string>,
    refuting: seq<string>,
    historical: seq<string>,
    related: seq<string>)

  /** Every reference resolves: evidence to current evidence, changes to recent changes, historical
      ids to retrieved incidents. */
  ghost predicate Grounded(h: Hypothesis, evidence: set<string>, changes: set<string>, history: set<string>) {
    && Within(h.supporting, evidence)
    && Within(h.refuting, evidence)
    && Within(h.related, changes)
    && Within(h.historical, history)
  }

  function Keep(ids: seq<string>, known: set<string>): (r: seq<string>)
    ensures Within(r, known) && Within(r, set id | id in ids)
    ensures forall id | id in ids && id in known :: id in r
  {
    var p := (id: string) => id in known;
    var r := Filter(ids, p);
    assert forall id :: id in r <==> id in ids && id in known by {
      forall id ensures id in r <==> id in ids && id in known { FilterMember(ids, p, id); }
    }
    r
  }

  /** Ids the model filed as evidence but that name a past incident or a change move to their own lists. */
  function Migrate(ids: seq<string>, historical: seq<string>, related: seq<string>, history: set<string>, changes: set<string>)
    : (r: (seq<string>, seq<string>))
    ensures Within(historical, history) ==> Within(r.0, history)
    ensures Within(related, changes) ==> Within(r.1, changes)
  {
    if ids == [] then (historical, related)
    else
      var (h, c) := Migrate(ids[..|ids| - 1], historical, related, history, changes);
      var id := ids[|ids| - 1];
      if id in history && id !in h then (h + [id], c)
      else if id in changes && id !in c then (h, c + [id])
      else (h, c)
  }

  function Sanitize(s: Suggestion, id: string, evidence: set<string>, changes: set<string>, history: set<string>): (h: Hypothesis)
    ensures Grounded(h, evidence, changes, history)
  {
    var moved := Migrate(s.supporting, Keep(s.historical, history), Keep(s.related, changes), history, changes);
    Hypothesis(id, s.title, s.description, s.component, s.confidence, Proposed,
               Keep(s.supporting, evidence), Keep(s.refuting, evidence), moved.0, moved.1)
  }

  /** The migration loses nothing: every suggested supporting id that is known anywhere ends up in the
      list it belongs to, and a change or incident id never counts as evidence. */
  lemma MigrationComplete(s: Suggestion, id: string, evidence: set<string>, changes: set<string>, history: set<string>, ref: string)
    requires ref in s.supporting
    ensures var h := Sanitize(s, id, evidence, changes, history);
            && (ref in h.supporting <==> ref in evidence)
            && (ref in history ==> ref in h.historical)
            && (ref in changes && ref !in history ==> ref in h.related)
  {
    MigrateCollects(s.supporting, Keep(s.historical, history), Keep(s.related, changes), history, changes, ref);
  }

  lemma {:induction false} MigrateCollects(ids: seq<string>, historical: seq<string>, related: seq<string>,
                                           history: set<string>, changes: set<string>, ref: string)
    ensures var r := Migrate(ids, historical, related, history, changes);
            && (ref in ids && ref in history ==> ref in r.0)
            && (ref in ids && ref in changes && ref !in history ==> ref in r.1)
            && (ref in historical ==> ref in r.0)
            && (ref in related ==> ref in r.1)
  {
    if ids == [] {
    } else {
      MigrateCollects(ids[..|ids| - 1], historical, related, history, changes, ref);
      assert ids == ids[..|ids| - 1] + [ids[|ids| - 1]];
    }
  }

  /** What migrates where, exactly.  A known incident id goes to the incidents unless it is there already;
      a known change id goes to the changes when it is no incident, or its incident was listed before. */
  lemma {:induction false} MigrateIff(ids: seq<string>, historical: seq<string>, related: seq<string>,
                                      history: set<string>, changes: set<string>, ref: string)
    ensures var r := Migrate(ids, historical, related, history, changes);
            && (ref in r.0 <==> ref in historical || (ref in ids && ref in history))
            && (ref in r.1 <==> ref in related || (ref in changes && multiset(ids)[ref] >=
                                  (if ref in history && ref !in historical then 2 else 1)))
  {
    if ids == [] {
    } else {
      var front := ids[..|ids| - 1];
      assert ids == front + [ids[|ids| - 1]];
      MigrateIff(front, historical, related, history, changes, ref);
      assert ref in front <==> multiset(front)[ref] > 0;
    }
  }

  /** The built hypothesis in full: the model's own words and score, its references cut down to what exists,
      and the migrated ids. */
  lemma SanitizeIs(s: Suggestion, id: string, evidence: set<string>, changes: set<string>, history: set<string>, ref: string)
    ensures var h := Sanitize(s, id, evidence, changes, history);
            && h.id == id && h.title == s.title && h.description == s.description && h.component == s.component
            && h.confidence == s.confidence && h.status == Proposed
            && (ref in h.supporting <==> ref in s.supporting && ref in evidence)
            && (ref in h.refuting <==> ref in s.refuting && ref in evidence)
            && (ref in h.historical <==> ref in history && (ref in s.historical || ref in s.supporting))
            && (ref !in history ==> (ref in h.related <==> ref in changes && (ref in s.related || ref in s.supporting)))
            && (ref in history ==>
                  (ref in h.related <==> ref in changes && (ref in s.related || multiset(s.supporting)[ref] >= 2
                                                            || (ref in s.supporting && ref in s.historical))))
  {
    MigrateIff(s.supporting, Keep(s.historical, history), Keep(s.related, changes), history, changes, ref);
    assert ref in s.supporting <==> multiset(s.supporting)[ref] >= 1;
  }

  // ----- Fallback -----

  const POOL_KEYWORDS: seq<string> := ["pool", "db_pool", "connection", "exhausted"]
  const ERROR_KEYWORDS: seq<string> := ["500", "502", "503", "5xx", "error", "server error", "exception", "failed"]

  predicate Mentions(e: Evidence, keywords: seq<string>) {
    exists i | 0 <= i < |keywords| :: Contains(Lower(e.summary), keywords[i])
  }

  function Mentioning(es: seq<Evidence>, keywords: seq<string>): (ids: seq<string>)
    ensures Within(ids, EvidenceIds(es))
    ensures forall e | e in es && Mentions(e, keywords) :: e.id in ids
    ensures forall id | id in ids :: exists e | e in es :: e.id == id && Mentions(e, keywords)
  {
    if es == [] then []
    else
      assert es == [es[0]] + es[1..];
      (if Mentions(es[0], keywords) then [es[0].id] else []) + Mentioning(es[1..], keywords)
  }

  const POOL_TITLE := "Database Connection Pool Exhaustion"
  const POOL_DESCRIPTION := "Service connection pool reached max capacity leading to queue timeouts and 500 errors."
  const ERROR_TITLE := "Elevated Application Error Rate"
  const ERROR_DESCRIPTION := "Incoming requests to service are encountering 5xx server exceptions."

  function Fallback(service: string, id: string, es: seq<Evidence>, candidates: seq<Change>, similar: seq<string>): (h: Hypothesis)
    ensures Grounded(h, EvidenceIds(es), ChangeIds(candidates), set s | s in similar)
  {
    var history := if similar != [] then [similar[0]] else [];
    var related := if candidates != [] then [candidates[0].id] else [];
    var pool := Mentioning(es, POOL_KEYWORDS);
    if pool != [] then
      var trigger := if candidates != [] then " Triggered by " + candidates[0].title + " (" + candidates[0].id + ")." else "";
      Hypothesis(id, POOL_TITLE, POOL_DESCRIPTION + trigger, service, if candidates != [] then 0.90 else 0.85, Proposed,
                 pool, [], history, related)
    else
      Hypothesis(id, ERROR_TITLE, ERROR_DESCRIPTION, service, 0.75, Proposed,
                 Mentioning(es, ERROR_KEYWORDS), [], history, related)
  }

  /** The keywords, by name. */
  lemma MentionsIff(e: Evidence)
    ensures var t := Lower(e.summary);
            && (Mentions(e, POOL_KEYWORDS) <==> Contains(t, "pool") || Contains(t, "connection") || Contains(t, "exhausted"))
            && (Mentions(e, ERROR_KEYWORDS) <==>
                  || Contains(t, "500") || Contains(t, "502") || Contains(t, "503") || Contains(t, "5xx")
                  || Contains(t, "error") || Contains(t, "exception") || Contains(t, "failed"))
  {
    var (t, p, q) := (Lower(e.summary), POOL_KEYWORDS, ERROR_KEYWORDS);
    LongerWord(t, "db_", "pool", "");
    LongerWord(t, "server ", "error", "");
    hide Contains, Lower;
    assert p[0] == "pool" && p[1] == "db_pool" && p[2] == "connection" && p[3] == "exhausted" && |p| == 4;
    assert q[0] == "500" && q[1] == "502" && q[2] == "503" && q[3] == "5xx" && q[4] == "error" && q[5] == "server error";
    assert q[6] == "exception" && q[7] == "failed" && |q| == 8;
    assert "db_" + "pool" + "" == "db_pool" && "server " + "error" + "" == "server error";
  }

  /** A text that contains a longer word contains its middle. */
  lemma LongerWord(t: string, before: string, word: string, after: string)
    ensures Contains(t, before + word + after) ==> Contains(t, word)
  {
    var long := before + word + after;
    if Contains(t, long) {
      var i :| 0 <= i <= |t| && long <= t[i..];
      var n := i + |before|;
      assert t[i..][|before|..] == t[n..];
      assert t[n..][..|word|] == word;
      assert word <= t[n..];
    }
  }

  /** The heuristic in full: a pool hypothesis as soon as some summary mentions the pool, at 0.90 with a
      candidate change and 0.85 without, and otherwise an error-rate hypothesis at 0.75; supported by the
      evidence that mentions it, blaming the first candidate, recalling the first similar incident. */
  lemma FallbackIs(service: string, id: string, es: seq<Evidence>, candidates: seq<Change>, similar: seq<string>, ref: string)
    ensures var h := Fallback(service, id, es, candidates, similar);
            var pool := exists e | e in es :: Mentions(e, POOL_KEYWORDS);
            && h.id == id && h.component == service && h.status == Proposed && h.refuting == []
            && h.title == (if pool then "Database Connection Pool Exhaustion" else "Elevated Application Error Rate")
            && h.confidence == (if pool then (if candidates == [] then 0.85 else 0.90) else 0.75)
            && (ref in h.supporting <==> exists e | e in es :: e.id == ref && Mentions(e, if pool then POOL_KEYWORDS else ERROR_KEYWORDS))
            && h.related == (if candidates == [] then [] else [candidates[0].id])
            && h.historical == (if similar == [] then [] else [similar[0]])
  {
    hide Mentions;
    var ids := Mentioning(es, POOL_KEYWORDS);
    if ids != [] {
      assert ids[0] in ids;
    }
  }

  function SanitizeAll(ss: seq<Suggestion>, ids: nat -> string, evidence: set<string>, changes: set<string>, history: set<string>)
    : (hs: seq<Hypothesis>)
    ensures |hs| == |ss|
    ensures forall h | h in hs :: Grounded(h, evidence, changes, history)
  {
    var hs := seq(|ss|, i requires 0 <= i < |ss| => Sanitize(ss[i], ids(i), evidence, changes, history));
    assert forall i | 0 <= i < |ss| ::
        hs[i] == Sanitize(ss[i], ids(i), evidence, changes, history) && Grounded(hs[i], evidence, changes, history);
    hs
  }

  /** The node's result.  `response` is None when the model failed or returned garbage. */
  function Generate(response: Option<seq<Suggestion>>, ids: nat -> string, service: string, es: seq<Evidence>,
                    changes: seq<Change>, candidates: seq<Change>, similar: seq<string>): (hs: seq<Hypothesis>)
    ensures hs != []
    ensures (forall c | c in candidates :: c in changes) ==>
              forall h | h in hs :: Grounded(h, EvidenceIds(es), ChangeIds(changes), set s | s in similar)
  {
    if response.Some? && response.value != [] then
      SanitizeAll(response.value, ids, EvidenceIds(es), ChangeIds(changes), set s | s in similar)
    else [Fallback(service, ids(0), es, candidates, similar)]
  }

  /** A usable answer gives one hypothesis per suggestion, in order; no answer, or an empty one, gives the
      heuristic's alone. */
  lemma GenerateIs(response: Option<seq<Suggestion>>, ids: nat -> string, service: string, es: seq<Evidence>,
                   changes: seq<Change>, candidates: seq<Change>, similar: seq<string>, i: nat)
    ensures var hs := Generate(response, ids, service, es, changes, candidates, similar);
            if response.Some? && response.value != []
            then |hs| == |response.value|
                 && (i < |hs| ==> hs[i] == Sanitize(response.value[i], ids(i), EvidenceIds(es), ChangeIds(changes), set s | s in similar))
            else hs == [Fallback(service, ids(0), es, candidates, similar)]
  {
    hide Sanitize, Fallback;
  }

  /** `generate_hypotheses_node`: the filtering loops over the model's answer, then the fallback. */
  method GenerateHypotheses(response: Option<seq<Suggestion>>, ids: nat -> string, service: string, es: seq<Evidence>,
                            changes: seq<Change>, candidates: seq<Change>, similar: seq<string>)
    returns (hypotheses: seq<Hypothesis>)
    ensures hypotheses == Generate(response, ids, service, es, changes, candidates, similar)
  {
    hypotheses := [];
    if response.Some? {
      var ss := response.value;
      var (known, recent, past) := (EvidenceIds(es), ChangeIds(changes), set s | s in similar);
      for k := 0 to |ss|
        invariant hypotheses == SanitizeAll(ss, ids, known, recent, past)[..k]
      {
        var s := ss[k];
        var historical, related := Keep(s.historical, past), Keep(s.related, recent);
        for m := 0 to |s.supporting|
          invariant (historical, related) ==
                    Migrate(s.supporting[..m], Keep(s.historical, past), Keep(s.related, recent), past, recent)
        {
          var ref := s.supporting[m];
          assert s.supporting[..m + 1][..m] == s.supporting[..m];
          if ref in past && ref !in historical {
            historical := historical + [ref];
          } else if ref in recent && ref !in related {
            related := related + [ref];
          }
        }
        assert s.supporting[..|s.supporting|] == s.supporting;
        hypotheses := hypotheses + [
          Hypothesis(ids(k), s.title, s.description, s.component, s.confidence, Proposed,
                     Keep(s.supporting, known), Keep(s.refuting, known), historical, related)];
      }
    }
    if hypotheses == [] {
      hypotheses := [Fallback(service, ids(0), es, candidates, similar)];
    }
  }
}
