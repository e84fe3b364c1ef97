/** The investigation's shared records. */
module Domain {
  import opened Wrappers

  datatype Evidence = Evidence(id: string, summary: string, kind: string, source: string) {
    /** Everything the correlation reads. */
    function Text(): string {
      summary + " " + kind + " " + source
    }
  }

  /** `tokens` are the words drawn from a change's title, description, config keys and files. */
  datatype Change = Change(id: string, title: string, service: string, timestamp: real, tokens: set<string>)

  datatype Correlation = Correlation(
    changeId: string,
    temporalScore: real,
    componentMatch: bool,
    symptomMatch: bool,
    evidenceLinks: seq<string>,
    relevance: real,
    isCandidate: bool)

  datatype HypothesisStatus = Proposed | Testing | Verified | Refuted | Inconclusive

  datatype Hypothesis = Hypothesis(
    id: string,
    title: string,
    description: string,
    component: string,
    confidence: real,
    status: HypothesisStatus,
    supporting: seq<string>,
    refuting: seq<string>,
    historical: seq<string>,
    related: seq<string>)

  /** `text` is the summary and category the policy ranking reads. */
  datatype RootCause = RootCause(
    hypothesisId: string,
    text: string,
    supporting: seq<string>,
    causalChangeIds: seq<string>,
    confidence: real)

  function EvidenceIds(es: seq<Evidence>): set<string> {
    set e | e in es :: e.id
  }

  function ChangeIds(cs: seq<Change>): set<string> {
    set c | c in cs :: c.id
  }

  ghost predicate Within(ids: seq<string>, known: set<string>) {
    forall id | id in ids :: id in known
  }
}
