/** What the approval node makes of the value the paused thread is resumed with. */
module Approval {
  import opened Wrappers
  import opened Graph
  import opened Text

  /** A mapping with or without a `decision` entry, a text, or anything else. */
  datatype ResumeValue = Mapping(decision: Option<string>) | Words(text: string) | Other

  function Word(d: Decision): string {
    match d
    case Approve => "approve"
    case Reject => "reject"
    case Cancel => "cancel"
  }

  /** Looking up the enumeration by its case-folded value. */
  function Named(text: string): Option<Decision> {
    if Lower(text) == Word(Approve) then Some(Approve)
    else if Lower(text) == Word(Decision.Reject) then Some(Decision.Reject)
    else if Lower(text) == Word(Cancel) then Some(Cancel)
    else None
  }

  function ParseDecision(v: ResumeValue): Decision {
    match v
    case Mapping(Some(text)) => if Named(text).Some? then Named(text).value else Decision.Reject
    case Words(text) => if Named(text).Some? then Named(text).value else Decision.Reject
    case _ => Decision.Reject
  }

  /** The text a resume value carries, if it is of a recognised shape. */
  function Carried(v: ResumeValue): Option<string> {
    match v
    case Mapping(decision) => decision
    case Words(text) => Some(text)
    case Other => None
  }

  /** A word, in any casing. */
  predicate Spells(text: string, word: string) {
    |text| == |word| && forall i | 0 <= i < |text| :: LowerChar(text[i]) == word[i]
  }

  /** Only the word itself approves or cancels, in either shape and any casing; everything else rejects. */
  lemma ParsesIff(v: ResumeValue)
    ensures ParseDecision(v) == Approve <==> Carried(v).Some? && Spells(Carried(v).value, "approve")
    ensures ParseDecision(v) == Cancel <==> Carried(v).Some? && Spells(Carried(v).value, "cancel")
  {
    if Carried(v).Some? {
      SpellsLower(Carried(v).value, "approve");
      SpellsLower(Carried(v).value, "cancel");
    }
  }

  lemma SpellsLower(text: string, word: string)
    ensures Spells(text, word) <==> Lower(text) == word
  {
    if Spells(text, word) {
      assert Lower(text) == word;
    }
    if Lower(text) == word {
      assert forall i | 0 <= i < |text| :: LowerChar(text[i]) == Lower(text)[i];
    }
  }

  /** The mapping the service resumes the thread with is read back as the decision it was made from. */
  lemma DecisionRoundTrip(d: Decision, text: string)
    requires Spells(text, Word(d))
    ensures ParseDecision(Mapping(Some(text))) == d
  {
    SpellsLower(text, Word(d));
  }
}
