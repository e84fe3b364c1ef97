/** Alert deduplication: firing and resolved webhooks against the incidents they open and clear. */
module Alerts {
  import opened Wrappers
  import Investigation

  type Status = Investigation.IncidentStatus

  /** What the lookups read of an incident; `firing` is `alert_status == "firing"`. */
  datatype Entry = Entry(fingerprint: string, status: Status, firing: bool)

  /** Incidents in order of creation, and the incidents a job was written for. */
  datatype Board = Board(entries: seq<Entry>, jobs: seq<nat>)

  predicate Active(status: Status) {
    !status.Resolved? && !status.FailedIncident?
  }

  /** The WHERE clause of the two lookups. */
  predicate Matches(e: Entry, fingerprint: string, firingOnly: bool) {
    e.fingerprint == fingerprint && Active(e.status) && (firingOnly ==> e.firing)
  }

  /** The newest match. */
  function Newest(es: seq<Entry>, fingerprint: string, firingOnly: bool): (k: Option<nat>)
    ensures k.None? <==> forall i | 0 <= i < |es| :: !Matches(es[i], fingerprint, firingOnly)
    ensures k.Some? ==>
              && k.value < |es| && Matches(es[k.value], fingerprint, firingOnly)
              && forall i | k.value < i < |es| :: !Matches(es[i], fingerprint, firingOnly)
  {
    if es == [] then None
    else
      var n := |es| - 1;
      if Matches(es[n], fingerprint, firingOnly) then Some(n) else Newest(es[..n], fingerprint, firingOnly)
  }

  /** Webhooks, and the status writes the rest of the system makes. */
  datatype Event =
    | Firing(fingerprint: string, autoInvestigate: bool)
    | Cleared(fingerprint: string)
    | Move(incident: nat, status: Status)

  predicate CanStep(b: Board, e: Event) {
    e.Move? ==> e.incident < |b.entries|
  }

  function OnFiring(b: Board, fingerprint: string, autoInvestigate: bool): Board {
    var k := Newest(b.entries, fingerprint, true);
    if k.Some? then b.(entries := b.entries[k.value := b.entries[k.value].(firing := true)])
    else Board(b.entries + [Entry(fingerprint, Investigation.Detected, true)],
               b.jobs + if autoInvestigate then [|b.entries|] else [])
  }

  function OnCleared(b: Board, fingerprint: string): Board {
    var k := Newest(b.entries, fingerprint, false);
    if k.Some? then b.(entries := b.entries[k.value := b.entries[k.value].(firing := false)])
    else b.(entries := b.entries + [Entry(fingerprint, Investigation.Resolved, false)])
  }

  function Step(b: Board, e: Event): Board
    requires CanStep(b, e)
  {
    match e
    case Firing(fp, auto) => OnFiring(b, fp, auto)
    case Cleared(fp) => OnCleared(b, fp)
    case Move(k, status) => b.(entries := b.entries[k := b.entries[k].(status := status)])
  }

  /** The write takes no incident out of a terminal status. */
  predicate Gentle(b: Board, e: Event)
    requires CanStep(b, e)
  {
    e.Move? && Active(e.status) ==> Active(b.entries[e.incident].status)
  }

  predicate CanRun(b: Board, es: seq<Event>)
    decreases |es|
  {
    es == [] || (CanStep(b, es[0]) && Gentle(b, es[0]) && CanRun(Step(b, es[0]), es[1..]))
  }

  function Run(b: Board, es: seq<Event>): Board
    requires CanRun(b, es)
    decreases |es|
  {
    if es == [] then b else Run(Step(b, es[0]), es[1..])
  }

  // ----- The invariant -----

  /** An active incident whose alert still fires has no younger active sibling. */
  ghost predicate Inv(b: Board) {
    forall i, j | 0 <= i < j < |b.entries| && b.entries[i].fingerprint == b.entries[j].fingerprint ::
      Active(b.entries[i].status) && Active(b.entries[j].status) ==> !b.entries[i].firing
  }

  lemma StepKeepsInv(b: Board, e: Event)
    requires Inv(b) && CanStep(b, e) && Gentle(b, e)
    ensures Inv(Step(b, e))
  {
  }

  /** Over every run of webhooks and status writes that revive nothing. */
  lemma {:induction false} RunKeepsInv(b: Board, es: seq<Event>)
    requires Inv(b) && CanRun(b, es)
    ensures Inv(Run(b, es))
    decreases |es|
  {
    if es == [] {
    } else {
      StepKeepsInv(b, es[0]);
      RunKeepsInv(Step(b, es[0]), es[1..]);
    }
  }

  const EMPTY := Board([], [])

  /** So it holds of every board the system can reach. */
  lemma ReachableBoardsInv(es: seq<Event>)
    requires CanRun(EMPTY, es)
    ensures Inv(Run(EMPTY, es))
  {
    RunKeepsInv(EMPTY, es);
  }

  /** Some active incident with this fingerprint still fires. */
  ghost predicate Alarming(b: Board, fingerprint: string) {
    exists i | 0 <= i < |b.entries| :: Matches(b.entries[i], fingerprint, true)
  }

  /** A firing incident is the only one of its fingerprint, and both lookups find it. */
  lemma FiringIsUniqueAndNewest(b: Board, k: nat)
    requires Inv(b) && k < |b.entries| && Active(b.entries[k].status) && b.entries[k].firing
    ensures forall i | 0 <= i < |b.entries| && Matches(b.entries[i], b.entries[k].fingerprint, true) :: i == k
    ensures Newest(b.entries, b.entries[k].fingerprint, true) == Some(k)
    ensures Newest(b.entries, b.entries[k].fingerprint, false) == Some(k)
  {
    var fp := b.entries[k].fingerprint;
    assert Matches(b.entries[k], fp, true) && Matches(b.entries[k], fp, false);
  }

  /** The whole board behaves as one on/off alarm per fingerprint: firing sets it, clearing resets it,
      and closing the incident that carries it resets it too. */
  lemma BoardIsAlarm(b: Board, e: Event, fingerprint: string)
    requires Inv(b) && CanStep(b, e) && Gentle(b, e)
    ensures Alarming(Step(b, e), fingerprint) <==>
            match e
            case Firing(fp, _) => fp == fingerprint || Alarming(b, fingerprint)
            case Cleared(fp) => fp != fingerprint && Alarming(b, fingerprint)
            case Move(k, status) =>
              Alarming(b, fingerprint) && !(Matches(b.entries[k], fingerprint, true) && !Active(status))
  {
    hide Inv, Newest;
    var b' := Step(b, e);
    if Alarming(b, fingerprint) {
      var i :| 0 <= i < |b.entries| && Matches(b.entries[i], fingerprint, true);
      FiringIsUniqueAndNewest(b, i);
      assert b.entries[i].fingerprint == b'.entries[i].fingerprint;
      assert b'.entries[i] == b.entries[i] ==> Matches(b'.entries[i], fingerprint, true);
    }
    if e.Firing? && e.fingerprint == fingerprint {
      var k := Newest(b.entries, fingerprint, true);
      assert Matches(b'.entries[if k.Some? then k.value else |b.entries|], fingerprint, true);
    }
    if Alarming(b', fingerprint) {
      var i :| 0 <= i < |b'.entries| && Matches(b'.entries[i], fingerprint, true);
      assert i < |b.entries| && b.entries[i] == b'.entries[i] ==> Matches(b.entries[i], fingerprint, true);
    }
  }

  // ----- Jobs -----

  /** The incident a firing webhook opens, if it opens one. */
  function Opened(b: Board, e: Event): seq<nat> {
    if e.Firing? && Newest(b.entries, e.fingerprint, true).None? then [|b.entries|] else []
  }

  function AllOpened(b: Board, es: seq<Event>): seq<nat>
    requires CanRun(b, es)
    decreases |es|
  {
    if es == [] then [] else Opened(b, es[0]) + AllOpened(Step(b, es[0]), es[1..])
  }

  lemma {:induction false} RunGrows(b: Board, es: seq<Event>)
    requires CanRun(b, es)
    ensures |b.entries| <= |Run(b, es).entries|
    decreases |es|
  {
    if es == [] {
    } else {
      RunGrows(Step(b, es[0]), es[1..]);
    }
  }

  /** A job is written exactly with an incident a firing webhook opens, and only when it asks for one. */
  lemma StepJobs(b: Board, e: Event)
    requires CanStep(b, e)
    ensures Step(b, e).jobs == b.jobs + (if e.Firing? && e.autoInvestigate then Opened(b, e) else [])
    ensures |Step(b, e).entries| >= |b.entries| + |Opened(b, e)|
    ensures Opened(b, e) == [] || (e.Firing? && Opened(b, e) == [|b.entries|])
  {
  }

  /** What a webhook does to the incidents themselves: a firing one opens at most one, DETECTED and firing; a
      resolved one changes no status and opens no active incident, only, when nothing matches, a RESOLVED
      record. */
  lemma WebhookOpens(b: Board, fingerprint: string, auto: bool)
    ensures var es := OnFiring(b, fingerprint, auto).entries;
            es == b.entries || es == b.entries + [Entry(fingerprint, Investigation.Detected, true)]
    ensures var es := OnCleared(b, fingerprint).entries;
            && |b.entries| <= |es| <= |b.entries| + 1
            && (forall i | 0 <= i < |b.entries| :: es[i].status == b.entries[i].status && es[i].fingerprint == b.entries[i].fingerprint
                                                   && (es[i].firing == b.entries[i].firing || (Matches(b.entries[i], fingerprint, true) && !es[i].firing)))
            && (|es| > |b.entries| <==> forall i | 0 <= i < |b.entries| :: !Matches(b.entries[i], fingerprint, false))
            && (|es| > |b.entries| ==> es[|b.entries|] == Entry(fingerprint, Investigation.Resolved, false))
  {
    var k := Newest(b.entries, fingerprint, true);
    if k.Some? {
      assert b.entries[k.value := b.entries[k.value].(firing := true)] == b.entries;
    }
  }

  ghost predicate IncreasingWithin(s: seq<nat>, low: nat, high: nat) {
    && (forall k | 0 <= k < |s| :: low <= s[k] < high)
    && (forall i, j | 0 <= i < j < |s| :: s[i] < s[j])
  }

  /** With auto-investigation on, the jobs written over a run are exactly one for each incident a firing
      webhook opened, in that order. */
  lemma {:induction false} OneJobPerOpenedIncident(b: Board, es: seq<Event>)
    requires CanRun(b, es) && forall e | e in es && e.Firing? :: e.autoInvestigate
    ensures Run(b, es).jobs == b.jobs + AllOpened(b, es)
    ensures IncreasingWithin(AllOpened(b, es), |b.entries|, |Run(b, es).entries|)
    decreases |es|
  {
    hide Step, Opened, CanStep, Gentle;
    if es == [] {
    } else {
      assert es[0] in es;
      StepJobs(b, es[0]);
      OneJobPerOpenedIncident(Step(b, es[0]), es[1..]);
      RunGrows(Step(b, es[0]), es[1..]);
      assert b.jobs + Opened(b, es[0]) + AllOpened(Step(b, es[0]), es[1..]) == b.jobs + AllOpened(b, es);
    }
  }

  /** Repeats are absorbed: a firing webhook opens an incident exactly when the alarm is off. */
  lemma OpensIff(b: Board, fingerprint: string, auto: bool)
    ensures Opened(b, Firing(fingerprint, auto)) != [] <==> !Alarming(b, fingerprint)
    ensures Alarming(b, fingerprint) ==> Step(b, Firing(fingerprint, auto)) == b
  {
    var k := Newest(b.entries, fingerprint, true);
    if k.Some? {
      assert b.entries[k.value := b.entries[k.value].(firing := true)] == b.entries;
    }
  }

  // ----- Reviving a closed incident -----

  /** The siblings of incident `k` that a revival would collide with. */
  ghost predicate Collides(b: Board, k: nat)
    requires k < |b.entries|
  {
    || (exists i | 0 <= i < k :: Matches(b.entries[i], b.entries[k].fingerprint, true))
    || (b.entries[k].firing && exists j | k < j < |b.entries| :: Matches(b.entries[j], b.entries[k].fingerprint, false))
  }

  /** Running an investigation again on a closed incident makes it active; the invariant survives
      exactly when no sibling collides. */
  lemma RevivalKeepsInvIff(b: Board, k: nat, status: Status)
    requires Inv(b) && k < |b.entries| && !Active(b.entries[k].status) && Active(status)
    ensures Inv(Step(b, Move(k, status))) <==> !Collides(b, k)
  {
    var b' := Step(b, Move(k, status));
    if Collides(b, k) {
      if i :| 0 <= i < k && Matches(b.entries[i], b.entries[k].fingerprint, true) {
        assert b'.entries[i].fingerprint == b'.entries[k].fingerprint && b'.entries[i].firing;
      } else {
        var j :| k < j < |b.entries| && Matches(b.entries[j], b.entries[k].fingerprint, false);
        assert b'.entries[k].fingerprint == b'.entries[j].fingerprint && b'.entries[k].firing;
      }
    } else {
      forall i, j | 0 <= i < j < |b'.entries| && b'.entries[i].fingerprint == b'.entries[j].fingerprint
        && Active(b'.entries[i].status) && Active(b'.entries[j].status)
        ensures !b'.entries[i].firing
      {
        if j == k {
          assert !Matches(b.entries[i], b.entries[k].fingerprint, true);
        } else if i == k {
          assert Matches(b.entries[j], b.entries[k].fingerprint, false);
        }
      }
    }
  }

  const CLOSED := Entry("x", Investigation.Resolved, true)
  const FIRED := Entry("x", Investigation.Detected, true)

  lemma FiresClosesFires()
    ensures Step(EMPTY, Firing("x", false)) == Board([FIRED], [])
    ensures Step(Board([FIRED], []), Move(0, Investigation.Resolved)) == Board([CLOSED], [])
    ensures Step(Board([CLOSED], []), Firing("x", false)) == Board([CLOSED, FIRED], [])
  {
    assert Newest([CLOSED], "x", true).None?;
  }

  lemma RevivedThenCleared()
    ensures var revived := Step(Board([CLOSED, FIRED], []), Move(0, Investigation.Investigating));
            Alarming(Step(revived, Cleared("x")), "x")
  {
    var revived := Step(Board([CLOSED, FIRED], []), Move(0, Investigation.Investigating));
    assert Matches(revived.entries[1], "x", false) && Newest(revived.entries, "x", false) == Some(1);
    var cleared := Step(revived, Cleared("x"));
    assert Matches(cleared.entries[0], "x", true);
  }

  /** A revival can leave an alert no resolved webhook clears: an alert fires, its incident is closed, the
      alert fires again, and an investigation runs again on the closed incident. */
  lemma RevivalLeavesAlarmOn()
    ensures var es := [Firing("x", false), Move(0, Investigation.Resolved), Firing("x", false)];
            && CanRun(EMPTY, es) && Inv(Run(EMPTY, es))
            && var board := Run(EMPTY, es);
               && |board.entries| == 2
               && Alarming(Step(Step(board, Move(0, Investigation.Investigating)), Cleared("x")), "x")
  {
    hide Step, Alarming, Inv, Run;
    var es := [Firing("x", false), Move(0, Investigation.Resolved), Firing("x", false)];
    var last := Board([CLOSED, FIRED], []);
    FiresClosesFires();
    RevivedThenCleared();
    assert es[1..] == [es[1], es[2]] && es[1..][1..] == [es[2]] && [es[2]][1..] == [];
    RunsTo(Board([CLOSED], []), [es[2]], last);
    RunsTo(Board([FIRED], []), es[1..], last);
    RunsTo(EMPTY, es, last);
    ReachableBoardsInv(es);
  }

  lemma RunsTo(b: Board, es: seq<Event>, last: Board)
    requires es != [] && CanStep(b, es[0]) && Gentle(b, es[0])
    requires var b' := Step(b, es[0]);
             if es[1..] == [] then b' == last else CanRun(b', es[1..]) && Run(b', es[1..]) == last
    ensures CanRun(b, es) && Run(b, es) == last
  {
    hide Step;
    if es[1..] == [] {
      assert Run(Step(b, es[0]), []) == Step(b, es[0]);
    }
  }
}
