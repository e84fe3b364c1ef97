/** The webhook handlers over incident rows, in the imperative form of the source. */
module AlertService {
  import opened Wrappers
  import Investigation
  import opened Alerts

  class IncidentRow {
    const fingerprint: string
    var status: Status
    var alertFiring: bool
    var summary: string

    constructor (fingerprint: string, status: Status, alertFiring: bool, summary: string)
      ensures AsEntry() == Entry(fingerprint, status, alertFiring) && this.summary == summary
    {
      this.fingerprint, this.status, this.alertFiring, this.summary := fingerprint, status, alertFiring, summary;
    }

    ghost function AsEntry(): Entry
      reads this
    {
      Entry(fingerprint, status, alertFiring)
    }
  }

  datatype Response = Created | Updated | AlertResolved

  class AlertService {
    var rows: seq<IncidentRow>
    var jobs: seq<nat>

    ghost predicate Valid()
      reads this
    {
      forall i, j | 0 <= i < j < |rows| :: rows[i] != rows[j]
    }

    ghost function AsBoard(): Board
      reads this, rows
    {
      Board(seq(|rows|, i requires 0 <= i < |rows| reads this, rows => rows[i].AsEntry()), jobs)
    }

    constructor ()
      ensures Valid() && AsBoard() == Board([], [])
    {
      rows, jobs := [], [];
    }

    /** `find_active_by_fingerprint`, and `find_firing_by_fingerprint` when `firingOnly`. */
    method FindByFingerprint(fingerprint: string, firingOnly: bool) returns (found: Option<nat>)
      requires Valid()
      ensures found == Newest(AsBoard().entries, fingerprint, firingOnly)
    {
      ghost var es := AsBoard().entries;
      found := None;
      var i := |rows|;
      while i > 0
        invariant 0 <= i <= |rows|
        invariant forall j | i <= j < |rows| :: !Matches(es[j], fingerprint, firingOnly)
      {
        i := i - 1;
        var row := rows[i];
        assert es[i] == row.AsEntry();
        if row.fingerprint == fingerprint && !row.status.Resolved? && !row.status.FailedIncident?
           && (!firingOnly || row.alertFiring) {
          return Some(i);
        }
      }
    }

    /** `_handle_firing_alert`. */
    method HandleFiring(fingerprint: string, summary: string, autoInvestigate: bool)
      returns (incident: nat, response: Response)
      requires Valid()
      modifies this, rows
      ensures Valid() && fresh(set r | r in rows && r !in old(rows))
      ensures AsBoard() == Step(old(AsBoard()), Firing(fingerprint, autoInvestigate))
      ensures incident < |rows| && rows[incident].summary == summary
      ensures rows[incident].fingerprint == fingerprint && rows[incident].alertFiring && Active(rows[incident].status)
      ensures response == if Opened(old(AsBoard()), Firing(fingerprint, autoInvestigate)) == [] then Updated else Created
    {
      hide Newest;
      var existing := FindByFingerprint(fingerprint, true);
      if existing.Some? {
        incident, response := existing.value, Updated;
        rows[incident].alertFiring := true;
        rows[incident].summary := summary;
      } else {
        incident, response := |rows|, Created;
        var row := new IncidentRow(fingerprint, Investigation.Detected, true, summary);
        rows := rows + [row];
        if autoInvestigate {
          jobs := jobs + [incident];
        }
      }
    }

    /** `_handle_resolved_alert`. */
    method HandleResolved(fingerprint: string, summary: string) returns (incident: nat, response: Response)
      requires Valid()
      modifies this, rows
      ensures Valid() && fresh(set r | r in rows && r !in old(rows))
      ensures AsBoard() == Step(old(AsBoard()), Cleared(fingerprint))
      ensures incident < |rows| && rows[incident].fingerprint == fingerprint && !rows[incident].alertFiring
      ensures response == AlertResolved
    {
      response := AlertResolved;
      var existing := FindByFingerprint(fingerprint, false);
      if existing.Some? {
        incident := existing.value;
        rows[incident].alertFiring := false;
      } else {
        incident := |rows|;
        var row := new IncidentRow(fingerprint, Investigation.Resolved, false, summary);
        rows := rows + [row];
      }
    }

    /** A status write from the rest of the system. */
    method SetStatus(incident: nat, status: Status)
      requires Valid() && incident < |rows|
      modifies rows[incident]
      ensures Valid() && rows == old(rows)
      ensures AsBoard() == Step(old(AsBoard()), Move(incident, status))
    {
      rows[incident].status := status;
    }
  }
}
