/** The worker's transactions on job rows, in the imperative form of the source. */
module JobWorker {
  import opened Wrappers
  import opened JobQueue

  /** `investigation_jobs`: one object per row, updated in place. */
  class InvestigationJob {
    const incident: nat
    const maxAttempts: nat
    var status: JobStatus
    var attemptCount: nat
    var availableAt: real
    var leaseExpiresAt: Option<real>
    var claimedBy: Option<string>
    var lastError: Option<string>

    constructor (incident: nat, maxAttempts: nat, availableAt: real)
      ensures Row() == Job(incident, Pending, 0, maxAttempts, availableAt, None, None)
    {
      this.incident, this.maxAttempts, this.availableAt := incident, maxAttempts, availableAt;
      status, attemptCount := Pending, 0;
      leaseExpiresAt, claimedBy, lastError := None, None, None;
    }

    ghost function Row(): Job
      reads this
    {
      Job(incident, status, attemptCount, maxAttempts, availableAt, leaseExpiresAt, claimedBy)
    }
  }

  /** The table the workers share. */
  class JobTable {
    var rows: seq<InvestigationJob>

    ghost predicate Valid()
      reads this
    {
      forall i, j | 0 <= i < j < |rows| :: rows[i] != rows[j]
    }

    ghost function Jobs(): seq<Job>
      reads this, rows
    {
      seq(|rows|, i requires 0 <= i < |rows| reads this, rows => rows[i].Row())
    }

    constructor ()
      ensures Valid() && Jobs() == []
    {
      rows := [];
    }

    /** A job written in the transaction that creates its incident. */
    method Insert(incident: nat, maxAttempts: nat, availableAt: real)
      requires Valid() && maxAttempts >= 1
      modifies this
      ensures Valid() && fresh(set r | r in rows && r !in old(rows))
      ensures Jobs() == Apply(Queue(old(Jobs()), 0.0), Enqueue(incident, maxAttempts, availableAt)).jobs
    {
      var job := new InvestigationJob(incident, maxAttempts, availableAt);
      rows := rows + [job];
    }

    /** `claim_next_job`: among the rows the query admits, the one available longest; one transaction. */
    method ClaimNextJob(now: real, leaseSeconds: real, worker: string) returns (claimed: Option<nat>)
      requires Valid() && leaseSeconds >= 0.0
      modifies rows
      ensures Valid() && rows == old(rows)
      ensures claimed.None? <==> forall j | 0 <= j < |rows| :: !Eligible(old(Jobs())[j], now)
      ensures claimed.None? ==> Jobs() == old(Jobs())
      ensures claimed.Some? ==>
                && Enabled(Queue(old(Jobs()), now), Claim(claimed.value, leaseSeconds, worker))
                && (forall j | 0 <= j < |rows| && Eligible(old(Jobs())[j], now) ::
                      old(Jobs())[claimed.value].availableAt <= old(Jobs())[j].availableAt)
                && Jobs() == Apply(Queue(old(Jobs()), now), Claim(claimed.value, leaseSeconds, worker)).jobs
    {
      claimed := None;
      for k := 0 to |rows|
        invariant claimed.None? ==> forall j | 0 <= j < k :: !Eligible(Jobs()[j], now)
        invariant claimed.Some? ==>
            && claimed.value < k && Eligible(Jobs()[claimed.value], now)
            && (forall j | 0 <= j < k && Eligible(Jobs()[j], now) :: Jobs()[claimed.value].availableAt <= Jobs()[j].availableAt)
      {
        var row := rows[k];
        var admitted :=
          || (row.status == Pending && row.availableAt <= now)
          || (row.status == Running && row.leaseExpiresAt.Some? && row.leaseExpiresAt.value < now
              && row.attemptCount < row.maxAttempts);
        assert admitted == Eligible(Jobs()[k], now);
        if admitted && (claimed.None? || row.availableAt < rows[claimed.value].availableAt) {
          claimed := Some(k);
        }
      }
      if claimed.Some? {
        var job := rows[claimed.value];
        job.status := Running;
        job.claimedBy := Some(worker);
        job.leaseExpiresAt := Some(now + leaseSeconds);
        job.attemptCount := job.attemptCount + 1;
      }
    }

    /** The second transaction of `process_job`, whoever holds the claim by now. */
    method FinishJob(k: nat, success: bool, error: string, now: real)
      requires Valid() && k < |rows|
      modifies rows[k]
      ensures Valid() && rows == old(rows)
      ensures Jobs() == Apply(Queue(old(Jobs()), now), Finish(k, success)).jobs
      ensures rows[k].lastError == if success then None else Some(error)
      ensures !success && old(rows[k].attemptCount) < rows[k].maxAttempts ==>
                rows[k].status == Pending && rows[k].availableAt == now + WaitAfter(rows[k].attemptCount)
    {
      PowerIsWait(rows[k].attemptCount);
      var job := rows[k];
      if success {
        job.status := Completed;
        job.lastError := None;
      } else {
        job.lastError := Some(error);
        if job.attemptCount < job.maxAttempts {
          job.status := Pending;
          job.availableAt := now + Pow2(job.attemptCount) as real;
        } else {
          job.status := Failed;
        }
      }
    }

    /** First half of `run_background_investigation` on a row its query found. */
    method BackgroundTake(k: nat)
      requires Valid() && k < |rows| && rows[k].status in {Pending, Running}
      modifies rows[k]
      ensures Valid() && rows == old(rows)
      ensures Jobs() == Apply(Queue(old(Jobs()), 0.0), BackgroundStart(k)).jobs
    {
      rows[k].status := Running;
    }

    /** `run_once` with no other worker in between: the investigation's verdict is arbitrary. */
    method RunOnce(now: real, leaseSeconds: real, worker: string, success: bool, error: string, later: real)
      returns (processed: bool)
      requires Valid() && leaseSeconds >= 0.0 && forall j | 0 <= j < |rows| :: Bounded(Jobs()[j])
      modifies rows
      ensures Valid() && rows == old(rows)
      ensures forall j | 0 <= j < |rows| :: Bounded(Jobs()[j])
      ensures processed <==> exists j | 0 <= j < |rows| :: Eligible(old(Jobs())[j], now)
      ensures !processed ==> Jobs() == old(Jobs())
      ensures processed ==> exists j | 0 <= j < |rows| ::
                && Eligible(old(Jobs())[j], now)
                && Jobs() == old(Jobs())[j := Finished(Claimed(old(Jobs())[j], now, leaseSeconds, worker), success, later)]
    {
      var claimed := ClaimNextJob(now, leaseSeconds, worker);
      if claimed.None? {
        return false;
      }
      ghost var mid := Jobs();
      assert forall j | 0 <= j < |rows| :: Bounded(mid[j]);
      assert Bounded(mid[claimed.value]);
      FinishJob(claimed.value, success, error, later);
      processed := true;
      assert Jobs() == old(Jobs())[claimed.value := Finished(Claimed(old(Jobs())[claimed.value], now, leaseSeconds, worker), success, later)];
    }
  }
}
