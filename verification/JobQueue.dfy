/** The durable investigation queue as an interleaved transition system over job rows and a clock.

    Each worker transaction is one atomic event.  A finishing write never checks who holds the
    claim, so it is enabled in every state and may come from a stale worker. */
module JobQueue {
  import opened Wrappers

  datatype JobStatus = Pending | Running | Completed | Failed

  /** One row of `investigation_jobs`.  Instants are seconds. */
  datatype Job = Job(
    incident: nat,
    status: JobStatus,
    attempts: nat,
    maxAttempts: nat,
    availableAt: real,
    leaseExpiresAt: Option<real>,
    claimedBy: Option<string>)

  function Pow2(n: nat): (p: nat)
    ensures p >= 1
  {
    if n == 0 then 1 else 2 * Pow2(n - 1)
  }

  predicate Eligible(job: Job, now: real) {
    || (job.status == Pending && job.availableAt <= now)
    || (job.status == Running && job.leaseExpiresAt.Some? && job.leaseExpiresAt.value < now
        && job.attempts < job.maxAttempts)
  }

  function Claimed(job: Job, now: real, lease: real, worker: string): Job {
    job.(status := Running, claimedBy := Some(worker), leaseExpiresAt := Some(now + lease), attempts := job.attempts + 1)
  }

  function Finished(job: Job, success: bool, now: real): Job {
    if success then job.(status := Completed)
    else if job.attempts < job.maxAttempts then
      job.(status := Pending, availableAt := now + Pow2(job.attempts) as real)
    else job.(status := Failed)
  }

  /** The background runner takes a job without a lease and without counting an attempt. */
  function BackgroundStarted(job: Job): Job {
    job.(status := Running)
  }

  function BackgroundEnded(job: Job, success: bool): Job {
    job.(status := if success then Completed else Failed)
  }

  // ----- Events -----

  datatype Queue = Queue(jobs: seq<Job>, now: real)

  datatype Event =
    | Enqueue(incident: nat, maxAttempts: nat, availableAt: real)
    | Tick(elapsed: real)
    | Claim(job: nat, lease: real, worker: string)
    | Finish(job: nat, success: bool)
    | BackgroundStart(job: nat)
    | BackgroundEnd(job: nat, success: bool)

  /** What the code lets happen.  `Finish` is unconditional.  A background run starts on a row that
      is PENDING or RUNNING; on failure it re-reads the row and only overwrites a RUNNING one. */
  predicate Enabled(q: Queue, e: Event) {
    match e
    case Enqueue(_, max, _) => max >= 1
    case Tick(elapsed) => elapsed >= 0.0
    case Claim(j, lease, _) => j < |q.jobs| && lease >= 0.0 && Eligible(q.jobs[j], q.now)
    case Finish(j, _) => j < |q.jobs|
    case BackgroundStart(j) => j < |q.jobs| && q.jobs[j].status in {Pending, Running}
    case BackgroundEnd(j, success) => j < |q.jobs| && (success || q.jobs[j].status == Running)
  }

  function Apply(q: Queue, e: Event): Queue
    requires Enabled(q, e)
  {
    match e
    case Enqueue(incident, max, at) => q.(jobs := q.jobs + [Job(incident, Pending, 0, max, at, None, None)])
    case Tick(elapsed) => q.(now := q.now + elapsed)
    case Claim(j, lease, worker) => q.(jobs := q.jobs[j := Claimed(q.jobs[j], q.now, lease, worker)])
    case Finish(j, success) => q.(jobs := q.jobs[j := Finished(q.jobs[j], success, q.now)])
    case BackgroundStart(j) => q.(jobs := q.jobs[j := BackgroundStarted(q.jobs[j])])
    case BackgroundEnd(j, success) => q.(jobs := q.jobs[j := BackgroundEnded(q.jobs[j], success)])
  }

  predicate Runs(q: Queue, es: seq<Event>)
    decreases |es|
  {
    es == [] || (Enabled(q, es[0]) && Runs(Apply(q, es[0]), es[1..]))
  }

  function Exec(q: Queue, es: seq<Event>): Queue
    requires Runs(q, es)
    decreases |es|
  {
    if es == [] then q else Exec(Apply(q, es[0]), es[1..])
  }

  const EMPTY := Queue([], 0.0)

  lemma {:induction false} RunsConcat(q: Queue, es: seq<Event>, more: seq<Event>)
    ensures Runs(q, es + more) <==> Runs(q, es) && Runs(Exec(q, es), more)
    ensures Runs(q, es + more) ==> Exec(q, es + more) == Exec(Exec(q, es), more)
    decreases |es|
  {
    if es == [] {
      assert es + more == more;
    } else {
      assert (es + more)[0] == es[0] && (es + more)[1..] == es[1..] + more;
      if Enabled(q, es[0]) {
        RunsConcat(Apply(q, es[0]), es[1..], more);
      }
    }
  }

  lemma ExecNothing(q: Queue)
    ensures Runs(q, []) && Exec(q, []) == q
  {
  }

  /** One more event. */
  lemma RunSnoc(q: Queue, es: seq<Event>, e: Event)
    requires Runs(q, es) && Enabled(Exec(q, es), e)
    ensures Runs(q, es + [e]) && Exec(q, es + [e]) == Apply(Exec(q, es), e)
  {
    var mid := Exec(q, es);
    assert [e][1..] == [];
    ExecNothing(Apply(mid, e));
    assert Runs(mid, [e]) && Exec(mid, [e]) == Apply(mid, e);
    RunsConcat(q, es, [e]);
  }

  /** The same, one index further into a given list. */
  lemma RunGoesOn(q: Queue, es: seq<Event>, k: nat)
    requires k < |es| && Runs(q, es[..k]) && Enabled(Exec(q, es[..k]), es[k])
    ensures Runs(q, es[..k + 1]) && Exec(q, es[..k + 1]) == Apply(Exec(q, es[..k]), es[k])
  {
    RunSnoc(q, es[..k], es[k]);
    assert es[..k] + [es[k]] == es[..k + 1];
  }

  /** The queue after the first `n` events. */
  function After(q: Queue, es: seq<Event>, n: nat): (r: Queue)
    requires Runs(q, es) && n <= |es|
    ensures |r.jobs| >= |q.jobs|
    decreases n
  {
    if n == 0 then q else After(Apply(q, es[0]), es[1..], n - 1)
  }

  // ----- Attempts are bounded under every interleaving -----

  ghost predicate Bounded(job: Job) {
    && job.attempts <= job.maxAttempts
    && (job.status == Pending ==> job.attempts < job.maxAttempts)
  }

  ghost predicate AllBounded(q: Queue) {
    forall j | 0 <= j < |q.jobs| :: Bounded(q.jobs[j])
  }

  lemma {:induction false} AttemptsStayBounded(q: Queue, es: seq<Event>)
    requires AllBounded(q) && Runs(q, es)
    ensures AllBounded(Exec(q, es))
    decreases |es|
  {
    if es == [] {
    } else {
      AttemptsStayBounded(Apply(q, es[0]), es[1..]);
    }
  }

  function ClaimsOf(j: nat, es: seq<Event>): nat {
    if es == [] then 0
    else (if es[0].Claim? && es[0].job == j then 1 else 0) + ClaimsOf(j, es[1..])
  }

  function AttemptsOf(q: Queue, j: nat): nat {
    if j < |q.jobs| then q.jobs[j].attempts else 0
  }

  /** Conservation: over any run the attempt counter of a row moves by exactly its claims. */
  lemma {:induction false} AttemptsCountClaims(q: Queue, es: seq<Event>, j: nat)
    requires Runs(q, es)
    ensures AttemptsOf(Exec(q, es), j) == AttemptsOf(q, j) + ClaimsOf(j, es)
    decreases |es|
  {
    if es == [] {
    } else {
      AttemptsCountClaims(Apply(q, es[0]), es[1..], j);
    }
  }

  lemma {:induction false} RowsPersist(q: Queue, es: seq<Event>)
    requires Runs(q, es)
    ensures |q.jobs| <= |Exec(q, es).jobs|
    ensures forall j | 0 <= j < |q.jobs| :: Exec(q, es).jobs[j].maxAttempts == q.jobs[j].maxAttempts
    decreases |es|
  {
    if es == [] {
    } else {
      RowsPersist(Apply(q, es[0]), es[1..]);
    }
  }

  /** No schedule of claims, crashes, stale finishes and background runs claims one job more often
      than its limit allows. */
  lemma ClaimsNeverExceedMaxAttempts(q: Queue, es: seq<Event>, j: nat)
    requires AllBounded(q) && Runs(q, es) && j < |q.jobs|
    ensures ClaimsOf(j, es) <= q.jobs[j].maxAttempts - q.jobs[j].attempts
  {
    AttemptsStayBounded(q, es);
    AttemptsCountClaims(q, es, j);
    RowsPersist(q, es);
  }

  /** Claims the queue can still hand out. */
  ghost function Budget(jobs: seq<Job>): int {
    if jobs == [] then 0 else (jobs[0].maxAttempts - jobs[0].attempts) + Budget(jobs[1..])
  }

  function Claims(es: seq<Event>): nat {
    if es == [] then 0 else (if es[0].Claim? then 1 else 0) + Claims(es[1..])
  }

  function Enqueued(es: seq<Event>): nat {
    if es == [] then 0 else (if es[0].Enqueue? then es[0].maxAttempts else 0) + Enqueued(es[1..])
  }

  lemma {:induction false} BudgetUpdate(jobs: seq<Job>, j: nat, job: Job)
    requires j < |jobs|
    ensures Budget(jobs[j := job]) == Budget(jobs)
              - (jobs[j].maxAttempts - jobs[j].attempts) + (job.maxAttempts - job.attempts)
  {
    if j > 0 {
      assert jobs[j := job][1..] == jobs[1..][j - 1 := job];
      BudgetUpdate(jobs[1..], j - 1, job);
    } else {
      assert jobs[j := job][1..] == jobs[1..];
    }
  }

  lemma {:induction false} BudgetAppend(jobs: seq<Job>, job: Job)
    ensures Budget(jobs + [job]) == Budget(jobs) + (job.maxAttempts - job.attempts)
  {
    if jobs == [] {
      assert jobs + [job] == [job] && Budget([]) == 0;
      assert [job][1..] == [];
    } else {
      assert (jobs + [job])[1..] == jobs[1..] + [job];
      BudgetAppend(jobs[1..], job);
    }
  }

  /** The strictly decreasing measure: a claim spends exactly one unit, an enqueue adds its limit and
      nothing else moves it. */
  lemma BudgetStep(q: Queue, e: Event)
    requires Enabled(q, e)
    ensures Budget(Apply(q, e).jobs)
         == Budget(q.jobs) - (if e.Claim? then 1 else 0) + (if e.Enqueue? then e.maxAttempts else 0)
  {
    match e
    case Enqueue(incident, max, at) => BudgetAppend(q.jobs, Job(incident, Pending, 0, max, at, None, None));
    case Tick(_) =>
    case Claim(j, lease, worker) => BudgetUpdate(q.jobs, j, Claimed(q.jobs[j], q.now, lease, worker));
    case Finish(j, success) => BudgetUpdate(q.jobs, j, Finished(q.jobs[j], success, q.now));
    case BackgroundStart(j) => BudgetUpdate(q.jobs, j, BackgroundStarted(q.jobs[j]));
    case BackgroundEnd(j, success) => BudgetUpdate(q.jobs, j, BackgroundEnded(q.jobs[j], success));
  }

  lemma {:induction false} BudgetRun(q: Queue, es: seq<Event>)
    requires Runs(q, es)
    ensures Budget(Exec(q, es).jobs) == Budget(q.jobs) - Claims(es) + Enqueued(es)
    decreases |es|
  {
    if es == [] {
    } else {
      BudgetStep(q, es[0]);
      BudgetRun(Apply(q, es[0]), es[1..]);
    }
  }

  lemma {:induction false} BudgetNonNegative(jobs: seq<Job>)
    requires forall j | 0 <= j < |jobs| :: Bounded(jobs[j])
    ensures Budget(jobs) >= 0
  {
    if jobs == [] {
    } else {
      BudgetNonNegative(jobs[1..]);
    }
  }

  /** Started on an empty queue, the whole system performs at most as many claims as the sum of the
      limits of the jobs ever enqueued. */
  lemma TotalClaimsBounded(now: real, es: seq<Event>)
    requires Runs(Queue([], now), es)
    ensures Claims(es) <= Enqueued(es)
  {
    var q := Queue([], now);
    AttemptsStayBounded(q, es);
    BudgetRun(q, es);
    BudgetNonNegative(Exec(q, es).jobs);
  }

  // ----- What each write makes of a row, and when the row can be claimed next -----

  /** The status a row has after any event, and what brought it there. */
  lemma StatusAfter(q: Queue, e: Event, j: nat)
    requires Enabled(q, e) && j < |q.jobs|
    ensures j < |Apply(q, e).jobs|
    ensures var (a, b) := (q.jobs[j], Apply(q, e).jobs[j]);
            && (b.status == Completed <==>
                  || e == Finish(j, true) || e == BackgroundEnd(j, true)
                  || (a.status == Completed && e != Finish(j, false)))
            && (b.status == Failed <==>
                  || (e == Finish(j, false) && a.attempts >= a.maxAttempts) || e == BackgroundEnd(j, false)
                  || (a.status == Failed && !(e.Finish? && e.job == j) && e != BackgroundEnd(j, true)))
            && (b.status == Running <==>
                  || (e.Claim? && e.job == j) || e == BackgroundStart(j)
                  || (a.status == Running && !((e.Finish? || e.BackgroundEnd?) && e.job == j)))
            && b.incident == a.incident && b.maxAttempts == a.maxAttempts
            && (!(e.Claim? && e.job == j) ==>
                  b.attempts == a.attempts && b.claimedBy == a.claimedBy && b.leaseExpiresAt == a.leaseExpiresAt)
            && (!(e == Finish(j, false) && b.status == Pending) ==> b.availableAt == a.availableAt)
  {
  }

  /** Seconds until the next try after `n` attempts: one second, doubled with each attempt. */
  function WaitAfter(n: nat): real {
    if n == 0 then 1.0 else WaitAfter(n - 1) + WaitAfter(n - 1)
  }

  lemma {:induction false} PowerIsWait(n: nat)
    ensures Pow2(n) as real == WaitAfter(n)
  {
    if n == 0 {
    } else {
      PowerIsWait(n - 1);
    }
  }

  lemma WaitValues()
    ensures WaitAfter(1) == 2.0 && WaitAfter(2) == 4.0 && WaitAfter(3) == 8.0
  {
    assert WaitAfter(1) == 2.0;
    assert WaitAfter(2) == 4.0;
  }

  /** A failed row with an attempt left can be claimed exactly from the end of its backoff on; without one,
      never. */
  lemma RetryClaimableIff(job: Job, now: real, t: real)
    ensures Eligible(Finished(job, false, now), t) <==> job.attempts < job.maxAttempts && t >= now + WaitAfter(job.attempts)
  {
    PowerIsWait(job.attempts);
  }

  /** A claimed row whose worker dies can be claimed again exactly after its lease, with an attempt left. */
  lemma ReclaimableIff(job: Job, now: real, lease: real, worker: string, t: real)
    ensures Eligible(Claimed(job, now, lease, worker), t) <==> t > now + lease && job.attempts + 1 < job.maxAttempts
  {
  }

  /** Before the instant `from` the row cannot be claimed. */
  ghost predicate HeldBack(q: Queue, j: nat, from: real) {
    q.now >= from || (j < |q.jobs| && q.jobs[j].status == Pending && q.jobs[j].availableAt >= from)
  }

  lemma {:induction false} ClaimAfterHold(q: Queue, es: seq<Event>, j: nat, i: nat, from: real)
    requires Runs(q, es) && j < |q.jobs| && HeldBack(q, j, from)
    requires i < |es| && es[i].Claim? && es[i].job == j && forall k | 0 <= k < i :: !Touches(es[k], j)
    ensures After(q, es, i).now >= from
    decreases i
  {
    if i == 0 {
      assert Enabled(q, es[0]);
    } else {
      assert !Touches(es[0], j);
      var rest := es[1..];
      assert rest[i - 1] == es[i] && forall k | 0 <= k < i - 1 :: rest[k] == es[k + 1];
      ClaimAfterHold(Apply(q, es[0]), rest, j, i - 1, from);
    }
  }

  /** Over every run: a job whose attempt failed is claimed again, by whatever worker, only when the clock has
      advanced by its backoff, unless another finishing write or a background run touches it before. */
  lemma RetryWaits(q: Queue, es: seq<Event>, j: nat, i: nat)
    requires Enabled(q, Finish(j, false)) && q.jobs[j].attempts < q.jobs[j].maxAttempts
    requires Runs(Apply(q, Finish(j, false)), es)
    requires i < |es| && es[i].Claim? && es[i].job == j && forall k | 0 <= k < i :: !Touches(es[k], j)
    ensures After(Apply(q, Finish(j, false)), es, i).now >= q.now + WaitAfter(q.jobs[j].attempts)
  {
    PowerIsWait(q.jobs[j].attempts);
    ClaimAfterHold(Apply(q, Finish(j, false)), es, j, i, q.now + WaitAfter(q.jobs[j].attempts));
  }

  // ----- What a crashed worker leaves behind -----

  /** A row becomes claimable at some instant exactly when it is PENDING, or RUNNING with a lease and
      an attempt left. */
  lemma ClaimableEventuallyIff(job: Job)
    ensures (exists t: real :: Eligible(job, t))
       <==> (job.status == Pending
             || (job.status == Running && job.leaseExpiresAt.Some? && job.attempts < job.maxAttempts))
  {
    if job.status == Pending {
      assert Eligible(job, job.availableAt);
    } else if job.status == Running && job.leaseExpiresAt.Some? && job.attempts < job.maxAttempts {
      assert Eligible(job, job.leaseExpiresAt.value + 1.0);
    }
  }

  predicate Touches(e: Event, j: nat) {
    match e
    case Finish(k, _) => k == j
    case BackgroundStart(k) => k == j
    case BackgroundEnd(k, _) => k == j
    case _ => false
  }

  /** Lease recovery has a gap.  A row that was RUNNING on its last attempt, or RUNNING without a
      lease after a background start, is never changed again once its runner is gone. */
  lemma {:induction false} CrashedRowIsStranded(q: Queue, es: seq<Event>, j: nat)
    requires Runs(q, es) && j < |q.jobs|
    requires q.jobs[j].status == Running
    requires q.jobs[j].leaseExpiresAt.None? || q.jobs[j].attempts >= q.jobs[j].maxAttempts
    requires forall i | 0 <= i < |es| :: !Touches(es[i], j)
    ensures j < |Exec(q, es).jobs| && Exec(q, es).jobs[j] == q.jobs[j]
    ensures ClaimsOf(j, es) == 0
    decreases |es|
  {
    if es == [] {
    } else {
      assert !Touches(es[0], j);
      forall i | 0 <= i < |es[1..]| ensures !Touches(es[1..][i], j) {
        assert es[1..][i] == es[i + 1];
      }
      CrashedRowIsStranded(Apply(q, es[0]), es[1..], j);
    }
  }

  /** Workers that claim job 0 and die, one after the other, each after the last one's lease ran out. */
  function CrashingWorkers(n: nat): seq<Event> {
    if n == 0 then [] else CrashingWorkers(n - 1) + [Claim(0, 120.0, "worker"), Tick(121.0)]
  }

  lemma {:induction false} CrashesUseUpAttempts(max: nat, n: nat)
    requires 1 <= max && n <= max
    ensures var es := [Enqueue(7, max, 0.0)] + CrashingWorkers(n);
            && Runs(EMPTY, es)
            && var q := Exec(EMPTY, es);
               && |q.jobs| == 1 && q.now >= 0.0 && q.jobs[0].attempts == n && q.jobs[0].maxAttempts == max
               && (n == 0 ==> q.jobs[0].status == Pending && q.jobs[0].availableAt == 0.0)
               && (n > 0 ==> q.jobs[0].status == Running && q.jobs[0].leaseExpiresAt.Some?
                             && q.jobs[0].leaseExpiresAt.value < q.now)
  {
    var first := Enqueue(7, max, 0.0);
    if n == 0 {
      RunSnoc(EMPTY, [], first);
      assert [] + [first] == [first] + CrashingWorkers(0);
    } else {
      CrashesUseUpAttempts(max, n - 1);
      var es := [first] + CrashingWorkers(n - 1);
      var (claim, tick) := (Claim(0, 120.0, "worker"), Tick(121.0));
      RunSnoc(EMPTY, es, claim);
      RunSnoc(EMPTY, es + [claim], tick);
      assert es + [claim] + [tick] == [first] + CrashingWorkers(n);
    }
  }

  /** The gap is reached at every limit: once each attempt has crashed, no run that leaves the row to the
      workers' claims ever hands the job out again. */
  lemma CrashedAttemptsStrandJob(max: nat, more: seq<Event>)
    requires 1 <= max && forall i | 0 <= i < |more| :: !Touches(more[i], 0)
    ensures Runs(EMPTY, [Enqueue(7, max, 0.0)] + CrashingWorkers(max))
    ensures Runs(EMPTY, [Enqueue(7, max, 0.0)] + CrashingWorkers(max) + more) ==>
              var q := Exec(EMPTY, [Enqueue(7, max, 0.0)] + CrashingWorkers(max) + more);
              ClaimsOf(0, more) == 0 && |q.jobs| > 0 && q.jobs[0].status == Running && q.jobs[0].attempts == max
  {
    CrashesUseUpAttempts(max, max);
    var es := [Enqueue(7, max, 0.0)] + CrashingWorkers(max);
    RunsConcat(EMPTY, es, more);
    if Runs(EMPTY, es + more) {
      CrashedRowIsStranded(Exec(EMPTY, es), more, 0);
    }
  }

  /** And with every attempt left: a background run takes a new job and dies. */
  lemma CrashedBackgroundRunStrandsJob(max: nat, more: seq<Event>)
    requires 1 <= max && forall i | 0 <= i < |more| :: !Touches(more[i], 0)
    ensures Runs(EMPTY, [Enqueue(7, max, 0.0), BackgroundStart(0)])
    ensures Runs(EMPTY, [Enqueue(7, max, 0.0), BackgroundStart(0)] + more) ==>
              var q := Exec(EMPTY, [Enqueue(7, max, 0.0), BackgroundStart(0)] + more);
              ClaimsOf(0, more) == 0 && |q.jobs| > 0 && q.jobs[0].status == Running && q.jobs[0].attempts == 0
  {
    var (first, start) := (Enqueue(7, max, 0.0), BackgroundStart(0));
    RunSnoc(EMPTY, [], first);
    assert [] + [first] == [first];
    RunSnoc(EMPTY, [first], start);
    assert [first] + [start] == [first, start];
    RunsConcat(EMPTY, [first, start], more);
    if Runs(EMPTY, [first, start] + more) {
      CrashedRowIsStranded(Exec(EMPTY, [first, start]), more, 0);
    }
  }

  // ----- Who can change a finished row -----

  predicate Terminal(job: Job) {
    job.status in {Completed, Failed}
  }

  /** The writes that overturn the verdict of a finished job `j`: a finishing write that contradicts it or
      still has an attempt to schedule, and a background run's success on a failed row. */
  predicate Overturns(e: Event, j: nat, job: Job) {
    match e
    case Finish(k, true) => k == j && job.status == Failed
    case Finish(k, false) => k == j && (job.status == Completed || job.attempts < job.maxAttempts)
    case BackgroundEnd(k, success) => k == j && success && job.status == Failed
    case _ => false
  }

  /** Of all events, exactly these make a finished row leave its status; all others leave the whole row. */
  lemma TerminalKeptIff(q: Queue, e: Event, j: nat)
    requires Enabled(q, e) && j < |q.jobs| && Terminal(q.jobs[j])
    ensures Apply(q, e).jobs[j].status == q.jobs[j].status <==> !Overturns(e, j, q.jobs[j])
    ensures !Overturns(e, j, q.jobs[j]) ==> Apply(q, e).jobs[j] == q.jobs[j]
  {
  }

  ghost predicate KeptThroughout(q: Queue, es: seq<Event>, j: nat)
    requires Runs(q, es) && j < |q.jobs|
  {
    forall n: nat | n <= |es| :: After(q, es, n).jobs[j].status == q.jobs[j].status
  }

  lemma KeptFromStart(q: Queue, es: seq<Event>, j: nat)
    requires Runs(q, es) && es != [] && j < |q.jobs|
    requires Apply(q, es[0]).jobs[j].status == q.jobs[j].status
    ensures KeptThroughout(q, es, j) <==> KeptThroughout(Apply(q, es[0]), es[1..], j)
  {
    var (q', rest) := (Apply(q, es[0]), es[1..]);
    if KeptThroughout(q, es, j) {
      forall n: nat | n <= |rest| ensures After(q', rest, n).jobs[j].status == q'.jobs[j].status {
        assert After(q, es, n + 1) == After(q', rest, n);
      }
    }
    if KeptThroughout(q', rest, j) {
      forall n: nat | n <= |es| ensures After(q, es, n).jobs[j].status == q.jobs[j].status {
        if n > 0 {
          assert After(q, es, n) == After(q', rest, n - 1);
        }
      }
    }
  }

  /** Over a whole run: a finished job keeps its status at every point exactly when the run contains no
      event that overturns it, judged by the row as it was at the start. */
  lemma {:induction false} TerminalKeptOverRunIff(q: Queue, es: seq<Event>, j: nat)
    requires Runs(q, es) && j < |q.jobs| && Terminal(q.jobs[j])
    ensures KeptThroughout(q, es, j) <==> forall e | e in es :: !Overturns(e, j, q.jobs[j])
    decreases |es|
  {
    if es == [] {
    } else {
      hide Apply, Overturns;
      TerminalKeptIff(q, es[0], j);
      assert es == [es[0]] + es[1..];
      if Overturns(es[0], j, q.jobs[j]) {
        assert After(q, es, 1) == After(Apply(q, es[0]), es[1..], 0);
      } else {
        KeptFromStart(q, es, j);
        TerminalKeptOverRunIff(Apply(q, es[0]), es[1..], j);
      }
    }
  }

  /** Two workers, one late: the second completes the job and the first one's late failure puts the
      completed job back in the queue. */
  lemma StaleFinishRevivesCompletedJob()
    ensures var es := [Enqueue(7, 3, 0.0), Claim(0, 120.0, "a"), Tick(121.0), Claim(0, 120.0, "b"), Finish(0, true)];
            RevivedBy(es, Finish(0, false))
  {
    var es := [Enqueue(7, 3, 0.0), Claim(0, 120.0, "a"), Tick(121.0), Claim(0, 120.0, "b"), Finish(0, true)];
    assert es[..0] == [];
    RunGoesOn(EMPTY, es, 0);
    RunGoesOn(EMPTY, es, 1);
    RunGoesOn(EMPTY, es, 2);
    RunGoesOn(EMPTY, es, 3);
    RunGoesOn(EMPTY, es, 4);
    assert es[..5] == es;
    RunSnoc(EMPTY, es, Finish(0, false));
  }

  /** Job 0 is COMPLETED after `es` and PENDING again after the write `late`. */
  ghost predicate RevivedBy(es: seq<Event>, late: Event) {
    && Runs(EMPTY, es + [late]) && Runs(EMPTY, es)
    && |Exec(EMPTY, es).jobs| == 1 && Exec(EMPTY, es).jobs[0].status == Completed
    && |Exec(EMPTY, es + [late]).jobs| == 1 && Exec(EMPTY, es + [late]).jobs[0].status == Pending
  }

  /** Nobody is late here: a worker claims the job, the background run scheduled with it completes it, and
      the worker's failure, well inside its lease, puts it back in the queue. */
  lemma BackgroundRunRevivesCompletedJob()
    ensures RevivedBy([Enqueue(7, 3, 0.0), Claim(0, 120.0, "a"), BackgroundStart(0), BackgroundEnd(0, true)], Finish(0, false))
  {
    var es := [Enqueue(7, 3, 0.0), Claim(0, 120.0, "a"), BackgroundStart(0), BackgroundEnd(0, true)];
    assert es[..0] == [];
    RunGoesOn(EMPTY, es, 0);
    RunGoesOn(EMPTY, es, 1);
    RunGoesOn(EMPTY, es, 2);
    RunGoesOn(EMPTY, es, 3);
    assert es[..4] == es;
    RunSnoc(EMPTY, es, Finish(0, false));
  }

  /** The other way out: a job FAILED by its worker becomes COMPLETED when the background run ends well. */
  lemma BackgroundRunCompletesFailedJob()
    ensures var es := [Enqueue(7, 1, 0.0), Claim(0, 120.0, "a"), BackgroundStart(0), Finish(0, false)];
            && Runs(EMPTY, es) && Runs(EMPTY, es + [BackgroundEnd(0, true)])
            && |Exec(EMPTY, es).jobs| == 1 && Exec(EMPTY, es).jobs[0].status == Failed
            && |Exec(EMPTY, es + [BackgroundEnd(0, true)]).jobs| == 1
            && Exec(EMPTY, es + [BackgroundEnd(0, true)]).jobs[0].status == Completed
  {
    var es := [Enqueue(7, 1, 0.0), Claim(0, 120.0, "a"), BackgroundStart(0), Finish(0, false)];
    assert es[..0] == [];
    RunGoesOn(EMPTY, es, 0);
    RunGoesOn(EMPTY, es, 1);
    RunGoesOn(EMPTY, es, 2);
    RunGoesOn(EMPTY, es, 3);
    assert es[..4] == es;
    RunSnoc(EMPTY, es, BackgroundEnd(0, true));
  }

  lemma RunCons(q: Queue, e: Event, es: seq<Event>)
    requires Enabled(q, e) && Runs(Apply(q, e), es)
    ensures Runs(q, [e] + es) && Exec(q, [e] + es) == Exec(Apply(q, e), es)
  {
    assert ([e] + es)[1..] == es;
  }
}
