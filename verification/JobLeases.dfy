/** The queue under lease discipline: a worker's finishing write lands before its own lease runs out
    or never lands, and no background runner shares the table.  A worker that crashes simply never
    performs its finishing step. */
module JobLeases {
  import opened Wrappers
  import opened JobQueue

  /** A claim some worker is still working on. */
  datatype Lease = Lease(job: nat, worker: string, expiry: real, attempt: nat)

  /** `delays[j]` is the total retry delay scheduled so far for job `j`. */
  datatype Leased = Leased(queue: Queue, held: set<Lease>, delays: seq<int>)

  datatype Step =
    | Submit(incident: nat, maxAttempts: nat, availableAt: real)
    | Pass(elapsed: real)
    | Take(job: nat, lease: real, worker: string)
    | Complete(of: Lease, success: bool)

  /** The queue event a step performs. */
  function EventOf(s: Step): Event {
    match s
    case Submit(incident, max, at) => Enqueue(incident, max, at)
    case Pass(elapsed) => Tick(elapsed)
    case Take(j, lease, worker) => Claim(j, lease, worker)
    case Complete(l, success) => Finish(l.job, success)
  }

  predicate CanStep(w: Leased, s: Step) {
    && Enabled(w.queue, EventOf(s))
    && (s.Complete? ==> s.of in w.held && w.queue.now <= s.of.expiry)
  }

  /** The delay a finishing write schedules: the backoff, when the job goes back to PENDING. */
  function DelayAdded(job: Job, success: bool): int {
    if !success && job.attempts < job.maxAttempts then Pow2(job.attempts) else 0
  }

  function Do(w: Leased, s: Step): Leased
    requires CanStep(w, s) && |w.delays| == |w.queue.jobs|
  {
    var queue := Apply(w.queue, EventOf(s));
    match s
    case Submit(_, _, _) => Leased(queue, w.held, w.delays + [0])
    case Pass(_) => Leased(queue, w.held, w.delays)
    case Take(j, _, worker) =>
      Leased(queue, w.held + {Lease(j, worker, queue.jobs[j].leaseExpiresAt.value, queue.jobs[j].attempts)}, w.delays)
    case Complete(l, success) =>
      Leased(queue, w.held - {l}, w.delays[l.job := w.delays[l.job] + DelayAdded(w.queue.jobs[l.job], success)])
  }

  ghost predicate Live(w: Leased, l: Lease) {
    l in w.held && w.queue.now <= l.expiry
  }

  /** A live lease is the one recorded on its row. */
  ghost predicate Matches(w: Leased, l: Lease) {
    && l.job < |w.queue.jobs|
    && w.queue.jobs[l.job].status == Running
    && w.queue.jobs[l.job].leaseExpiresAt == Some(l.expiry)
    && w.queue.jobs[l.job].attempts == l.attempt
    && w.queue.jobs[l.job].claimedBy == Some(l.worker)
  }

  /** The delays of attempts 1, 2, ..., n are 2, 4, ..., 2^n, which sum to 2^(n+1) - 2. */
  ghost predicate DelayWithin(job: Job, delay: int) {
    && Bounded(job)
    && (job.status == Pending ==> delay <= Pow2(job.attempts + 1) - 2)
    && (job.status != Pending ==> job.attempts >= 1 && delay <= Pow2(job.attempts) - 2)
  }

  ghost predicate Inv(w: Leased) {
    && |w.delays| == |w.queue.jobs|
    && (forall j | 0 <= j < |w.queue.jobs| :: DelayWithin(w.queue.jobs[j], w.delays[j]))
    && (forall l | Live(w, l) :: Matches(w, l))
  }

  lemma StepKeepsInv(w: Leased, s: Step)
    requires Inv(w) && CanStep(w, s)
    ensures Inv(Do(w, s))
  {
    var w' := Do(w, s);
    if s.Complete? {
      assert Live(w, s.of) && Matches(w, s.of);
    }
    forall l | Live(w', l) ensures Matches(w', l) {
      if l in w.held {
        assert Live(w, l) && Matches(w, l);
      }
    }
  }

  /** The ledger is the rows' own: a failure that is retried adds to its job exactly the time from now to
      the instant the row is available again, and nothing else moves it. */
  lemma LedgerIsWaiting(w: Leased, s: Step, j: nat)
    requires Inv(w) && CanStep(w, s) && j < |w.queue.jobs|
    ensures var w' := Do(w, s);
            && j < |w'.queue.jobs| && j < |w'.delays|
            && (if s.Complete? && s.of.job == j && w'.queue.jobs[j].status == Pending
                then (w'.delays[j] - w.delays[j]) as real == w'.queue.jobs[j].availableAt - w'.queue.now
                else w'.delays[j] == w.delays[j])
  {
    if s.Complete? {
      assert Live(w, s.of) && Matches(w, s.of);
    }
  }

  predicate Plays(w: Leased, ss: seq<Step>)
    decreases |ss|
  {
    ss == [] || (|w.delays| == |w.queue.jobs| && CanStep(w, ss[0]) && Plays(Do(w, ss[0]), ss[1..]))
  }

  function Play(w: Leased, ss: seq<Step>): Leased
    requires Plays(w, ss)
    decreases |ss|
  {
    if ss == [] then w else Play(Do(w, ss[0]), ss[1..])
  }

  lemma {:induction false} RunKeepsInv(w: Leased, ss: seq<Step>)
    requires Inv(w) && Plays(w, ss)
    ensures Inv(Play(w, ss))
    decreases |ss|
  {
    if ss == [] {
    } else {
      StepKeepsInv(w, ss[0]);
      RunKeepsInv(Do(w, ss[0]), ss[1..]);
    }
  }

  function EventsOf(ss: seq<Step>): (es: seq<Event>)
    ensures |es| == |ss|
  {
    if ss == [] then [] else [EventOf(ss[0])] + EventsOf(ss[1..])
  }

  /** A disciplined run is one of the queue's runs, so every bound proved there holds here too. */
  lemma {:induction false} DisciplinedRunsAreQueueRuns(w: Leased, ss: seq<Step>)
    requires Plays(w, ss)
    ensures Runs(w.queue, EventsOf(ss)) && Exec(w.queue, EventsOf(ss)) == Play(w, ss).queue
    decreases |ss|
  {
    if ss == [] {
    } else {
      DisciplinedRunsAreQueueRuns(Do(w, ss[0]), ss[1..]);
      RunCons(w.queue, EventOf(ss[0]), EventsOf(ss[1..]));
    }
  }

  /** Mutual exclusion: at every instant of every disciplined run, a job has at most one worker with
      an unexpired lease. */
  lemma AtMostOneUnexpiredLease(w: Leased, ss: seq<Step>, a: Lease, b: Lease)
    requires Inv(w) && Plays(w, ss)
    requires Live(Play(w, ss), a) && Live(Play(w, ss), b) && a.job == b.job
    ensures a == b
  {
    RunKeepsInv(w, ss);
    assert Matches(Play(w, ss), a) && Matches(Play(w, ss), b);
  }

  /** COMPLETED and FAILED are final: the whole row is frozen from then on. */
  lemma {:induction false} TerminalRowsAreFinal(w: Leased, ss: seq<Step>, j: nat)
    requires Inv(w) && Plays(w, ss)
    requires j < |w.queue.jobs| && w.queue.jobs[j].status in {Completed, Failed}
    ensures j < |Play(w, ss).queue.jobs| && Play(w, ss).queue.jobs[j] == w.queue.jobs[j]
    decreases |ss|
  {
    if ss == [] {
    } else {
      if ss[0].Complete? {
        assert Live(w, ss[0].of) && Matches(w, ss[0].of);
      }
      StepKeepsInv(w, ss[0]);
      TerminalRowsAreFinal(Do(w, ss[0]), ss[1..], j);
    }
  }

  lemma {:induction false} Pow2Monotone(a: nat, b: nat)
    requires a <= b
    ensures Pow2(a) <= Pow2(b)
    decreases b - a
  {
    if a < b {
      Pow2Monotone(a + 1, b);
    }
  }

  /** The retry delays ever scheduled for one job sum to at most 2^max_attempts - 2 seconds. */
  lemma RetryDelayBounded(w: Leased, ss: seq<Step>, j: nat)
    requires Inv(w) && Plays(w, ss) && j < |Play(w, ss).queue.jobs|
    ensures j < |Play(w, ss).delays|
    ensures Play(w, ss).delays[j] <= Pow2(Play(w, ss).queue.jobs[j].maxAttempts) - 2
  {
    RunKeepsInv(w, ss);
    var job := Play(w, ss).queue.jobs[j];
    assert DelayWithin(job, Play(w, ss).delays[j]);
    if job.status == Pending {
      Pow2Monotone(job.attempts + 1, job.maxAttempts);
    } else {
      Pow2Monotone(job.attempts, job.maxAttempts);
    }
  }

  lemma PlayCons(w: Leased, s: Step, ss: seq<Step>)
    requires |w.delays| == |w.queue.jobs| && CanStep(w, s) && Plays(Do(w, s), ss)
    ensures Plays(w, [s] + ss) && Play(w, [s] + ss) == Play(Do(w, s), ss)
  {
    assert ([s] + ss)[1..] == ss;
  }

  /** One job, PENDING and available after `k` failed attempts, each of which was retried. */
  ghost predicate Retried(w: Leased, max: nat, k: nat) {
    && |w.queue.jobs| == 1 && w.delays == [Pow2(k + 1) - 2] && w.held == {}
    && k < max && w.queue.jobs[0].maxAttempts == max && w.queue.jobs[0].attempts == k
    && w.queue.jobs[0].status == Pending && w.queue.jobs[0].availableAt <= w.queue.now
  }

  ghost predicate GivenUp(w: Leased, max: nat) {
    |w.queue.jobs| == 1 && w.queue.jobs[0].status == Failed && w.queue.jobs[0].attempts == max && w.delays == [Pow2(max) - 2]
  }

  /** Claimed and failed within the lease. */
  lemma FailOnce(w: Leased, max: nat, k: nat) returns (take: Step, fail: Step)
    requires Retried(w, max, k)
    ensures CanStep(w, take) && |Do(w, take).delays| == |Do(w, take).queue.jobs| && CanStep(Do(w, take), fail)
    ensures var v := Do(Do(w, take), fail);
            if k + 1 == max then GivenUp(v, max)
            else |v.delays| == |v.queue.jobs| && Retried(Do(v, Pass(Pow2(k + 1) as real)), max, k + 1)
  {
    take := Take(0, 10.0, "a");
    var lease := Lease(0, "a", w.queue.now + 10.0, k + 1);
    fail := Complete(lease, false);
    assert Do(w, take).held == {lease};
    assert Pow2(k + 2) == 2 * Pow2(k + 1);
  }

  lemma {:induction false} FailEveryAttempt(w: Leased, max: nat, k: nat) returns (ss: seq<Step>)
    requires Retried(w, max, k)
    ensures Plays(w, ss) && GivenUp(Play(w, ss), max)
    decreases max - k
  {
    var take, fail := FailOnce(w, max, k);
    var v := Do(Do(w, take), fail);
    if k + 1 == max {
      ss := [];
      assert Play(v, ss) == v;
    } else {
      var wait := Pass(Pow2(k + 1) as real);
      ss := FailEveryAttempt(Do(v, wait), max, k + 1);
      PlayCons(v, wait, ss);
      ss := [wait] + ss;
    }
    PlayCons(Do(w, take), fail, ss);
    PlayCons(w, take, [fail] + ss);
    ss := [take] + ([fail] + ss);
  }

  const NOTHING := Leased(EMPTY, {}, [])

  /** The bound is reached at every limit: a job that fails every attempt in time waits exactly that long
      before it is given up. */
  lemma DelayBoundIsTight(max: nat)
    requires max >= 1
    ensures exists ss: seq<Step> :: Plays(NOTHING, ss) && GivenUp(Play(NOTHING, ss), max)
  {
    var submit := Submit(7, max, 0.0);
    assert Pow2(1) == 2 && Retried(Do(NOTHING, submit), max, 0);
    var ss := FailEveryAttempt(Do(NOTHING, submit), max, 0);
    PlayCons(NOTHING, submit, ss);
  }
}
