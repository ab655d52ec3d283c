/** The `Downloader` of internal/core/core.go: a worker pool of posts, the
    progress counters fed by `handleResults`, the `shutdown` channel and the
    wait group that counts jobs in flight.

    Goroutines are interleaved as atomic steps: a worker step of the pool, one
    iteration of `handleResults`, one submission of the page loop.  `Stop` is
    split at its blocking `wg.Wait`: `RequestStop` closes the channel,
    `AwaitInflight` is the wait, and `FinishStop` runs once no job is in
    flight.  The rate limiter's answer for a post is an oracle. */
module Downloader {
  import opened Base
  import opened CoreTypes
  import opened Worker
  import opened Accounting
  import WorkerPool

  datatype Downloader<!P> = Downloader(
    ops: PostOps<P>,
    filters: Filters,
    limiter: P -> Outcome,
    pool: WorkerPool.Pool<Job<P>, JobResult>,
    progress: Progress,
    shutdown: bool,          // whether `shutdown` has been closed
    inflight: nat)           // the wait group's counter

  /** The function `Run` hands to the pool: `workerFunc` on the job's post. */
  function Work<P>(ops: PostOps<P>, f: Filters, limiter: P -> Outcome): Job<P> -> JobResult {
    (j: Job<P>) => WorkerFunc(ops, f, limiter(j.post), j.post)
  }

  /** Every result the pool has sent can be accounted: the worker never
      reports a success without metadata. */
  lemma SentAccountable<P>(ops: PostOps<P>, f: Filters, limiter: P -> Outcome,
                           pool: WorkerPool.Pool<Job<P>, JobResult>)
    requires WorkerPool.Valid(pool)
    requires pool.work.Some? ==> pool.work.value == Work(ops, f, limiter)
    ensures forall i :: 0 <= i < |pool.sent| ==> Accountable(pool.sent[i])
  {
    forall i | 0 <= i < |pool.sent|
      ensures Accountable(pool.sent[i])
    {
      var j := pool.emitted[i];
      var r := WorkerFunc(ops, f, limiter(j.post), j.post);
      assert pool.sent[i] == r;
    }
  }

  /** Conservation of jobs bounds the results: there are never more results
      than submissions. */
  lemma SentBounded<J, R>(pool: WorkerPool.Pool<J, R>)
    requires WorkerPool.Valid(pool)
    ensures |pool.jobs| + |pool.busy| + |pool.sent| == |pool.submitted|
  {
    calc {
      |pool.submitted|;
      |multiset(pool.submitted)|;
      |multiset(pool.jobs) + multiset(pool.busy) + multiset(pool.emitted)|;
      |pool.jobs| + |pool.busy| + |pool.emitted|;
    }
  }

  /** The downloader's invariant.  The wait group counts exactly the jobs
      whose result has not been handled; the counters are the fold of
      `handleResults` over the results handled so far; the bytes since the
      last speed sample never exceed the total; the pool's Jobs channel is
      closed only by `Stop`. */
  ghost predicate Valid<P>(d: Downloader<P>) {
    && WorkerPool.Valid(d.pool)
    && (d.pool.work.Some? ==> d.pool.work.value == Work(d.ops, d.filters, d.limiter))
    && (forall i :: 0 <= i < |d.pool.sent| ==> Accountable(d.pool.sent[i]))
    && d.pool.received + d.inflight == |d.pool.submitted|
    && d.progress.total == d.pool.received
    && d.progress.downloaded == Successes(d.pool.sent[..d.pool.received])
    && d.progress.downloadedBytes == SuccessBytes(d.pool.sent[..d.pool.received])
    && d.progress.lastBytes <= d.progress.downloadedBytes
    && (d.pool.jobsClosed ==> d.shutdown)
  }

  /** `NewDownloader`: a pool of `workerCount` workers, zero counters, not
      shut down, nothing in flight. */
  function New<P>(workerCount: nat, ops: PostOps<P>, f: Filters, limiter: P -> Outcome): (d: Downloader<P>)
    ensures Valid(d)
    ensures d.pool.workers == workerCount && d.pool.work.None?
    ensures d.progress.total == 0 && d.progress.downloaded == 0 && d.inflight == 0 && !d.shutdown
  {
    Downloader(ops, f, limiter, WorkerPool.NewPool(workerCount), Progress(0, 0, 0, 0, 0, 0), false, 0)
  }

  /** The start of `Run`: reset the counters, start the pool with the worker
      function. */
  function Start<P>(d: Downloader<P>, now: int): (e: Downloader<P>)
    requires Valid(d) && d.pool.work.None? && !d.shutdown
    ensures Valid(e)
    ensures e.progress == Reset(now)
    ensures e.pool.work == Some(Work(d.ops, d.filters, d.limiter)) && e.pool.live == d.pool.workers
    ensures e.pool.submitted == d.pool.submitted && e.inflight == d.inflight && !e.shutdown
  {
    assert d.pool.sent == [];
    d.(progress := Reset(now), pool := WorkerPool.Start(d.pool, Work(d.ops, d.filters, d.limiter)))
  }

  /** One submission of the page loop: `wg.Add(1)` then `pool.Submit`.  The
      loop only submits while `shutdown` is open. */
  function SubmitPost<P>(d: Downloader<P>, post: P): (e: Downloader<P>)
    requires Valid(d) && !d.shutdown && WorkerPool.CanSubmit(d.pool)
    ensures Valid(e)
    ensures e.pool.submitted == d.pool.submitted + [NewJob(post)]
    ensures e.inflight == d.inflight + 1
    ensures e.progress == d.progress && e.shutdown == d.shutdown
  {
    var e := d.(pool := WorkerPool.Submit(d.pool, NewJob(post)), inflight := d.inflight + 1);
    assert e.pool.sent[..e.pool.received] == d.pool.sent[..d.pool.received];
    e
  }

  /** A step of one of the pool's workers. */
  function WorkStep<P>(d: Downloader<P>, s: WorkerPool.Step): (e: Downloader<P>)
    requires Valid(d) && WorkerPool.Enabled(d.pool, s)
    ensures Valid(e)
    ensures e.pool.submitted == d.pool.submitted && e.inflight == d.inflight
    ensures e.progress == d.progress && e.shutdown == d.shutdown
  {
    var pool := WorkerPool.Advance(d.pool, s);
    assert pool.sent[..pool.received] == d.pool.sent[..d.pool.received];
    SentAccountable(d.ops, d.filters, d.limiter, pool);
    d.(pool := pool)
  }

  /** One iteration of `handleResults`: receive the next result, which is the
      worker function applied to some submitted job, account it, and
      `wg.Done`. */
  function HandleNext<P>(d: Downloader<P>): (e: (Downloader<P>, JobResult))
    requires Valid(d) && d.pool.received < |d.pool.sent|
    ensures Valid(e.0)
    ensures d.pool.work.Some? && e.1 == d.pool.work.value(d.pool.emitted[d.pool.received])
    ensures e.1 == WorkerFunc(d.ops, d.filters, d.limiter(d.pool.emitted[d.pool.received].post),
                              d.pool.emitted[d.pool.received].post)
    ensures e.0.progress == HandleResult(d.progress, e.1)
    ensures e.0.inflight + 1 == d.inflight
    ensures e.0.pool.submitted == d.pool.submitted && e.0.shutdown == d.shutdown
    ensures e.0.pool.received == d.pool.received + 1 && e.0.pool.sent == d.pool.sent
    ensures e.0.pool.jobs == d.pool.jobs && e.0.pool.busy == d.pool.busy && e.0.pool.live == d.pool.live
    ensures e.0.pool.work == d.pool.work && e.0.pool.jobsClosed == d.pool.jobsClosed
  {
    SentBounded(d.pool);
    var (pool, r) := WorkerPool.Receive(d.pool);
    var n := d.pool.received;
    assert pool.sent[..n + 1] == d.pool.sent[..n] + [r];
    assert pool.sent[..n + 1][..n] == d.pool.sent[..n];
    (d.(pool := pool, progress := HandleResult(d.progress, r), inflight := d.inflight - 1), r)
  }

  /** What `GetProgress` reports: the counters, the speed sample, and the
      volume in bytes. */
  datatype Report = Report(downloaded: nat, total: nat, speedKBps: real, downloadedBytes: nat)

  /** `GetProgress`: the counters as they are, and a speed sample, which
      clears the bytes since the last sample. */
  function GetProgress<P>(d: Downloader<P>, now: int): (e: (Downloader<P>, Report))
    requires Valid(d)
    ensures Valid(e.0)
    ensures e.1.downloaded == d.progress.downloaded <= e.1.total == d.progress.total
    ensures e.1.downloadedBytes == d.progress.downloadedBytes
    ensures (e.0.progress, e.1.speedKBps) == CalculateSpeed(d.progress, now)
    ensures e.0.pool == d.pool && e.0.inflight == d.inflight && e.0.shutdown == d.shutdown
  {
    var (progress, speed) := CalculateSpeed(d.progress, now);
    (d.(progress := progress),
     Report(d.progress.downloaded, d.progress.total, speed, d.progress.downloadedBytes))
  }

  /** `IsRunning`: whether `shutdown` is still open. */
  predicate IsRunning<P>(d: Downloader<P>) {
    !d.shutdown
  }

  /** The first half of `Stop`: `close(shutdown)`.  Closing it twice panics,
      hence the precondition. */
  function RequestStop<P>(d: Downloader<P>): (e: Downloader<P>)
    requires Valid(d) && !d.shutdown
    ensures Valid(e) && !IsRunning(e)
    ensures e.pool == d.pool && e.progress == d.progress && e.inflight == d.inflight
  {
    d.(shutdown := true)
  }

  /** The `wg.Wait` of `Stop` returns: while Jobs is still open every worker
      is live, so with `handleResults` receiving, some order of worker steps
      and result handling brings the jobs in flight down to none.  Every
      submission has then been handled, and nothing new was submitted. */
  function AwaitInflight<P>(d: Downloader<P>): (e: Downloader<P>)
    requires Valid(d) && d.shutdown && d.pool.work.Some? && !d.pool.jobsClosed
    ensures Valid(e) && e.inflight == 0 && !e.pool.jobsClosed && e.shutdown
    ensures e.pool.submitted == d.pool.submitted && e.pool.work == d.pool.work
    ensures e.progress.total == |d.pool.submitted|
    ensures d.pool.sent <= e.pool.sent
    decreases WorkerPool.Pending(d.pool)
  {
    SentBounded(d.pool);
    if d.pool.received < |d.pool.sent| then
      AwaitInflight(HandleNext(d).0)
    else if d.pool.busy != [] then
      AwaitInflight(WorkStep(d, WorkerPool.EmitResult(0)))
    else if d.pool.jobs != [] then
      AwaitInflight(WorkStep(d, WorkerPool.TakeJob))
    else
      d
  }

  /** `Stop` as a whole: close `shutdown`, wait for the jobs in flight, shut
      the pool down.  Every job submitted before the call is handled exactly
      once: the total is the number of submissions, and the results handled
      are the worker function over the submitted jobs, in some order.  On a
      downloader that was never run there is nothing to wait for, and the
      pool, which has no workers, shuts down at once. */
  function Stop<P>(d: Downloader<P>): (e: Downloader<P>)
    requires Valid(d) && !d.shutdown && !d.pool.jobsClosed && (d.pool.work.None? ==> d.inflight == 0)
    ensures Valid(e) && !IsRunning(e)
    ensures e.pool.resultsClosed && e.pool.live == 0 && e.inflight == 0
    ensures e.pool.submitted == d.pool.submitted && e.progress.total == |d.pool.submitted|
    ensures d.pool.work.Some? ==>
              multiset(e.pool.sent) == multiset(WorkerPool.MapSeq(Work(d.ops, d.filters, d.limiter), d.pool.submitted))
    ensures d.pool.work.None? ==> e.pool.sent == d.pool.sent && e.progress == d.progress
  {
    if d.pool.work.None? then FinishStop(RequestStop(d))
    else FinishStop(AwaitInflight(RequestStop(d)))
  }

  /** `Stop` before `Run`, as the signal handler or the first GUI toggle can
      call it: nothing was submitted, so the pool shuts down at once with no
      results and the counters stay at zero. */
  lemma StopBeforeRun<P>(workerCount: nat, ops: PostOps<P>, f: Filters, limiter: P -> Outcome)
    ensures var e := Stop(New(workerCount, ops, f, limiter));
            && !IsRunning(e) && e.pool.resultsClosed && e.pool.live == 0
            && e.pool.submitted == [] && e.pool.sent == [] && e.progress.total == 0
  {
  }

  /** The rest of `Stop`, once `wg.Wait` returns (nothing in flight): shut
      the pool down.  Every submitted job has then been handled exactly once:
      the total is the number of submissions, and the results handled are
      the worker function over the submitted jobs, in some order. */
  function FinishStop<P>(d: Downloader<P>): (e: Downloader<P>)
    requires Valid(d) && d.shutdown && d.inflight == 0 && !d.pool.jobsClosed
    ensures Valid(e) && !IsRunning(e)
    ensures e.pool.resultsClosed && e.pool.live == 0
    ensures e.progress == d.progress && e.progress.total == |d.pool.submitted|
    ensures e.pool.sent == d.pool.sent && e.pool.received == |e.pool.sent|
    ensures e.pool.work.Some? ==>
              multiset(e.pool.sent) == multiset(WorkerPool.MapSeq(Work(d.ops, d.filters, d.limiter), d.pool.submitted))
  {
    ShutdownAfterAllReceived(d.pool);
    var q := WorkerPool.Shutdown(d.pool);
    SamePoolResults(d, q);
    d.(pool := q)
  }

  /** Replacing the pool by one with the same submissions, results and
      worker function keeps the invariant, as long as Jobs is closed only
      after `shutdown`. */
  lemma SamePoolResults<P>(d: Downloader<P>, q: WorkerPool.Pool<Job<P>, JobResult>)
    requires Valid(d) && WorkerPool.Valid(q)
    requires q.work == d.pool.work && q.submitted == d.pool.submitted
    requires q.sent == d.pool.sent && q.received == d.pool.received
    requires q.jobsClosed ==> d.shutdown
    ensures Valid(d.(pool := q))
  {
  }

  /** Shutting down a pool whose results were all received sends and
      receives nothing more. */
  lemma ShutdownAfterAllReceived<J, R>(p: WorkerPool.Pool<J, R>)
    requires WorkerPool.Valid(p) && !p.jobsClosed && p.received == |p.submitted|
    ensures WorkerPool.Shutdown(p).sent == p.sent && WorkerPool.Shutdown(p).received == p.received
  {
    SentBounded(p);
    var q := WorkerPool.Shutdown(p);
    SentBounded(q);
    assert p.sent <= q.sent && |q.sent| <= |p.sent|;
  }

  /** Once `shutdown` is closed, no operation reopens it: every operation
      available afterwards leaves `IsRunning` false. */
  lemma StoppedStaysStopped<P>(d: Downloader<P>, s: WorkerPool.Step, now: int)
    requires Valid(d) && !IsRunning(d)
    ensures WorkerPool.Enabled(d.pool, s) ==> !IsRunning(WorkStep(d, s))
    ensures d.pool.received < |d.pool.sent| ==> !IsRunning(HandleNext(d).0)
    ensures !IsRunning(GetProgress(d, now).0)
    ensures d.inflight == 0 && !d.pool.jobsClosed ==> !IsRunning(FinishStop(d))
  {
  }

  /** The counters never overtake each other: downloads are at most the
      results handled, and the results handled plus those in flight are the
      submissions. */
  lemma CountersBounded<P>(d: Downloader<P>)
    requires Valid(d)
    ensures d.progress.downloaded <= d.progress.total <= |d.pool.submitted|
    ensures d.progress.total + d.inflight == |d.pool.submitted|
  {
  }
}
