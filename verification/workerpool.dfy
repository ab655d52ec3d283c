/** The generic worker pool of internal/workerpool/pool.go (workerpool/pool.go
    is an identical older copy) as a state machine over an immutable record.

    The two Go channels are bounded queues of capacity `workerCount`.  A
    worker goroutine is split into atomic steps: `Take` receives a job,
    `Emit` sends `workerFunc(job)` on Results, `Exit` leaves once Jobs is
    closed and empty (its deferred `wg.Done`).  A blocking channel operation
    is a step that is not enabled; a send on or close of a closed channel,
    which panics in Go, is excluded by a precondition.  The record also keeps
    the history (`submitted`, `emitted`) that the conservation invariant
    talks about. */
module WorkerPool {
  import opened Base

  datatype Pool<!J, R> = Pool(
    capacity: nat,            // buffer size of both Jobs and Results
    workers: nat,             // len(Workers)
    work: Option<J -> R>,     // the workerFunc given to Start
    live: nat,                // workers that have not exited (the wait group's count)
    jobs: seq<J>,             // jobs buffered in Jobs, oldest first
    busy: seq<J>,             // jobs taken by a worker whose result is not yet sent
    emitted: seq<J>,          // the job behind each result sent so far
    sent: seq<R>,             // every result sent on Results, in order
    received: nat,            // how many of `sent` the consumer has taken
    submitted: seq<J>,        // every job ever submitted, in order
    jobsClosed: bool,
    resultsClosed: bool)

  /** `f` applied to every element. */
  function MapSeq<J, R>(f: J -> R, s: seq<J>): (r: seq<R>)
    ensures |r| == |s|
    ensures forall i :: 0 <= i < |s| ==> r[i] == f(s[i])
  {
    if s == [] then [] else [f(s[0])] + MapSeq(f, s[1..])
  }

  lemma {:induction false} MapSeqAppend<J, R>(f: J -> R, a: seq<J>, b: seq<J>)
    ensures MapSeq(f, a + b) == MapSeq(f, a) + MapSeq(f, b)
  {
    assert |MapSeq(f, a + b)| == |MapSeq(f, a) + MapSeq(f, b)|;
    forall i | 0 <= i < |a + b| ensures MapSeq(f, a + b)[i] == (MapSeq(f, a) + MapSeq(f, b))[i] {
      if i >= |a| {
        assert (a + b)[i] == b[i - |a|];
      }
    }
  }

  lemma MultisetCancel<T>(a: multiset<T>, b: multiset<T>, x: T)
    requires a + multiset{x} == b + multiset{x}
    ensures a == b
  {
    forall y ensures a[y] == b[y] {
      assert (a + multiset{x})[y] == (b + multiset{x})[y];
    }
  }

  /** Removing the element at `k` before or after mapping is the same. */
  lemma MapSeqRemove<J, R>(f: J -> R, b: seq<J>, k: nat)
    requires k < |b|
    ensures multiset(MapSeq(f, b)) == multiset(MapSeq(f, b[..k] + b[k + 1..])) + multiset{f(b[k])}
  {
    var pre, post := b[..k], b[k + 1..];
    assert b == pre + ([b[k]] + post);
    MapSeqAppend(f, pre, [b[k]] + post);
    MapSeqAppend(f, [b[k]], post);
    MapSeqAppend(f, pre, post);
  }

  lemma RemoveAt<T>(b: seq<T>, k: nat)
    requires k < |b|
    ensures multiset(b) == multiset(b[..k] + b[k + 1..]) + multiset{b[k]}
  {
    assert b == b[..k] + [b[k]] + b[k + 1..];
  }

  /** Applying `f` to two arrangements of the same jobs gives two arrangements
      of the same results. */
  lemma {:induction false} MapSeqPermutation<J, R>(f: J -> R, a: seq<J>, b: seq<J>)
    requires multiset(a) == multiset(b)
    ensures multiset(MapSeq(f, a)) == multiset(MapSeq(f, b))
    decreases |a|
  {
    if a == [] {
      assert |b| == |multiset(b)| == 0;
    } else {
      var x := a[0];
      assert x in multiset(b);
      var k :| 0 <= k < |b| && b[k] == x;
      var rest := b[..k] + b[k + 1..];
      RemoveAt(a, 0);
      RemoveAt(b, k);
      assert a[..0] + a[1..] == a[1..];
      MultisetCancel(multiset(a[1..]), multiset(rest), x);
      MapSeqPermutation(f, a[1..], rest);
      MapSeqRemove(f, a, 0);
      MapSeqRemove(f, b, k);
    }
  }

  /** The pool's invariant.  The central clause is conservation of jobs:
      every submitted job is queued, held by a busy worker, or has had its
      result sent, exactly once; and each sent result is `workerFunc` of its
      job. */
  ghost predicate Valid<J, R>(p: Pool<J, R>) {
    && p.capacity == p.workers
    && |p.jobs| <= p.capacity
    && p.received <= |p.sent|
    && |p.sent| - p.received <= p.capacity
    && |p.sent| == |p.emitted|
    && multiset(p.submitted) == multiset(p.jobs) + multiset(p.busy) + multiset(p.emitted)
    && (p.work.None? ==> p.live == 0 && p.busy == [] && p.emitted == [])
    && (p.work.Some? ==>
          && |p.busy| <= p.live <= p.workers
          && (p.live < p.workers ==> p.jobsClosed && p.jobs == [])
          && p.sent == MapSeq(p.work.value, p.emitted))
    && (p.resultsClosed ==> p.jobsClosed && p.live == 0)
  }

  /** `NewPool`: both channels get capacity `workerCount`, and there are
      `workerCount` workers, none running yet. */
  function NewPool<J, R>(workerCount: nat): (p: Pool<J, R>)
    ensures Valid(p)
    ensures p.capacity == workerCount && p.workers == workerCount
    ensures p.work.None? && p.live == 0
    ensures p.jobs == [] && p.submitted == [] && p.sent == [] && p.received == 0
    ensures !p.jobsClosed && !p.resultsClosed
  {
    Pool(workerCount, workerCount, None, 0, [], [], [], [], 0, [], false, false)
  }

  /** `Submit` can complete: Jobs is open and its buffer has room. */
  predicate CanSubmit<J, R>(p: Pool<J, R>) {
    !p.jobsClosed && |p.jobs| < p.capacity
  }

  /** With no workers both channels are unbuffered and nobody receives, so
      no `Submit` can ever complete. */
  lemma ZeroWorkersNeverAccept<J, R>(p: Pool<J, R>)
    requires Valid(p) && p.workers == 0
    ensures !CanSubmit(p)
  {
  }

  /** `Start`: the wait group counts every worker and each runs `f`. */
  function Start<J, R>(p: Pool<J, R>, f: J -> R): (q: Pool<J, R>)
    requires Valid(p) && p.work.None? && !p.jobsClosed
    ensures Valid(q)
    ensures q.work == Some(f) && q.live == q.workers == p.workers
    ensures q.jobs == p.jobs && q.submitted == p.submitted && q.busy == [] && q.sent == []
    ensures q.capacity == p.capacity && q.received == p.received
    ensures q.jobsClosed == p.jobsClosed && q.resultsClosed == p.resultsClosed
  {
    p.(work := Some(f), live := p.workers)
  }

  /** `Submit`: exactly one job joins the back of the queue. */
  function Submit<J, R>(p: Pool<J, R>, j: J): (q: Pool<J, R>)
    requires Valid(p) && CanSubmit(p)
    ensures Valid(q)
    ensures q.jobs == p.jobs + [j] && q.submitted == p.submitted + [j]
    ensures q.busy == p.busy && q.emitted == p.emitted && q.sent == p.sent && q.received == p.received
    ensures q.work == p.work && q.live == p.live && q.capacity == p.capacity && q.workers == p.workers
    ensures q.jobsClosed == p.jobsClosed && q.resultsClosed == p.resultsClosed
  {
    p.(jobs := p.jobs + [j], submitted := p.submitted + [j])
  }

  /** A worker can receive a job: the pool is started, a job is queued and
      some live worker is idle. */
  predicate CanTake<J, R>(p: Pool<J, R>) {
    p.work.Some? && p.jobs != [] && |p.busy| < p.live
  }

  /** A worker receives the oldest queued job. */
  function Take<J, R>(p: Pool<J, R>): (q: Pool<J, R>)
    requires Valid(p) && CanTake(p)
    ensures Valid(q)
    ensures q.jobs == p.jobs[1..] && q.busy == p.busy + [p.jobs[0]]
    ensures q.emitted == p.emitted && q.sent == p.sent && q.received == p.received && q.submitted == p.submitted
    ensures q.work == p.work && q.live == p.live && q.capacity == p.capacity && q.workers == p.workers
    ensures q.jobsClosed == p.jobsClosed && q.resultsClosed == p.resultsClosed
  {
    assert p.jobs == [p.jobs[0]] + p.jobs[1..];
    p.(jobs := p.jobs[1..], busy := p.busy + [p.jobs[0]])
  }

  /** The worker holding `busy[i]` can send its result: Results has room. */
  predicate CanEmit<J, R>(p: Pool<J, R>, i: nat) {
    p.work.Some? && i < |p.busy| && |p.sent| - p.received < p.capacity
  }

  /** A worker sends `workerFunc(job)` for the job it holds: one job, one
      result. */
  function Emit<J, R>(p: Pool<J, R>, i: nat): (q: Pool<J, R>)
    requires Valid(p) && CanEmit(p, i)
    ensures Valid(q)
    ensures q.sent == p.sent + [p.work.value(p.busy[i])]
    ensures q.emitted == p.emitted + [p.busy[i]]
    ensures q.busy == p.busy[..i] + p.busy[i + 1..]
    ensures q.jobs == p.jobs && q.received == p.received && q.submitted == p.submitted
    ensures q.work == p.work && q.live == p.live && q.capacity == p.capacity && q.workers == p.workers
    ensures q.jobsClosed == p.jobsClosed && q.resultsClosed == p.resultsClosed
  {
    var j := p.busy[i];
    assert p.busy == p.busy[..i] + [j] + p.busy[i + 1..];
    MapSeqAppend(p.work.value, p.emitted, [j]);
    p.(busy := p.busy[..i] + p.busy[i + 1..], emitted := p.emitted + [j], sent := p.sent + [p.work.value(j)])
  }

  /** An idle worker can leave: its `range` over a closed, empty Jobs ends. */
  predicate CanExit<J, R>(p: Pool<J, R>) {
    p.work.Some? && p.jobsClosed && p.jobs == [] && |p.busy| < p.live
  }

  /** A worker exits and its deferred `wg.Done` lowers the count. */
  function Exit<J, R>(p: Pool<J, R>): (q: Pool<J, R>)
    requires Valid(p) && CanExit(p)
    ensures Valid(q)
    ensures q.live == p.live - 1
    ensures q.jobs == p.jobs && q.busy == p.busy && q.emitted == p.emitted && q.sent == p.sent
    ensures q.received == p.received && q.submitted == p.submitted
    ensures q.work == p.work && q.capacity == p.capacity && q.workers == p.workers
    ensures q.jobsClosed == p.jobsClosed && q.resultsClosed == p.resultsClosed
  {
    p.(live := p.live - 1)
  }

  /** The consumer takes the oldest result from the channel `GetResults`
      returns.  It is the pool's own Results channel, so the consumer sees
      exactly what the workers sent, in the order they sent it. */
  function Receive<J, R>(p: Pool<J, R>): (q: (Pool<J, R>, R))
    requires Valid(p) && p.received < |p.sent|
    ensures Valid(q.0)
    ensures q.1 == p.sent[p.received]
    ensures p.work.Some? ==> q.1 == p.work.value(p.emitted[p.received])
    ensures q.0.received == p.received + 1
    ensures q.0.jobs == p.jobs && q.0.busy == p.busy && q.0.emitted == p.emitted && q.0.sent == p.sent
    ensures q.0.submitted == p.submitted && q.0.live == p.live
    ensures q.0.work == p.work && q.0.capacity == p.capacity && q.0.workers == p.workers
    ensures q.0.jobsClosed == p.jobsClosed && q.0.resultsClosed == p.resultsClosed
  {
    (p.(received := p.received + 1), p.sent[p.received])
  }

  /** The first half of `Shutdown`: `close(Jobs)`.  A second close panics. */
  function CloseJobs<J, R>(p: Pool<J, R>): (q: Pool<J, R>)
    requires Valid(p) && !p.jobsClosed
    ensures Valid(q) && q.jobsClosed
    ensures q.jobs == p.jobs && q.busy == p.busy && q.emitted == p.emitted && q.sent == p.sent
    ensures q.received == p.received && q.submitted == p.submitted && q.live == p.live
    ensures q.work == p.work && q.capacity == p.capacity && q.workers == p.workers
    ensures q.resultsClosed == p.resultsClosed
  {
    p.(jobsClosed := true)
  }

  /** The last half of `Shutdown`: once `wg.Wait` returns (no live worker),
      `close(Results)`.  At that point a started pool has sent one result for
      every job ever submitted. */
  function CloseResults<J, R>(p: Pool<J, R>): (q: Pool<J, R>)
    requires Valid(p) && p.jobsClosed && p.live == 0 && !p.resultsClosed
    ensures Valid(q) && q.resultsClosed
    ensures p.work.Some? ==> q.jobs == [] && q.busy == [] && multiset(q.emitted) == multiset(q.submitted)
    ensures q.jobs == p.jobs && q.busy == p.busy && q.emitted == p.emitted && q.sent == p.sent
    ensures q.received == p.received && q.submitted == p.submitted && q.live == p.live
    ensures q.work == p.work && q.capacity == p.capacity && q.workers == p.workers
  {
    p.(resultsClosed := true)
  }

  /** One step of a worker goroutine. */
  datatype Step = TakeJob | EmitResult(index: nat) | ExitWorker

  predicate Enabled<J, R>(p: Pool<J, R>, s: Step) {
    match s
    case TakeJob => CanTake(p)
    case EmitResult(i) => CanEmit(p, i)
    case ExitWorker => CanExit(p)
  }

  /** A worker step keeps the invariant and never touches what the producer
      or the consumer own: the submissions, the consumer's position and the
      channel states. */
  function Advance<J, R>(p: Pool<J, R>, s: Step): (q: Pool<J, R>)
    requires Valid(p) && Enabled(p, s)
    ensures Valid(q)
    ensures q.submitted == p.submitted && q.received == p.received && p.sent <= q.sent
    ensures q.work == p.work && q.capacity == p.capacity && q.workers == p.workers
    ensures q.jobsClosed == p.jobsClosed && q.resultsClosed == p.resultsClosed
  {
    match s
    case TakeJob => Take(p)
    case EmitResult(i) => Emit(p, i)
    case ExitWorker => Exit(p)
  }

  /** Work still to do: every queued job needs a take and a send, every busy
      worker a send, every buffered result a receive, every live worker an
      exit. */
  function Pending<J, R>(p: Pool<J, R>): nat
    requires p.received <= |p.sent|
  {
    3 * |p.jobs| + 2 * |p.busy| + (|p.sent| - p.received) + p.live
  }

  /** After `close(Jobs)`, with a consumer that keeps receiving, the workers
      always finish: some order of steps reaches a state where every worker
      has exited, nothing is queued or held, and every result was received.
      So `wg.Wait` in `Shutdown` returns. */
  function Drain<J, R>(p: Pool<J, R>): (q: Pool<J, R>)
    requires Valid(p) && p.work.Some? && p.jobsClosed && !p.resultsClosed
    ensures Valid(q) && q.jobsClosed && !q.resultsClosed
    ensures q.live == 0 && q.jobs == [] && q.busy == [] && q.received == |q.sent|
    ensures q.submitted == p.submitted && p.sent <= q.sent
    ensures q.work == p.work && q.capacity == p.capacity && q.workers == p.workers
    decreases Pending(p)
  {
    if p.received < |p.sent| then Drain(Receive(p).0)
    else if p.busy != [] then Drain(Advance(p, EmitResult(0)))
    else if p.jobs != [] then Drain(Advance(p, TakeJob))
    else if p.live > 0 then Drain(Advance(p, ExitWorker))
    else p
  }

  /** `Shutdown`: close Jobs, let the workers drain it while the consumer
      receives, then close Results.  For a started pool the results sent are
      then exactly `workerFunc` of the submitted jobs, each once, in some
      order, and the results sent before the call are kept in front.  A pool
      that was never started has no worker to wait for. */
  function Shutdown<J, R>(p: Pool<J, R>): (q: Pool<J, R>)
    requires Valid(p) && !p.jobsClosed
    ensures Valid(q) && q.jobsClosed && q.resultsClosed && q.live == 0
    ensures q.submitted == p.submitted && p.sent <= q.sent
    ensures p.work.Some? ==> q.received == |q.sent|
    ensures p.work.Some? ==> multiset(q.sent) == multiset(MapSeq(p.work.value, p.submitted))
    ensures q.work == p.work && q.capacity == p.capacity && q.workers == p.workers
  {
    if p.work.None? then CloseResults(CloseJobs(p))
    else
      var q := CloseResults(Drain(CloseJobs(p)));
      MapSeqPermutation(p.work.value, q.emitted, q.submitted);
      q
  }
}
