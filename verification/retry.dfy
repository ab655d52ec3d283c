/** The retrying GET of internal/proxy/requests.go, of its older copy
    proxy/requests.go, and of util/retry.go, with the `GetContents` helpers
    built on them.

    `client.Get` is an oracle: `get(k)` is what the k-th call (counting from 0)
    returns.  A sleep is recorded as its length in whole seconds instead of
    being performed. */
module Retry {
  import opened Base

  /** The value of the global `MAXRETRIES` before any configuration sets it. */
  const DefaultMaxRetries: nat := 5

  /** An HTTP response: status code, Content-Type header, and what reading the
      body would produce. */
  datatype Response = Response(status: int, contentType: string, body: Result<seq<byte>>)

  /** What one `client.Get` call returns. */
  datatype Attempt = TransportError(reason: string) | Got(response: Response)

  /** A response the loop accepts at once: no transport error and a status
      outside the 5xx Server Error class (section 15.6 of RFC 9110). */
  predicate Final(a: Attempt) {
    a.Got? && a.response.status < 500
  }

  /** The error returned once every attempt has failed: the last transport
      error if there was one, else "status code: N" of the last response. */
  function ExhaustedError(last: Attempt): Error {
    match last
    case TransportError(reason) => Transport(reason)
    case Got(response) => RetriesExhausted(response.status)
  }

  /** The observable run of one retrying GET: its result, how many times
      `client.Get` was called, and the sleeps in order. */
  datatype Fetch = Fetch(outcome: Result<Response>, calls: nat, sleeps: seq<nat>)

  /** The k*k second backoffs after attempts 0 .. n-1. */
  function Backoffs(n: nat): seq<nat> {
    seq(n, k => k * k)
  }

  /** What the Go loop does with `maxRetries` as its bound: attempts stop at
      the first final response or after attempt `maxRetries`; a sleep of k*k
      seconds follows each failed attempt k except the last one. */
  ghost predicate IsRetryRun(get: nat -> Attempt, maxRetries: nat, f: Fetch) {
    && 1 <= f.calls <= maxRetries + 1
    && f.sleeps == Backoffs(f.calls - 1)
    && (forall j :: 0 <= j < f.calls - 1 ==> !Final(get(j)))
    && (f.outcome.Ok? ==> Final(get(f.calls - 1)) && f.outcome.value == get(f.calls - 1).response)
    && (f.outcome.Err? ==>
          && f.calls == maxRetries + 1
          && !Final(get(maxRetries))
          && f.outcome.error == ExhaustedError(get(maxRetries)))
  }

  /** At most one run fits the description. */
  lemma RetryRunUnique(get: nat -> Attempt, maxRetries: nat, f: Fetch, g: Fetch)
    requires IsRetryRun(get, maxRetries, f) && IsRetryRun(get, maxRetries, g)
    ensures f == g
  {
    var i: nat, j: nat := f.calls - 1, g.calls - 1;
    assert f.calls == g.calls by {
      assert i < j ==> !Final(get(i));
      assert j < i ==> !Final(get(j));
    }
  }

  /** The attempts from number k on. */
  function RetryFrom(get: nat -> Attempt, maxRetries: nat, k: nat): (f: Fetch)
    requires k <= maxRetries
    ensures k + 1 <= f.calls <= maxRetries + 1
    ensures f.sleeps == seq(f.calls - 1 - k, i => (k + i) * (k + i))
    ensures forall j :: k <= j < f.calls - 1 ==> !Final(get(j))
    ensures f.outcome.Ok? ==> Final(get(f.calls - 1)) && f.outcome.value == get(f.calls - 1).response
    ensures f.outcome.Err? ==>
              f.calls == maxRetries + 1 && !Final(get(maxRetries)) && f.outcome.error == ExhaustedError(get(maxRetries))
    decreases maxRetries - k
  {
    var a := get(k);
    if Final(a) then Fetch(Ok(a.response), k + 1, [])
    else if k < maxRetries then
      var rest := RetryFrom(get, maxRetries, k + 1);
      var sleeps := [k * k] + rest.sleeps;
      assert sleeps == seq(rest.calls - 1 - k, i => (k + i) * (k + i));
      Fetch(rest.outcome, rest.calls, sleeps)
    else Fetch(Err(ExhaustedError(a)), k + 1, [])
  }

  /** The retry discipline as a function: the run it describes is the one
      `IsRetryRun` characterises, and it succeeds exactly when some attempt
      within the budget is final. */
  function Retry(get: nat -> Attempt, maxRetries: nat): (f: Fetch)
    ensures IsRetryRun(get, maxRetries, f)
    ensures f.outcome.Ok? <==> exists j :: 0 <= j <= maxRetries && Final(get(j))
  {
    var f := RetryFrom(get, maxRetries, 0);
    assert f.sleeps == Backoffs(f.calls - 1);
    f
  }

  /** `DoGETRetry` with the bound `MAXRETRIES` passed in: the loop of
      internal/proxy/requests.go and proxy/requests.go, which sleeps only when
      `attempt < MAXRETRIES`. */
  method DoGETRetry(get: nat -> Attempt, maxRetries: nat) returns (r: Result<Response>, calls: nat, sleeps: seq<nat>)
    ensures IsRetryRun(get, maxRetries, Fetch(r, calls, sleeps))
  {
    var attempt: nat := 0;
    var last := get(0);
    calls := 0;
    sleeps := [];
    while attempt <= maxRetries
      invariant attempt <= maxRetries + 1
      invariant calls == attempt
      invariant sleeps == Backoffs(if attempt <= maxRetries then attempt else maxRetries)
      invariant forall j :: 0 <= j < attempt ==> !Final(get(j))
      invariant attempt > 0 ==> last == get(attempt - 1)
    {
      var a := get(attempt);
      calls := calls + 1;
      last := a;
      if Final(a) {
        return Ok(a.response), calls, sleeps;
      }
      if attempt < maxRetries {
        sleeps := sleeps + [attempt * attempt];
      }
      attempt := attempt + 1;
    }
    r := Err(ExhaustedError(last));
  }

  /** `DoGETRetry` of util/retry.go: the bound is the `retries` argument and
      the sleep guard is `attempt != retries`.  The run is the same as with
      the `attempt < MAXRETRIES` guard. */
  method DoGETRetryWithRetries(get: nat -> Attempt, retries: nat) returns (r: Result<Response>, calls: nat, sleeps: seq<nat>)
    ensures IsRetryRun(get, retries, Fetch(r, calls, sleeps))
    ensures Fetch(r, calls, sleeps) == Retry(get, retries)
  {
    var attempt: nat := 0;
    var last := get(0);
    calls := 0;
    sleeps := [];
    while attempt <= retries
      invariant attempt <= retries + 1
      invariant calls == attempt
      invariant sleeps == Backoffs(if attempt <= retries then attempt else retries)
      invariant forall j :: 0 <= j < attempt ==> !Final(get(j))
      invariant attempt > 0 ==> last == get(attempt - 1)
    {
      var a := get(attempt);
      calls := calls + 1;
      last := a;
      if Final(a) {
        r, sleeps := Ok(a.response), sleeps;
        RetryRunUnique(get, retries, Fetch(r, calls, sleeps), Retry(get, retries));
        return;
      }
      if attempt != retries {
        sleeps := sleeps + [attempt * attempt];
      }
      attempt := attempt + 1;
    }
    r := Err(ExhaustedError(last));
    RetryRunUnique(get, retries, Fetch(r, calls, sleeps), Retry(get, retries));
  }

  /** A constant "503 Service Unavailable" with a budget of three retries:
      four attempts, sleeps of 0, 1 and 4 seconds, and the error reports the
      last status. */
  lemma ConstantServiceUnavailable(get: nat -> Attempt)
    requires forall k :: get(k) == Got(Response(503, "", Ok([])))
    ensures Retry(get, 3).calls == 4
    ensures Retry(get, 3).sleeps == [0, 1, 4]
    ensures Retry(get, 3).outcome == Err(RetriesExhausted(503))
  {
    var f := Retry(get, 3);
    assert !Final(get(0)) && !Final(get(1)) && !Final(get(2)) && !Final(get(3));
    assert f.outcome.Err?;
  }

  /** A first response outside the 5xx class (2xx, 3xx or 4xx) is returned
      at once, with no retry and no sleep. */
  lemma FirstFinalResponseNotRetried(get: nat -> Attempt, maxRetries: nat)
    requires Final(get(0))
    ensures Retry(get, maxRetries) == Fetch(Ok(get(0).response), 1, [])
  {
    var f := Retry(get, maxRetries);
    var first: nat := 0;
    assert f.calls > 1 ==> !Final(get(first));
  }

  /** With no retries allowed there is exactly one attempt and no sleep. */
  lemma NoRetriesOneAttempt(get: nat -> Attempt)
    ensures Retry(get, 0).calls == 1 && Retry(get, 0).sleeps == []
  {
  }

  /** `GetContents` of internal/proxy/requests.go (and its identical older
      copy): the retrying GET, then exactly 200 OK (section 15.3.1 of RFC 9110),
      then the whole body. */
  function GetContents(get: nat -> Attempt, maxRetries: nat): (r: Result<seq<byte>>)
    ensures r.Ok? ==>
              exists k :: && 0 <= k <= maxRetries
                          && (forall j :: 0 <= j < k ==> !Final(get(j)))
                          && get(k).Got? && get(k).response.status == 200 && get(k).response.body == Ok(r.value)
    ensures Retry(get, maxRetries).outcome.Err? ==> r == Err(Retry(get, maxRetries).outcome.error)
    ensures Retry(get, maxRetries).outcome.Ok? && Retry(get, maxRetries).outcome.value.status != 200 ==>
              r == Err(UnexpectedStatus(Retry(get, maxRetries).outcome.value.status))
    ensures Retry(get, maxRetries).outcome.Ok? && Retry(get, maxRetries).outcome.value.status == 200 ==>
              r == Retry(get, maxRetries).outcome.value.body
  {
    var f := Retry(get, maxRetries);
    match f.outcome
    case Err(e) => Err(e)
    case Ok(response) =>
      if response.status != 200 then Err(UnexpectedStatus(response.status))
      else
        assert forall j :: 0 <= j < f.calls - 1 ==> !Final(get(j));
        match response.body
        case Err(e) => Err(e)
        case Ok(data) => Ok(data)
  }

  /** Accepted responses other than 200 (204, 301, 404, ...) become errors. */
  lemma NonOkStatusRejected(get: nat -> Attempt, maxRetries: nat)
    requires get(0).Got? && get(0).response.status < 500 && get(0).response.status != 200
    ensures GetContents(get, maxRetries) == Err(UnexpectedStatus(get(0).response.status))
  {
    FirstFinalResponseNotRetried(get, maxRetries);
  }
}
