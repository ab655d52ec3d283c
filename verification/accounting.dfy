/** What the downloader does with each result: the counters of
    `handleResults` and the destructive speed sample of `calculateSpeed`
    (internal/core/core.go), and the result loop of main.go with its volume
    cap.

    The floating-point byte and gigabyte accumulators are kept as exact
    integer byte counts; gigabytes are bytes / 2^30 as an exact real.  Times
    are integer nanoseconds. */
module Accounting {
  import opened Base
  import opened Booru
  import opened CoreTypes

  /** The downloader's progress fields. */
  datatype Progress = Progress(
    downloaded: nat,        // downloadedCount
    total: nat,             // totalCount
    downloadedBytes: nat,   // downloadedGB, in bytes
    lastBytes: nat,         // bytes since the last speed sample
    startTime: int,
    lastTime: int)

  /** The reset at the top of `Run`. */
  function Reset(now: int): (c: Progress)
    ensures c.downloaded == 0 && c.total == 0 && c.downloadedBytes == 0 && c.lastBytes == 0
    ensures c.startTime == now && c.lastTime == now
  {
    Progress(0, 0, 0, 0, now, now)
  }

  /** A successful result is dereferenced for its size, so it must carry
      metadata; the worker guarantees this. */
  predicate Accountable(r: JobResult) {
    r.success ==> r.metadata.Some?
  }

  /** The bytes a result adds to the accumulators: its size on success, else 0. */
  function Bytes(r: JobResult): nat
    requires Accountable(r)
  {
    if r.success then r.metadata.value.size else 0
  }

  /** How many results succeeded, and how many bytes they carried. */
  function Successes(rs: seq<JobResult>): (n: nat)
    ensures n <= |rs|
  {
    if rs == [] then 0 else Successes(rs[..|rs| - 1]) + (if rs[|rs| - 1].success then 1 else 0)
  }

  function SuccessBytes(rs: seq<JobResult>): nat
    requires forall i :: 0 <= i < |rs| ==> Accountable(rs[i])
  {
    if rs == [] then 0 else SuccessBytes(rs[..|rs| - 1]) + Bytes(rs[|rs| - 1])
  }

  /** One iteration of `handleResults`: the total always grows by one; only a
      success grows the download count and the byte accumulators. */
  function HandleResult(c: Progress, r: JobResult): (d: Progress)
    requires Accountable(r)
    ensures d.total == c.total + 1
    ensures d.downloaded == c.downloaded + (if r.success then 1 else 0)
    ensures d.downloadedBytes == c.downloadedBytes + Bytes(r) && d.lastBytes == c.lastBytes + Bytes(r)
    ensures d.startTime == c.startTime && d.lastTime == c.lastTime
  {
    if r.success then
      c.(total := c.total + 1, downloaded := c.downloaded + 1,
         downloadedBytes := c.downloadedBytes + r.metadata.value.size,
         lastBytes := c.lastBytes + r.metadata.value.size)
    else c.(total := c.total + 1)
  }

  /** `handleResults` over a sequence of results, in order. */
  function HandleResults(c: Progress, rs: seq<JobResult>): (d: Progress)
    requires forall i :: 0 <= i < |rs| ==> Accountable(rs[i])
    ensures d.total == c.total + |rs|
    ensures d.downloaded == c.downloaded + Successes(rs)
    ensures d.downloadedBytes == c.downloadedBytes + SuccessBytes(rs)
    ensures d.lastBytes == c.lastBytes + SuccessBytes(rs)
    ensures d.startTime == c.startTime && d.lastTime == c.lastTime
  {
    if rs == [] then c else HandleResult(HandleResults(c, rs[..|rs| - 1]), rs[|rs| - 1])
  }

  /** From the reset, every result counts toward the total, skips and
      failures included, and the download count never exceeds it. */
  lemma CountsFromReset(now: int, rs: seq<JobResult>)
    requires forall i :: 0 <= i < |rs| ==> Accountable(rs[i])
    ensures HandleResults(Reset(now), rs).total == |rs|
    ensures HandleResults(Reset(now), rs).downloaded <= HandleResults(Reset(now), rs).total
    ensures (forall i :: 0 <= i < |rs| ==> !rs[i].success) ==> HandleResults(Reset(now), rs).downloaded == 0
  {
    if forall i :: 0 <= i < |rs| ==> !rs[i].success {
      NoSuccesses(rs);
    }
  }

  lemma {:induction false} NoSuccesses(rs: seq<JobResult>)
    requires forall i :: 0 <= i < |rs| ==> !rs[i].success
    ensures Successes(rs) == 0
  {
    if rs != [] {
      NoSuccesses(rs[..|rs| - 1]);
    }
  }

  /** `calculateSpeed`: KiB per second since the last sample.  With no time
      elapsed it returns 0 and changes nothing; otherwise it clears the byte
      count and moves the sample time to `now`, so the returned speed times
      the elapsed seconds is exactly the KiB that were counted. */
  function CalculateSpeed(c: Progress, now: int): (r: (Progress, real))
    ensures now == c.lastTime ==> r == (c, 0.0)
    ensures now != c.lastTime ==> r.0 == c.(lastBytes := 0, lastTime := now)
    ensures now != c.lastTime ==>
              r.1 * ((now - c.lastTime) as real / 1000000000.0) == c.lastBytes as real / 1024.0
  {
    var elapsed := (now - c.lastTime) as real / 1000000000.0;
    if elapsed == 0.0 then (c, 0.0)
    else (c.(lastBytes := 0, lastTime := now), (c.lastBytes as real / 1024.0) / elapsed)
  }

  /** The sample is destructive: sampling twice at the same instant gives 0
      the second time, whatever the first returned. */
  lemma SecondSampleAtSameInstantIsZero(c: Progress, now: int)
    ensures CalculateSpeed(CalculateSpeed(c, now).0, now).1 == 0.0
  {
  }

  const BytesPerGB: real := 1073741824.0

  /** The volume check of main.go's result loop: the limit is active when it
      is not 0, and is reached once the volume counted so far is at least
      the limit. */
  predicate LimitReached(volumeBytes: nat, limitGB: real) {
    volumeBytes as real / BytesPerGB >= limitGB && limitGB != 0.0
  }

  /** The observable run of main.go's result loop: for each result whether
      an interrupt was requested before it was counted, the volume counted,
      and how many `wg.Done` calls were made. */
  datatype Tally = Tally(interrupts: seq<bool>, volumeBytes: nat, done: nat)

  /** main.go's result loop over the results received so far. */
  function ResultLoop(rs: seq<JobResult>, limitGB: real): (t: Tally)
    requires forall i :: 0 <= i < |rs| ==> Accountable(rs[i])
    ensures |t.interrupts| == |rs| && t.done == |rs|
    ensures t.volumeBytes == SuccessBytes(rs)
    ensures forall i :: 0 <= i < |rs| ==> (t.interrupts[i] <==> LimitReached(SuccessBytes(rs[..i]), limitGB))
  {
    if rs == [] then Tally([], 0, 0)
    else
      var init := rs[..|rs| - 1];
      var t := ResultLoop(init, limitGB);
      assert forall i :: 0 <= i < |init| ==> rs[..i] == init[..i];
      assert rs[..|rs| - 1] == init;
      Tally(t.interrupts + [LimitReached(t.volumeBytes, limitGB)], t.volumeBytes + Bytes(rs[|rs| - 1]), t.done + 1)
  }

  lemma {:induction false} SuccessBytesMonotone(rs: seq<JobResult>, i: nat, j: nat)
    requires forall k :: 0 <= k < |rs| ==> Accountable(rs[k])
    requires i <= j <= |rs|
    ensures SuccessBytes(rs[..i]) <= SuccessBytes(rs[..j])
    decreases j - i
  {
    if i < j {
      SuccessBytesMonotone(rs, i, j - 1);
      assert rs[..j][..j - 1] == rs[..j - 1];
    }
  }

  /** Once the limit is reached the check fires for every later result, and
      the result that crosses the limit is still counted in full. */
  lemma LimitStaysReached(rs: seq<JobResult>, limitGB: real, i: nat, j: nat)
    requires forall k :: 0 <= k < |rs| ==> Accountable(rs[k])
    requires i <= j < |rs|
    requires ResultLoop(rs, limitGB).interrupts[i]
    ensures ResultLoop(rs, limitGB).interrupts[j]
    ensures ResultLoop(rs, limitGB).volumeBytes == SuccessBytes(rs)
  {
    SuccessBytesMonotone(rs, i, j);
  }

  /** With no limit (0) the loop never requests an interrupt. */
  lemma NoLimitNoInterrupt(rs: seq<JobResult>)
    requires forall k :: 0 <= k < |rs| ==> Accountable(rs[k])
    ensures forall i :: 0 <= i < |rs| ==> !ResultLoop(rs, 0.0).interrupts[i]
  {
  }
}
