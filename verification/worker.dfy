/** The per-post `workerFunc` of internal/core/core.go, whose older twin is
    the closure in main.go.

    A post is anything the `Post` interface can be asked about; `PostOps`
    collects those questions as functions.  `SaveMedia` returns the post as
    it is afterwards (it records the hash, and for the current Gelbooru post
    also the size), with the network and file system already fixed inside
    it.  The rate limiter's `Wait` is an oracle outcome per call. */
module Worker {
  import opened Base
  import opened Booru
  import opened CoreTypes

  datatype PostOps<!P> = PostOps(
    isImage: P -> bool,
    isVideo: P -> bool,
    size: P -> nat,
    metadata: P -> Metadata,
    saveMedia: P -> (P, Outcome),
    saveMetadata: P -> Outcome)

  /** The three filters of the configuration: images only, videos only, and
      the file-size cap in MiB (0 for no cap). */
  datatype Filters = Filters(imagesOnly: bool, videosOnly: bool, maxFileSizeMB: nat)

  const MiB: nat := 1048576

  /** The size cap as the code computes it: whole mebibytes, rounded down,
      compared with the cap. */
  predicate TooLarge(size: nat, capMB: nat) {
    capMB != 0 && size / 1024 / 1024 > capMB
  }

  /** Because of the rounding down, a file is rejected only once it reaches
      a full mebibyte above the cap. */
  lemma TooLargeIff(size: nat, capMB: nat)
    ensures TooLarge(size, capMB) <==> capMB != 0 && size >= (capMB + 1) * MiB
  {
    var q := size / 1024 / 1024;
    assert q == size / MiB by {
      var a := size / 1024;
      assert size == a * 1024 + size % 1024;
      assert a == q * 1024 + a % 1024;
      assert size == q * MiB + (a % 1024) * 1024 + size % 1024;
    }
    assert size == q * MiB + size % MiB;
    if capMB != 0 {
      if q > capMB {
        assert q >= capMB + 1;
        assert q * MiB >= (capMB + 1) * MiB;
      } else {
        assert q * MiB <= capMB * MiB;
      }
    }
  }

  /** So a file up to one byte short of a mebibyte over the cap still passes. */
  lemma TooLargeSlack(capMB: nat)
    requires capMB != 0
    ensures !TooLarge(capMB * MiB + MiB - 1, capMB)
    ensures TooLarge((capMB + 1) * MiB, capMB)
  {
    TooLargeIff(capMB * MiB + MiB - 1, capMB);
    TooLargeIff((capMB + 1) * MiB, capMB);
  }

  /** Whether one of the filters rejects the post. */
  predicate Filtered<P>(ops: PostOps<P>, f: Filters, p: P) {
    || (f.imagesOnly && !ops.isImage(p))
    || (f.videosOnly && !ops.isVideo(p))
    || TooLarge(ops.size(p), f.maxFileSizeMB)
  }

  /** The worker's decision for one post.  A limiter failure gives a result
      with no metadata before anything else happens; a filtered post is
      skipped with the metadata it had before any download; otherwise the
      media and then the metadata are saved, and only when both succeed is
      the result a success.  No result is both a success and a skip, and
      every result after a passed limiter carries metadata. */
  function WorkerFunc<P>(ops: PostOps<P>, f: Filters, limiter: Outcome, p: P): (r: JobResult)
    ensures !(r.success && r.skip)
    ensures r.metadata.None? <==> limiter.Fail?
    ensures r.skip <==> limiter.Pass? && Filtered(ops, f, p)
    ensures r.skip ==> r.metadata == Some(ops.metadata(p))
    ensures r.success <==>
              && limiter.Pass?
              && !Filtered(ops, f, p)
              && ops.saveMedia(p).1.Pass?
              && ops.saveMetadata(ops.saveMedia(p).0).Pass?
    ensures limiter.Pass? && !Filtered(ops, f, p) ==> r.metadata == Some(ops.metadata(ops.saveMedia(p).0))
  {
    if limiter.Fail? then NewResult(false, false, None)
    else if f.imagesOnly && !ops.isImage(p) then NewResult(false, true, Some(ops.metadata(p)))
    else if f.videosOnly && !ops.isVideo(p) then NewResult(false, true, Some(ops.metadata(p)))
    else if f.maxFileSizeMB != 0 && ops.size(p) / 1024 / 1024 > f.maxFileSizeMB then
      NewResult(false, true, Some(ops.metadata(p)))
    else
      var saved := ops.saveMedia(p);
      var q := saved.0;
      if saved.1.Fail? then NewResult(false, false, Some(ops.metadata(q)))
      else if ops.saveMetadata(q).Fail? then NewResult(false, false, Some(ops.metadata(q)))
      else NewResult(true, false, Some(ops.metadata(q)))
  }

  /** The worker asks whether a post is an image or a video only when the
      limiter passed and the images-only or videos-only filter is set;
      otherwise any answer to those questions gives the same result. */
  lemma ClassificationUnused<P>(ops: PostOps<P>, f: Filters, limiter: Outcome, p: P,
                                isImage: P -> bool, isVideo: P -> bool)
    requires !(limiter.Pass? && (f.imagesOnly || f.videosOnly))
    ensures WorkerFunc(ops.(isImage := isImage, isVideo := isVideo), f, limiter, p) == WorkerFunc(ops, f, limiter, p)
  {
  }

  /** A post whose size is 0 when the filter runs is never rejected by the
      size cap: the worker behaves as if there were no cap. */
  lemma ZeroSizeIgnoresCap<P>(ops: PostOps<P>, f: Filters, limiter: Outcome, p: P)
    requires ops.size(p) == 0
    ensures WorkerFunc(ops, f, limiter, p) == WorkerFunc(ops, f.(maxFileSizeMB := 0), limiter, p)
  {
    assert !TooLarge(ops.size(p), f.maxFileSizeMB);
  }
}
