/** The job and result records that flow through the downloader's worker
    pool (internal/core/types.go; main.go declares the same two records). */
module CoreTypes {
  import opened Base
  import opened Booru

  /** One post to process. */
  datatype Job<P> = Job(post: P)

  /** What processing one post produced.  `metadata` is `None` where Go
      passes a nil pointer. */
  datatype JobResult = JobResult(success: bool, skip: bool, metadata: Option<Metadata>)

  function NewJob<P>(post: P): (j: Job<P>)
    ensures j.post == post
  {
    Job(post)
  }

  /** The constructor stores its three arguments as given; in particular it
      does not itself rule out `success` and `skip` both being true. */
  function NewResult(success: bool, skip: bool, metadata: Option<Metadata>): (r: JobResult)
    ensures r.success == success && r.skip == skip && r.metadata == metadata
  {
    JobResult(success, skip, metadata)
  }
}
