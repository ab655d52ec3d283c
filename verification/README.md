# gobooru-downloader in Dafny

A model of the decision logic of gobooru-downloader, a Go program that pages
through the listings of two image boards (danbooru.donmai.us and gelbooru.com)
and downloads every post's media and metadata with a pool of workers.  The
network, the file system, JSON, SHA-256, the rate limiter and the GUI are
oracles or parameters; what is modelled is what the program decides with
their answers.

Modules, following the repository's structure:

- `Base`: `Option`, `Result`, `Outcome`, the `byte` type and the error values the code creates.
- `GoStrings`: the standard-library pieces the logic relies on: `unicode.IsSpace`, `strings.Fields`, `strings.TrimSpace`, `filepath.Ext` and `%d` formatting.
- `Retry`: the retrying GET (`DoGETRetry`) in its three copies, with `GetContents` built on it.
- `WorkerPool`: the generic worker pool as a state machine over bounded queues, whose invariant is conservation of jobs.
- `Booru`, `Gelbooru`, `Danbooru`, `Dispatch`, `PostPage`: per-site listing queries, media URLs, classification, file naming, `Size`/`Metadata`, host-name dispatch, and the post-page scraper with its Content-Type table.
- `CoreTypes`, `Worker`: the job/result records and the per-post `workerFunc`.
- `Accounting`: `handleResults`, `calculateSpeed`, and the result loop of main.go with its volume cap.
- `Pagination`, `Entry`: the page loop, and the two entry points around it (main.go and `Run` of internal/core/core.go).
- `Downloader`: the pool, counters, `shutdown` flag and wait-group counter of internal/core/core.go, with their invariant.
- `Console`: the GUI log console's bounded buffer.

## Model

| member | source | states |
|---|---|---|
| Retry.Retry | proxy/requests.go:14-37 | The run is the unique run of the retry discipline; it succeeds exactly when some attempt within the budget returns a response below 500. |
| Retry.RetryFrom | internal/proxy/requests.go:36-54 | From attempt k on: at most `maxRetries+1` calls; no earlier attempt was final; sleeps (k+i)² follow each failed attempt except the last. Success carries the first final response. Exhaustion returns the last transport error or "status code: N". |
| Retry.DoGETRetry | internal/proxy/requests.go:32-55 | The loop with the `attempt < MAXRETRIES` sleep guard makes exactly the run `IsRetryRun` describes: at most `MAXRETRIES+1` calls, sleeps 0,1,4,… with none after the last attempt, the first response below 500 returned at once, and the last error on exhaustion. |
| Retry.DoGETRetryWithRetries | util/retry.go:11-34 | With the bound passed as `retries` and the guard `attempt != retries`, the run is the same as `Retry`'s: the two guards agree inside the loop. |
| Retry.RetryRunUnique | internal/proxy/requests.go:36-54 | The attempt oracle and the bound determine the run completely: calls, sleeps and outcome. |
| Retry.ConstantServiceUnavailable | internal/proxy/requests.go:36-54 | A constant 503 with three retries makes 4 calls, sleeps 0, 1 and 4 s, and fails with "status code: 503". |
| Retry.FirstFinalResponseNotRetried | internal/proxy/requests.go:39-41 | A first response below 500 (2xx, 3xx, 4xx) is returned after one call and no sleep. |
| Retry.NoRetriesOneAttempt | util/retry.go:15-25 | With 0 retries there is exactly one attempt and no sleep. |
| Retry.GetContents | internal/proxy/requests.go:58-76 | Retry errors propagate unchanged; an accepted status other than 200 becomes "status code N"; a 200 gives the body-read result. Data is returned only for a 200 response reached after non-final attempts. |
| Retry.NonOkStatusRejected | proxy/requests.go:40-49 | An immediate non-200 response below 500 is an `UnexpectedStatus` error with no data. |
| WorkerPool.NewPool | internal/workerpool/pool.go:34-47 | Both buffers get capacity `workerCount`; there are `workerCount` workers; nothing is queued, sent or submitted; the invariant holds. |
| WorkerPool.ZeroWorkersNeverAccept | internal/workerpool/pool.go:63-65 | With no workers the unbuffered Jobs channel never accepts a submission. |
| WorkerPool.Start | internal/workerpool/pool.go:49-61 | Every worker is live and runs `f`; the queue and submissions are unchanged; the invariant is kept. |
| WorkerPool.Submit | internal/workerpool/pool.go:63-65 | Exactly one job joins the back of the queue and of the submissions; nothing else changes; conservation is kept. |
| WorkerPool.Take | internal/workerpool/pool.go:55 | A worker moves the oldest queued job to busy; conservation is kept. |
| WorkerPool.Emit | internal/workerpool/pool.go:56-57 | A busy job leaves busy, and `workerFunc(job)` is appended to the results with that job as its origin. |
| WorkerPool.Exit | workerpool/pool.go:36-40 | A worker leaves only when Jobs is closed and empty; only the live count drops. |
| WorkerPool.Receive | internal/workerpool/pool.go:67-69 | The consumer receives exactly the oldest result the workers sent, which is `workerFunc` of the job it came from. |
| WorkerPool.CloseJobs | workerpool/pool.go:53-54 | `close(Jobs)` marks Jobs closed and changes nothing else. |
| WorkerPool.CloseResults | workerpool/pool.go:55-56 | Once no worker is live, closing Results leaves no queued or busy job, and the emitted jobs are a permutation of the submitted ones. |
| WorkerPool.Advance | internal/workerpool/pool.go:53-59 | Any enabled worker step keeps the invariant and leaves submissions, receptions, and earlier results unchanged. |
| WorkerPool.Drain | internal/workerpool/pool.go:72-73 | With Jobs closed and a consumer that keeps receiving, the workers finish: nothing is queued or busy, no worker is live, and every result has been received. |
| WorkerPool.Shutdown | internal/workerpool/pool.go:71-75 | Afterwards both channels are closed, no worker is live, and the results are a permutation of `workerFunc` over the submitted jobs. |
| WorkerPool.MapSeqPermutation | workerpool/pool.go:37-40 | Applying the worker function to two arrangements of the same jobs gives two arrangements of the same results. |
| WorkerPool.MapSeqAppend | internal/workerpool/pool.go:55-57 | Mapping distributes over concatenation. |
| CoreTypes.NewJob | internal/core/types.go:27-31 | The job's post is the argument. |
| CoreTypes.NewResult | internal/core/types.go:39-45 | Success, skip and the (possibly absent) metadata are stored as given; the constructor does not forbid success and skip together. |
| Worker.TooLargeIff | internal/core/core.go:166-171 | The size cap rejects exactly when the cap is non-zero and the size is at least (cap+1) MiB, because of the floor division. |
| Worker.TooLargeSlack | internal/core/core.go:166-171 | A file one byte short of a whole MiB over the cap passes; one at a whole MiB over is rejected. |
| Worker.WorkerFunc | internal/core/core.go:146-189 | A limiter failure gives a result with no metadata. Otherwise: skip exactly when a filter rejects, with the pre-download metadata; success exactly when both saves pass. Never success and skip together. |
| Worker.ZeroSizeIgnoresCap | main.go:191-196 | A post reporting size 0 is processed as if there were no cap. |
| Worker.ClassificationUnused | internal/core/core.go:156-164 | `IsImage`/`IsVideo` are consulted only when the limiter passed and images-only or videos-only is set; otherwise any answer gives the same result. |
| Accounting.Reset | internal/core/core.go:77-83 | All counters are zero, and both times are `now`. |
| Accounting.HandleResult | internal/core/core.go:192-207 | Each result adds one to the total. Only a success adds to the download count and to both byte accumulators (by its metadata size). |
| Accounting.HandleResults | internal/core/core.go:191-208 | Over a sequence of results, the total grows by their number. The download count grows by the successes, and the bytes by the successes' sizes. |
| Accounting.CountsFromReset | internal/core/core.go:191-208 | From a reset, the total is the number of results, downloads never exceed it, and without successes downloads stay 0. |
| Accounting.CalculateSpeed | internal/core/core.go:229-240 | With no elapsed time it returns 0 and changes nothing. Otherwise it clears the bytes, moves the sample time to now, and the speed times the elapsed seconds equals the KiB counted. |
| Accounting.SecondSampleAtSameInstantIsZero | internal/core/core.go:232-238 | The sample is destructive: sampling again at the same instant gives 0. |
| Accounting.ResultLoop | main.go:241-264 | One `wg.Done` per result. Only successes add to the volume. An interrupt is requested before result i exactly when the limit is non-zero and the volume of results before i reaches it. |
| Accounting.SuccessBytesMonotone | main.go:256 | The volume of a prefix never decreases as the prefix grows. |
| Accounting.LimitStaysReached | main.go:243-246 | Once the check fires it fires for every later result, and the crossing result is still counted. |
| Accounting.NoLimitNoInterrupt | main.go:243 | A limit of 0 never requests an interrupt. |
| Pagination.SubmitPage | internal/core/core.go:117-125 | One poll before each post. It submits exactly the prefix the shutdown allows, one `wg.Add(1)` per submission, and is interrupted exactly when the shutdown falls inside the page. |
| Pagination.VisitPage | internal/core/core.go:101-127 | One page iteration either finishes, leaving the state of n+1 whole iterations (page bumped only for a fetched page), or is interrupted mid-page with the page not bumped. |
| Pagination.Run | internal/core/core.go:95-129 | The loop makes exactly `closedAt` passing polls, one per page visit and one per submission, with one `wg.Add(1)` per submission. Each visited page is the reference page number. It stops either before a page, with every earlier page finished, or mid-page, with the page not bumped. |
| Pagination.PagesAdvanceByOne | internal/core/core.go:103-127 | Page numbers never decrease and grow by at most one per iteration; failed attempts keep the page; fetched pages advance it by exactly one each. |
| Pagination.PollsCountPagesAndPosts | internal/core/core.go:95-125 | Finished iterations poll once for the page and once per post. |
| Pagination.StuckOnFailingPage | internal/core/core.go:104-114 | When every attempt fails, the loop keeps requesting the start page. |
| Entry.NormalizeStartPage | main.go:268-270 | Page 0 becomes 1; every other page is kept; the result is at least 1. |
| Entry.NormalizeOutputDir | main.go:149-151 | A blank directory name becomes "output"; any other is kept exactly; the result is never blank. |
| Entry.NormalizationsIdempotent | internal/config/config.go:123-125 | Both normalisations are idempotent. |
| Entry.FetchedPageIsLeft | main.go:285-311 | After a fetched page every later page number is strictly larger. |
| Entry.LegacyRun | main.go:266-313 | main.go's loop starts at page ≥ 1, never goes back, and never requests a fetched listing again. |
| Entry.CoreRun | internal/core/core.go:92-129 | `Run` starts at the configured page as it is, visits the reference pages, and stops at the poll `closedAt`. |
| Entry.PageZeroIsPageOne | internal/booru/gelbooru.go:86-89 | On both sites the listing request for page 0 is the one for page 1. |
| Entry.EmptyPagesPollOnce | internal/core/core.go:95-127 | With empty listings every iteration polls once and advances one page. |
| Entry.CoreRunFetchesFirstPageTwice | internal/core/core.go:93-127 | From page 0 with empty listings the first two visits are pages 0 and 1, which request the same listing. |
| Entry.CoreRunFromPageZero | internal/core/core.go:93-127 | Two polls from page 0 visit exactly pages 0 and 1, the same listing twice. |
| Downloader.New | internal/core/core.go:58-74 | A pool of `workerCount` workers, zero counters, not shut down, nothing in flight; the invariant holds. |
| Downloader.Start | internal/core/core.go:77-89 | The counters are reset, and the pool is started with the worker function, with every worker live. |
| Downloader.SubmitPost | internal/core/core.go:121-123 | `wg.Add(1)` then `Submit`: exactly one job is submitted, one more is in flight, and the counters are unchanged. |
| Downloader.WorkStep | internal/workerpool/pool.go:53-59 | A worker step changes neither the counters, the submissions, the in-flight count nor the shutdown flag. |
| Downloader.HandleNext | internal/core/core.go:191-208 | The result handled is `workerFunc` of some submitted job. It is accounted by `HandleResult`, and `wg.Done` lowers the in-flight count by one. |
| Downloader.SentAccountable | internal/core/core.go:146-189 | Every result the workers send that claims success carries metadata, so accounting never dereferences nil. |
| Downloader.SentBounded | internal/workerpool/pool.go:55-57 | Queued + busy + sent equals submitted. |
| Downloader.GetProgress | internal/core/core.go:219-226 | It reports the counters as they are, takes one speed sample, and changes nothing else. |
| Downloader.IsRunning | internal/core/core.go:242-249 | Whether `shutdown` is open; `RequestStop` makes it false and `StoppedStaysStopped` shows nothing makes it true again. |
| Downloader.RequestStop | internal/core/core.go:132-133 | Closing `shutdown` makes `IsRunning` false and changes nothing else. |
| Downloader.AwaitInflight | internal/core/core.go:134 | The `wg.Wait` returns: from any reachable state with Jobs still open, worker steps and result handling bring the jobs in flight to none. Every submission is then handled, and nothing new is submitted. |
| Downloader.Stop | internal/core/core.go:132-137 | Close `shutdown`, wait, shut the pool down, whether or not `Run` started it. Afterwards `IsRunning` is false, nothing is in flight, and the total is the number of submissions. After `Run` the handled results are a permutation of `workerFunc` over the submitted jobs; before it, results and counters are unchanged. |
| Downloader.StopBeforeRun | internal/core/core.go:132-142 | `Stop` on a new downloader, as `handleSignals` or the GUI's first toggle can call it, closes both channels with no results and a zero total. |
| Downloader.FinishStop | internal/core/core.go:132-137 | Once nothing is in flight the pool shuts down. The total is the number of submissions, and the handled results are a permutation of `workerFunc` over the submitted jobs. |
| Downloader.ShutdownAfterAllReceived | internal/core/core.go:134-135 | When every submission has been handled, shutting the pool down sends and receives nothing more. |
| Downloader.SamePoolResults | internal/core/core.go:41-56 | The invariant depends on the pool only through its submissions, results, worker function and Jobs state. |
| Downloader.StoppedStaysStopped | internal/core/core.go:242-249 | Once `shutdown` is closed, no operation makes `IsRunning` true again. |
| Downloader.CountersBounded | internal/core/core.go:191-208 | Downloads ≤ total ≤ submissions, and total + in flight = submissions. |
| Console.TrimNewline | internal/gui/console.go:30-34 | Exactly one trailing '\n' is removed when present; putting it back gives the input. |
| Console.TrimNewlineRoundTrip | internal/gui/console.go:32-34 | "m\n" gives m, "m\n\n" keeps one newline, and "m\r\n" keeps its '\r'. |
| Console.Write | internal/gui/console.go:29-38 | Write appends the trimmed message and always reports (len(p), nil). |
| Console.WriteKeepsInput | internal/gui/console.go:29-36 | The newest message, with the trimmed newline put back, is the input. |
| Console.Append | internal/gui/console.go:40-57 | The message goes last. At most 100 messages are kept, the newest of the old ones plus the new one, in order. Below 100 the text grows by "msg\n". The cursor moves to the last row, column 0. |
| Console.LinesAppend | internal/gui/console.go:49-53 | The displayed text of two message lists is the concatenation of their texts. |
| Console.LinesLength | internal/gui/console.go:49-53 | The text is the messages plus one newline each. |
| Console.Newest | internal/gui/console.go:43-46 | A suffix of the input: the whole input when it has at most 100 messages, and exactly 100 messages otherwise. |
| Console.NewestAppend | internal/gui/console.go:43-46 | Keeping the newest 100 after each append equals keeping the newest 100 at the end. |
| Console.KeepsNewest | internal/gui/console.go:40-46 | After any sequence of writes the console holds the newest (at most) 100 messages of everything written, in order. |
| GoStrings.Fields | internal/booru/gelbooru.go:111-113 | `strings.Fields`: no field is empty or contains white space, and together the fields hold exactly the non-space runes (maximality is `FieldsIffSplits`). |
| GoStrings.FieldsIffSplits | internal/booru/gelbooru.go:111-113 | A list of strings is `strings.Fields(s)` exactly when it splits `s` into maximal runs: words, with white space around them and at least one white-space rune between any two. |
| GoStrings.FieldsJoinSpace | booru/gelbooru.go:106-108 | Splitting words joined by single spaces gives the words back. |
| GoStrings.FieldsEmptyIffBlank | booru/danbooru.go:119-137 | The split is empty exactly when the string is blank. |
| GoStrings.TrimSpace | main.go:149 | `strings.TrimSpace` is a slice of `s` with only white space before and after it. It is "" exactly for blank input; otherwise it starts and ends with a non-space rune. |
| GoStrings.LastSegment | internal/booru/gelbooru.go:152 | The last path segment contains no '/', is a suffix, and is preceded by '/' when shorter than the path. |
| GoStrings.Ext | internal/booru/gelbooru.go:131-133 | `filepath.Ext` is empty or starts with '.'. |
| GoStrings.ExtOfLastSegment | booru/gelbooru.go:126-128 | `filepath.Ext` is empty exactly when the last segment has no '.'; otherwise it is a well-formed extension and a suffix of that segment. |
| GoStrings.ExtIsExtension | booru/danbooru.go:170 | A non-empty `filepath.Ext` has no further '.' or '/'. |
| GoStrings.ExtOfName | booru/danbooru.go:170-176 | `filepath.Ext(stem + ext)` is `ext` for any well-formed extension. |
| GoStrings.Decimal | booru/danbooru.go:97 | `fmt.Sprintf("%d", page)` of a page number: a non-empty string of digits with no leading zero. |
| GoStrings.DecimalRoundTrip | booru/danbooru.go:97 | Parsing the formatted page number gives the number back. |
| GoStrings.DecimalInjective | internal/booru/gelbooru.go:89 | Distinct page numbers are formatted differently. |
| Booru.SetParam | internal/booru/gelbooru.go:81-84 | `url.Values.Set` gives the key exactly one value and keeps every other key. |
| Booru.EffectivePage | booru/danbooru.go:94-96 | The requested page is at least 1 and equals any non-zero page. |
| Booru.PageParam | booru/danbooru.go:94-97 | The page text is decimal digits that read back as the effective page. |
| Booru.NotImageAndVideo | internal/booru/gelbooru.go:199-225 | No extension is in both the image table and the video table. |
| Booru.FirstNonEmpty | booru/danbooru.go:143-155 | The first non-empty candidate, with every earlier one empty, or "" exactly when all are empty. |
| Booru.MediaAndMetadataFilesDiffer | internal/booru/gelbooru.go:155-178 | The media file `hash + ext` never collides with `hash_metadata.json`. |
| Gelbooru.ListingUrl | internal/booru/gelbooru.go:79-95 | The path is "/index.php"; `pid` is the page with 0 sent as 1; `tags` is set when non-empty; scheme and host are kept. |
| Gelbooru.DapiQuery | internal/booru/gelbooru.go:80-84 | page=dapi, s=post, q=index and json=1 override the base URL's values; every other parameter is kept. |
| Gelbooru.ListingQuery | internal/booru/gelbooru.go:80-94 | The query's keys are the base keys plus the five listing keys (and `tags`); the dapi values are set; untouched base parameters are kept. |
| Gelbooru.ListingPagesDistinct | booru/gelbooru.go:81-84 | Distinct pages from 1 on give distinct listing requests. |
| Booru.FetchListing | internal/booru/gelbooru.go:97-108 | Both sites' `GetPosts`: only the listing URL is requested; a download error is returned as it is; posts come only from a downloaded body that decodes (booru/danbooru.go:105-116 is the same). |
| Gelbooru.GetPostsGelbooru | internal/booru/gelbooru.go:97-108 | `FetchListing` of the dapi `ListingUrl` of the page; both are stated by those members. |
| Gelbooru.Tags | internal/booru/gelbooru.go:111-113 | The tags are the maximal runs of non-space runes of the tag string: non-empty, space-free words holding every non-space rune of it. |
| Gelbooru.FileExtension | internal/booru/gelbooru.go:131-133 | The extension is empty or well formed. |
| Gelbooru.IsImage | internal/booru/gelbooru.go:199-211 | As written: defined only for a URL with an extension, and true only for an image extension. |
| Gelbooru.IsVideo | internal/booru/gelbooru.go:213-225 | As written: defined only for a URL with an extension, and true only for a video extension. |
| Gelbooru.ClassifiedByExtension | booru/gelbooru.go:191-217 | A URL ending in `.e` is an image exactly when e is an image extension, a video exactly when a video one, and never both. |
| Gelbooru.ExtensionlessUrlPanics | internal/booru/gelbooru.go:210 | A file URL with no extension reaches `[1:]` on the empty string. |
| Gelbooru.IsImageChecked | internal/booru/gelbooru.go:199-211 | Corrected: false without an extension, and otherwise the code's answer. |
| Gelbooru.IsVideoChecked | internal/booru/gelbooru.go:213-225 | Corrected: false without an extension, and otherwise the code's answer. |
| Gelbooru.CheckedNeverBoth | internal/booru/gelbooru.go:199-225 | The corrected classification is total and never says both image and video. |
| Gelbooru.SaveMedia | internal/booru/gelbooru.go:139-172 | A failed download returns its error and leaves the post untouched. After a download the hash is recorded; the result passes exactly when the file `hash+Ext(url)` is created and written. Only then is the size the number of bytes. |
| Gelbooru.LegacySaveMedia | booru/gelbooru.go:134-164 | The older copy does what the current one does, except it never records a size. |
| Gelbooru.Metadata | internal/booru/gelbooru.go:227-238 | Tags, no other categories, hash, "gelbooru.com", media URL and `Size()`. |
| Gelbooru.LegacyMetadata | booru/gelbooru.go:219-229 | The older metadata is the current one with size 0. |
| Gelbooru.SaveMetadata | internal/booru/gelbooru.go:174-197 | Passes exactly when `hash_metadata.json` is created, the metadata encodes, and the write succeeds. |
| Gelbooru.Size | internal/booru/gelbooru.go:240-242 | The size `SaveMedia` recorded; `SizeAcrossSave` gives its value before and after a save. |
| Gelbooru.LegacySize | booru/gelbooru.go:231-233 | Always 0; `LegacyNeverTooLarge` states the consequence for the worker. |
| Gelbooru.Ops | internal/core/core.go:156-164 | The worker's view of a post. It agrees with `IsImage`/`IsVideo` on every post with an extension and answers "neither" without one. It never says both, and the size the filter sees is the size the metadata reports. |
| Gelbooru.LegacyOps | main.go:179-189 | The same classification for the older tree, with size 0 for every post. |
| Danbooru.Ops | main.go:179-195 | The worker's view of a Danbooru post: exactly the post's `IsImage` and `IsVideo`, and size 0 both for the cap and in the metadata, since the older `DanbooruPost` has no `Size`; the metadata carries the post's hash and media URL. |
| Gelbooru.SizeAcrossSave | internal/booru/gelbooru.go:240-242 | A fresh post reports 0. After a successful save it reports the downloaded byte count; after a failed one, still 0. |
| Gelbooru.FreshPostNeverTooLarge | internal/booru/gelbooru.go:240-242 | The size filter runs before the download, so a freshly listed post is processed as if there were no cap. |
| Gelbooru.SuccessReportsDownloadedSize | internal/booru/gelbooru.go:168-169 | A successful fresh post reports the downloaded byte count in its metadata. |
| Gelbooru.LegacyNeverTooLarge | booru/gelbooru.go:231-233 | In the older tree the cap never rejects, and every reported size is 0. |
| Danbooru.ListingUrl | booru/danbooru.go:92-103 | `page` is the page with 0 sent as 1; `tags` is set only when non-empty; every other parameter is kept; the path is "/posts.json". |
| Danbooru.GetPostsDanbooru | booru/danbooru.go:105-116 | `FetchListing` of the /posts.json `ListingUrl` of the page; both are stated by those members. |
| Danbooru.TagCategoriesAreWords | booru/danbooru.go:119-137 | Every category is the split of its string into maximal runs of non-space runes, empty exactly for a blank string. |
| Danbooru.MediaURL | booru/danbooru.go:143-155 | The file URL, else the large file URL, else the source; "" only if all three are empty. |
| Danbooru.IsImage | booru/danbooru.go:217-229 | A post with a non-negative duration that is not an image is a video (`ImageVideoClassification` gives the exact overlap). |
| Danbooru.IsVideo | booru/danbooru.go:231-243 | Any post with a positive duration is a video, whatever its extension. |
| Danbooru.ImageVideoClassification | booru/danbooru.go:217-243 | The two tests overlap: a positive duration with an image extension, or zero duration with a video extension, is both. Neither holds only for a negative duration with an unknown extension. |
| Danbooru.MediaExtension | booru/danbooru.go:170-173 | The saved extension is the URL's, or ".bin" when it has none; always well formed. |
| Danbooru.MediaFileNameHasExtension | booru/danbooru.go:170-176 | Reading the saved name back with `filepath.Ext` gives the chosen extension. |
| Danbooru.SaveMedia | booru/danbooru.go:157-190 | A failed download returns its error and leaves the post untouched. After a download the hash is recorded, and the result passes exactly when `hash+MediaExtension` is created and written. |
| Danbooru.Metadata | booru/danbooru.go:245-255 | Four tag categories, hash, "danbooru.donmai.us", media URL, and size 0. |
| Danbooru.SaveMetadata | booru/danbooru.go:192-215 | Passes exactly when the metadata file is created, encoded and written. |
| Danbooru.NoVolumeAccounted | booru/danbooru.go:245-255 | Every Danbooru result reports size 0, so the volume cap of main.go:256 never grows for it and the size cap never rejects it. |
| Dispatch.WrapAll | booru/booru.go:62-65 | One slot per decoded post, whichever loop-variable semantics the Go version has. |
| Dispatch.GetPosts | booru/booru.go:54-85 | The exact host "danbooru.donmai.us" or "gelbooru.com" selects that site. A site error is returned as it is. On success there is one post of that site per decoded post: slot i holds decoded post i with a per-iteration loop variable, and the last decoded post with a shared one. Any other host is `ErrBooruNotSupported`. |
| Dispatch.UnsupportedHostNeverFetches | booru/booru.go:82-84 | A "www." host is rejected without any request: the result does not depend on the client. |
| PostPage.NewTag | booru/post.go:25-31 | The tag stores its value and flags as given. |
| PostPage.GetTagsFromDoc | booru/post.go:39-64 | Only Danbooru is supported. Tags come out as artists, then characters, then general tags, flagged (T,F), (F,T), (F,F), and never both. |
| PostPage.FirstSome | booru/post.go:78-109 | The first present candidate with every earlier one absent, or none exactly when all are absent. |
| PostPage.GetMediaURLFromDoc | booru/post.go:78-113 | Only Danbooru is supported. With images-only, a video page is `ErrVideoPost`. Otherwise the video src, then the original-link href, then the picture srcset, else "media not found". |
| PostPage.GetContents | booru/post.go:116-135 | It succeeds exactly when the retrying `GetContents` does, with the same data or error, plus the response's Content-Type. |
| PostPage.ExtensionFor | booru/post.go:157-193 | The extension comes from the fixed 11-entry Content-Type table, else `filepath.Ext` of the URL, else ".bin"; it is always well formed. |
| PostPage.SaveMedia | booru/post.go:138-211 | Each failure is wrapped with its step's message and returns no hash. Success returns the hash of the data, after creating and writing `hash+ext`. |
| PostPage.SavedHashIsFileStem | booru/post.go:196-211 | The returned hash is the stem of the saved file's name. |
| PostPage.ProcessPost | booru/post.go:215-235 | A page error, then a tag error, then a media error is returned in that order, with no info; otherwise the tags and media URL. |
| PostPage.UnsupportedHostFailsOnTags | booru/post.go:59-60 | On an unsupported host the tag extraction fails first, with "host is not supported". |
| PostPage.ImagesOnlyRejectsVideoPages | booru/post.go:83-85 | With images-only a page with a video never yields post info. |

## Left out

- The rate limiter (`golang.org/x/time/rate`) is an oracle. Each post's `Wait` result is the `limiter` function of the downloader; each page iteration's result is part of the page-attempt oracle. No token-bucket behaviour is modelled.
- HTTP, file creation and writing, JSON encoding and decoding, SHA-256 with hex encoding, and `io.ReadAll` are oracles. These are `get`/`client`, `FileSystem`, `decode`/`encode`, `digest`, and the response's body `Result`. proxy/proxy.go, booru/gallery.go, booru/metadata.go and util/sha.go are not part of this model.
- The goquery DOM lookups are abstracted to the `Doc` record of what each CSS query finds. The page fetch `getDocument`, and `GetTags` built on it (booru/post.go:66-73), are an input `Result<Doc>`.
- Goroutines are interleaved as atomic steps. `Stop` is split into `RequestStop`, the wait `AwaitInflight` and `FinishStop`. `Downloader.Stop` composes the three for one schedule of steps, while the interleaving with concurrent submissions is left to the caller. Signal handling, `os.Exit`, `handleSignals` and main.go's blocking sends on `signalListener` (main.go:245) are left out. So is the race on the shared `err` captured by main.go's workers (main.go:199, 209): each worker call has its own outcome.
- Floating point is left out. `downloadedGB` and `lastBytes` are exact integer byte counts. Gigabytes and speed are exact reals, with no rounding. Danbooru's `Duration` is a real compared with 0.
- `filepath.Join` with the output directory is not modelled. File names are the hash plus extension, and the directory is the `FileSystem` oracle's concern. `path.Base` and every log message are left out.
- `url.Values.Encode` and `URL.String` are not modelled. A listing request is identified by the `Url` record (host, path, query map).
- Retry.DoGETRetry: Go's `uint` loop counter is unbounded here. With `MAXRETRIES` at the largest `uint` the Go loop would never end; that case is not modelled. `MAXRETRIES` is a parameter; its default 5 is the constant `DefaultMaxRetries`.
- Page numbers are unbounded naturals. The wrap of `currentPage++` at the largest `uint` is not modelled.
- Which post each `&post` pointer in booru/booru.go:63-65 sees depends on the Go version's loop-variable semantics. `Dispatch.WrapAll` and `Dispatch.GetPosts` take the semantics as a parameter and state the contents of each slot under both.
- Booru.FetchListing: the older tree is not self-consistent, and the model reconciles it. booru/danbooru.go:105,159 and booru/gelbooru.go:92,136 call `util.GetContents(client, url)`, which util/ does not define. util/retry.go has only `DoGETRetry`, and util/sha.go has no fetcher. The model uses the `GetContents` of proxy/requests.go in its place, with the retry bound as a `maxRetries` parameter.
- booru/post.go:117 calls `util.DoGETRetry` with two arguments. It is modelled with the `retries` parameter of util/retry.go. The older `DanbooruPost` has no `Size`, so the worker's view reports 0.
- Gelbooru.Ops: uses `IsImageChecked`/`IsVideoChecked` where internal/core/core.go:156-164 and main.go:179-189 call `IsImage`/`IsVideo`. The two agree on every post whose file URL has an extension (`Ops` ensures). On a post without one, the Go worker panics whenever images-only or videos-only is set and the limiter passed (`ExtensionlessUrlPanics`). Otherwise it never asks (`Worker.ClassificationUnused`). The model does not represent the panic: it skips such a post. `FreshPostNeverTooLarge`, `SuccessReportsDownloadedSize` and `LegacyNeverTooLarge` therefore describe the corrected worker. They describe the code as written on every input where it does not panic.
- Gelbooru.LegacyOps: the same substitution as `Gelbooru.Ops`, for main.go's worker.
- internal/booru/booru.go and internal/booru/danbooru.go are not part of this model. The dispatch and Danbooru post modelled are the booru/ copies.
- `NewDownloader`'s signal setup, `Run` and `Start` being called twice, and a second `Stop` (a double close) are excluded by preconditions: `work.None?` and `!shutdown`. `Stop` before `Run` is modelled.
- The GUI (internal/gui/gui.go, internal/gui/downloader.go) and the CLI are left out. So are configuration parsing in internal/config/config.go and the loggers. `fyne.Do` scheduling in console.go is one atomic append.
- Danbooru's `FileExtension` is a plain read of `FileExt` and has no member of its own. The Danbooru `Copyright`, `Meta`, `Artists` and `Characters` getters (booru/danbooru.go:123-137) are `strings.Fields` of their tag strings; they are modelled as `Fields` and stated through `Metadata` and `TagCategoriesAreWords`. The Gelbooru getters (booru/gelbooru.go:110-124, internal/booru/gelbooru.go:115-129) return nil, which `Gelbooru.Metadata` writes as empty categories.
- Console.Write: its ensures do not restate the reconstruction of the input. `WriteKeepsInput` states it.

## Findings

| source | as written | input that shows it | evidently intended | confidence | as-written member | corrected member |
|---|---|---|---|---|---|---|
| internal/booru/gelbooru.go:210 | `IsImage`/`IsVideo` index `FileExtension()[1:]`, which panics when the file URL has no extension | a post whose file URL is `https://gelbooru.com/f` | a post without an extension is neither image nor video | not executed | Gelbooru.ExtensionlessUrlPanics | Gelbooru.CheckedNeverBoth |
| internal/core/core.go:93 | `Run` starts at `FromPage` as configured, without the 0 → 1 normalisation of main.go:268-270 | `FromPage` 0 with empty listings: pages 0 and 1 are both requested as `pid`/`page` 1 | start at page 1 as main.go does, so no listing is fetched twice | not executed | Entry.CoreRunFromPageZero | Entry.LegacyRun |
