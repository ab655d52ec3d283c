/** Gelbooru posts: internal/booru/gelbooru.go and its older copy
    booru/gelbooru.go.

    Only the fields the logic reads are kept.  `mediaHash` and `fileSize` are
    not part of the site's JSON and start out empty and 0.  The two trees
    differ in one respect: the current post records the downloaded size and
    reports it, the older one always reports 0. */
module Gelbooru {
  import opened Base
  import opened GoStrings
  import opened Booru
  import Worker

  datatype GelbooruPost = GelbooruPost(mediaHash: string, fileSize: nat, fileURL: string, postTags: string)

  /** A post as the listing decodes it. */
  predicate Fresh(p: GelbooruPost) {
    p.mediaHash == [] && p.fileSize == 0
  }

  /** The query parameters the listing request always sets. */
  const ListingKeys: set<string> := {"page", "s", "q", "json", "pid"}

  lemma KeysDistinct()
    ensures "page" != "s" && "page" != "q" && "page" != "json" && "page" != "pid" && "page" != "tags"
    ensures "s" != "q" && "s" != "json" && "s" != "pid" && "s" != "tags"
    ensures "q" != "json" && "q" != "pid" && "q" != "tags"
    ensures "json" != "pid" && "json" != "tags" && "pid" != "tags"
    ensures "tags" !in ListingKeys
  {
    assert "s"[0] != "q"[0];
    assert "json"[0] != "tags"[0];
    assert "page"[0] != "tags"[0];
  }

  /** The listing URL of `GetPostsGelbooru`: the dapi parameters override
      same-named parameters of the base URL, `pid` carries the page with 0
      sent as 1, `tags` is set only for a non-empty tag string, every other
      parameter of the base URL is kept, and the path becomes /index.php. */
  function ListingUrl(base: Url, page: nat, tags: string): (u: Url)
    ensures u.scheme == base.scheme && u.hostname == base.hostname && u.path == "/index.php"
    ensures "pid" in u.query && u.query["pid"] == [PageParam(page)]
    ensures tags != [] ==> "tags" in u.query && u.query["tags"] == [tags]
  {
    KeysDistinct();
    var u := DapiQuery(base);
    var u := SetParam(u, "pid", PageParam(page));
    var u := if tags != [] then SetParam(u, "tags", tags) else u;
    u.(path := "/index.php")
  }

  /** The rest of the listing query: the dapi parameters override the base
      URL's, and every other parameter of the base URL is kept. */
  lemma ListingQuery(base: Url, page: nat, tags: string)
    ensures var u := ListingUrl(base, page, tags);
            && u.query.Keys == base.query.Keys + ListingKeys + (if tags != [] then {"tags"} else {})
            && u.query["page"] == ["dapi"] && u.query["s"] == ["post"] && u.query["q"] == ["index"]
            && u.query["json"] == ["1"]
            && forall k :: k in base.query && k !in ListingKeys && (k != "tags" || tags == []) ==>
                 u.query[k] == base.query[k]
  {
    KeysDistinct();
  }

  /** The four fixed parameters of the dapi listing, set over the base URL's
      own. */
  function DapiQuery(base: Url): (u: Url)
    ensures u.scheme == base.scheme && u.hostname == base.hostname && u.path == base.path
    ensures u.query.Keys == base.query.Keys + {"page", "s", "q", "json"}
    ensures u.query["page"] == ["dapi"] && u.query["s"] == ["post"] && u.query["q"] == ["index"]
    ensures u.query["json"] == ["1"]
    ensures forall k :: k in base.query && k !in ListingKeys ==> u.query[k] == base.query[k]
  {
    KeysDistinct();
    var u := SetParam(base, "page", "dapi");
    var u := SetParam(u, "s", "post");
    var u := SetParam(u, "q", "index");
    SetParam(u, "json", "1")
  }

  /** Distinct pages from 1 on give distinct listing requests. */
  lemma ListingPagesDistinct(base: Url, m: nat, n: nat, tags: string)
    requires 1 <= m && 1 <= n && m != n
    ensures ListingUrl(base, m, tags) != ListingUrl(base, n, tags)
  {
    assert ParseDecimal(PageParam(m)) != ParseDecimal(PageParam(n));
  }

  /** `GetPostsGelbooru`: fetch and decode the dapi listing of the page. */
  function GetPostsGelbooru(base: Url, page: nat, tags: string, client: ListingClient, maxRetries: nat,
                            decode: seq<byte> -> Result<seq<GelbooruPost>>): Result<seq<GelbooruPost>>
  {
    FetchListing(ListingUrl(base, page, tags), client, maxRetries, decode)
  }

  /** `Tags`: the white-space separated words of the tag string, that is,
      its maximal runs of non-space runes; none is empty and together they
      hold every non-space rune of it. */
  function Tags(p: GelbooruPost): (r: seq<string>)
    ensures forall i :: 0 <= i < |r| ==> IsWord(r[i])
    ensures Concat(r) == NonSpace(p.postTags)
    ensures SplitsAs(p.postTags, r)
  {
    FieldsIffSplits(p.postTags, Fields(p.postTags));
    Fields(p.postTags)
  }

  function MediaURL(p: GelbooruPost): string {
    p.fileURL
  }

  /** `FileExtension`: `filepath.Ext` of the file URL. */
  function FileExtension(p: GelbooruPost): (r: string)
    ensures r == [] || IsExtension(r)
  {
    var r := Ext(p.fileURL);
    if r != [] then ExtIsExtension(p.fileURL); r else r
  }

  /** `IsImage` as written: it looks up `FileExtension()[1:]`, which panics
      when the URL has no extension, so that is a precondition here. */
  function IsImage(p: GelbooruPost): (r: bool)
    requires FileExtension(p) != []
    ensures r ==> FileExtension(p)[1..] in ImageExtensions
  {
    FileExtension(p)[1..] in ImageExtensions
  }

  /** `IsVideo` as written, with the same precondition. */
  function IsVideo(p: GelbooruPost): (r: bool)
    requires FileExtension(p) != []
    ensures r ==> FileExtension(p)[1..] in VideoExtensions
  {
    FileExtension(p)[1..] in VideoExtensions
  }

  /** A file URL ending in `stem.e` is classified by `e` alone, and never as
      both an image and a video. */
  lemma ClassifiedByExtension(p: GelbooruPost, stem: string, e: string)
    requires IsExtension("." + e) && p.fileURL == stem + "." + e
    ensures FileExtension(p) == "." + e
    ensures IsImage(p) <==> e in ImageExtensions
    ensures IsVideo(p) <==> e in VideoExtensions
    ensures !(IsImage(p) && IsVideo(p))
  {
    NotImageAndVideo(e);
    var ext := "." + e;
    assert p.fileURL == stem + ext;
    ExtOfName(stem, ext);
    assert ext[1..] == e;
    assert FileExtension(p) == ext;
  }

  /** A Gelbooru file URL without an extension, on which `IsImage` and
      `IsVideo` as written index past the end of the empty string. */
  lemma ExtensionlessUrlPanics()
    ensures FileExtension(GelbooruPost([], 0, "https://gelbooru.com/f", [])) == []
  {
    var url := "https://gelbooru.com/f";
    assert url[|url| - 1] == 'f' && url[|url| - 2] == '/';
    assert url[..|url| - 1][|url| - 2] == '/';
  }

  /** `IsImage` as evidently intended: a post without an extension is not an
      image, and otherwise the answer is the one the code gives. */
  function IsImageChecked(p: GelbooruPost): (r: bool)
    ensures FileExtension(p) == [] ==> !r
    ensures FileExtension(p) != [] ==> r == IsImage(p)
  {
    var e := FileExtension(p);
    e != [] && e[1..] in ImageExtensions
  }

  /** `IsVideo` as evidently intended, likewise. */
  function IsVideoChecked(p: GelbooruPost): (r: bool)
    ensures FileExtension(p) == [] ==> !r
    ensures FileExtension(p) != [] ==> r == IsVideo(p)
  {
    var e := FileExtension(p);
    e != [] && e[1..] in VideoExtensions
  }

  /** The corrected classification is total and still never says both. */
  lemma CheckedNeverBoth(p: GelbooruPost)
    ensures !(IsImageChecked(p) && IsVideoChecked(p))
  {
    var e := FileExtension(p);
    if e != [] {
      NotImageAndVideo(e[1..]);
    }
  }

  /** The media file name: the content hash followed by the URL's extension
      (possibly empty; there is no fallback). */
  function MediaFileName(hash: string, url: string): string {
    hash + Ext(url)
  }

  /** `SaveMedia` of the current tree.  A failed download returns its error
      and leaves the post untouched.  After a download the hash of the
      contents is recorded whatever happens next; the size is recorded only
      once the file is created and written. */
  function SaveMedia(p: GelbooruPost, client: MediaClient, maxRetries: nat, digest: seq<byte> -> string,
                     fs: FileSystem): (r: (GelbooruPost, Outcome))
    ensures var data := Download(client, p.fileURL, maxRetries);
            && (data.Err? ==> r == (p, Fail(data.error)))
            && (data.Ok? ==> r.0.mediaHash == digest(data.value))
            && (data.Ok? ==> (r.1.Pass? <==>
                  fs.create(MediaFileName(digest(data.value), p.fileURL)).Pass? &&
                  fs.write(MediaFileName(digest(data.value), p.fileURL), data.value).Pass?))
            && (r.1.Pass? ==> data.Ok? && r.0.fileSize == |data.value|)
    ensures r.1.Fail? ==> r.0.fileSize == p.fileSize
    ensures r.0.fileURL == p.fileURL && r.0.postTags == p.postTags
  {
    match Download(client, p.fileURL, maxRetries)
    case Err(e) => (p, Fail(e))
    case Ok(contents) =>
      var hash := digest(contents);
      var q := p.(mediaHash := hash);
      var name := MediaFileName(hash, MediaURL(p));
      if fs.create(name).Fail? then (q, fs.create(name))
      else if fs.write(name, contents).Fail? then (q, fs.write(name, contents))
      else (q.(fileSize := |contents|), Pass)
  }

  /** `SaveMedia` of the older tree: the same steps, but the size is never
      recorded. */
  function LegacySaveMedia(p: GelbooruPost, client: MediaClient, maxRetries: nat, digest: seq<byte> -> string,
                           fs: FileSystem): (r: (GelbooruPost, Outcome))
    ensures r.1 == SaveMedia(p, client, maxRetries, digest, fs).1
    ensures r.0 == SaveMedia(p, client, maxRetries, digest, fs).0.(fileSize := p.fileSize)
  {
    match Download(client, p.fileURL, maxRetries)
    case Err(e) => (p, Fail(e))
    case Ok(contents) =>
      var hash := digest(contents);
      var q := p.(mediaHash := hash);
      var name := MediaFileName(hash, MediaURL(p));
      if fs.create(name).Fail? then (q, fs.create(name))
      else if fs.write(name, contents).Fail? then (q, fs.write(name, contents))
      else (q, Pass)
  }

  /** `Size` of the current tree: what `SaveMedia` recorded. */
  function Size(p: GelbooruPost): nat {
    p.fileSize
  }

  /** `Size` of the older tree. */
  function LegacySize(p: GelbooruPost): nat {
    0
  }

  /** `Metadata` of the current tree; the category lists other than the
      tags are nil. */
  function Metadata(p: GelbooruPost): (m: Booru.Metadata)
    ensures m.tags == Tags(p) && m.copyright == [] && m.characters == [] && m.artists == []
    ensures m.hash == p.mediaHash && m.fromHost == GelbooruHost && m.url == MediaURL(p)
    ensures m.size == Size(p)
  {
    Booru.Metadata(Tags(p), [], [], [], p.mediaHash, GelbooruHost, MediaURL(p), Size(p))
  }

  /** `Metadata` of the older tree: no size. */
  function LegacyMetadata(p: GelbooruPost): (m: Booru.Metadata)
    ensures m == Metadata(p).(size := 0)
  {
    Booru.Metadata(Tags(p), [], [], [], p.mediaHash, GelbooruHost, MediaURL(p), 0)
  }

  /** `SaveMetadata`: create `<hash>_metadata.json`, encode the metadata,
      then write it; the first failure is returned. */
  function SaveMetadata(m: Booru.Metadata, fs: FileSystem, encode: Booru.Metadata -> Result<seq<byte>>): (r: Outcome)
    ensures r.Pass? <==>
              && fs.create(MetadataFileName(m.hash)).Pass?
              && encode(m).Ok?
              && fs.write(MetadataFileName(m.hash), encode(m).value).Pass?
  {
    var name := MetadataFileName(m.hash);
    if fs.create(name).Fail? then fs.create(name)
    else match encode(m)
      case Err(e) => Fail(e)
      case Ok(bytes) => fs.write(name, bytes)
  }

  /** The size a post reports before and after `SaveMedia`: 0 for a fresh
      post, the number of bytes downloaded after a successful save, and
      still 0 after a failed one. */
  lemma SizeAcrossSave(p: GelbooruPost, client: MediaClient, maxRetries: nat, digest: seq<byte> -> string,
                       fs: FileSystem)
    requires Fresh(p)
    ensures Size(p) == 0
    ensures var r := SaveMedia(p, client, maxRetries, digest, fs);
            && (r.1.Pass? ==> Size(r.0) == |Download(client, p.fileURL, maxRetries).value|)
            && (r.1.Fail? ==> Size(r.0) == 0)
  {
  }

  /** The worker's view of a current-tree post.  It asks the checked
      `IsImageChecked` and `IsVideoChecked` where the code calls `IsImage`
      and `IsVideo`: the answers agree on every post with an extension, and
      on a post without one the code panics (`ExtensionlessUrlPanics`)
      whenever the worker asks at all (`Worker.ClassificationUnused`).  The
      size the filter sees is the size the metadata reports, and no post is
      classified as both. */
  function Ops(client: MediaClient, maxRetries: nat, digest: seq<byte> -> string, fs: FileSystem,
               encode: Booru.Metadata -> Result<seq<byte>>): (ops: Worker.PostOps<GelbooruPost>)
    ensures forall p :: FileExtension(p) != [] ==> ops.isImage(p) == IsImage(p) && ops.isVideo(p) == IsVideo(p)
    ensures forall p :: FileExtension(p) == [] ==> !ops.isImage(p) && !ops.isVideo(p)
    ensures forall p :: !(ops.isImage(p) && ops.isVideo(p))
    ensures forall p :: ops.metadata(p).size == ops.size(p)
  {
    forall p ensures !(IsImageChecked(p) && IsVideoChecked(p)) {
      CheckedNeverBoth(p);
    }
    Worker.PostOps(
      IsImageChecked,
      IsVideoChecked,
      Size,
      Metadata,
      p => SaveMedia(p, client, maxRetries, digest, fs),
      p => SaveMetadata(Metadata(p), fs, encode))
  }

  /** The size filter runs before `SaveMedia`, so a freshly listed post
      reports size 0 and the worker treats it exactly as with no size cap. */
  lemma FreshPostNeverTooLarge(client: MediaClient, maxRetries: nat, digest: seq<byte> -> string, fs: FileSystem,
                               encode: Booru.Metadata -> Result<seq<byte>>, f: Worker.Filters, limiter: Outcome,
                               p: GelbooruPost)
    requires Fresh(p)
    ensures var ops := Ops(client, maxRetries, digest, fs, encode);
            Worker.WorkerFunc(ops, f, limiter, p) == Worker.WorkerFunc(ops, f.(maxFileSizeMB := 0), limiter, p)
  {
    Worker.ZeroSizeIgnoresCap(Ops(client, maxRetries, digest, fs, encode), f, limiter, p);
  }

  /** The metadata a successful worker reports for a fresh current-tree post
      carries the downloaded size, so the volume accounting sees it. */
  lemma SuccessReportsDownloadedSize(client: MediaClient, maxRetries: nat, digest: seq<byte> -> string,
                                     fs: FileSystem, encode: Booru.Metadata -> Result<seq<byte>>,
                                     f: Worker.Filters, limiter: Outcome, p: GelbooruPost)
    requires Fresh(p)
    requires Worker.WorkerFunc(Ops(client, maxRetries, digest, fs, encode), f, limiter, p).success
    ensures Worker.WorkerFunc(Ops(client, maxRetries, digest, fs, encode), f, limiter, p).metadata.value.size
            == |Download(client, p.fileURL, maxRetries).value|
  {
    var ops := Ops(client, maxRetries, digest, fs, encode);
    assert ops.saveMedia(p).1.Pass?;
  }

  /** The worker's view of an older-tree post: the same checked
      classification as `Ops`, and a size of 0 for every post. */
  function LegacyOps(client: MediaClient, maxRetries: nat, digest: seq<byte> -> string, fs: FileSystem,
                     encode: Booru.Metadata -> Result<seq<byte>>): (ops: Worker.PostOps<GelbooruPost>)
    ensures forall p :: FileExtension(p) != [] ==> ops.isImage(p) == IsImage(p) && ops.isVideo(p) == IsVideo(p)
    ensures forall p :: !(ops.isImage(p) && ops.isVideo(p))
    ensures forall p :: ops.size(p) == 0 && ops.metadata(p).size == 0
  {
    forall p ensures !(IsImageChecked(p) && IsVideoChecked(p)) {
      CheckedNeverBoth(p);
    }
    Worker.PostOps(
      IsImageChecked,
      IsVideoChecked,
      LegacySize,
      LegacyMetadata,
      p => LegacySaveMedia(p, client, maxRetries, digest, fs),
      p => SaveMetadata(LegacyMetadata(p), fs, encode))
  }

  /** In the older tree the size cap never rejects a Gelbooru post and every
      reported size is 0. */
  lemma LegacyNeverTooLarge(client: MediaClient, maxRetries: nat, digest: seq<byte> -> string, fs: FileSystem,
                            encode: Booru.Metadata -> Result<seq<byte>>, f: Worker.Filters, limiter: Outcome,
                            p: GelbooruPost)
    ensures var ops := LegacyOps(client, maxRetries, digest, fs, encode);
            && Worker.WorkerFunc(ops, f, limiter, p) == Worker.WorkerFunc(ops, f.(maxFileSizeMB := 0), limiter, p)
            && (Worker.WorkerFunc(ops, f, limiter, p).metadata.Some? ==>
                  Worker.WorkerFunc(ops, f, limiter, p).metadata.value.size == 0)
  {
    Worker.ZeroSizeIgnoresCap(LegacyOps(client, maxRetries, digest, fs, encode), f, limiter, p);
  }
}
