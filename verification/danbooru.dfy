/** Danbooru posts (booru/danbooru.go).

    Only the fields the logic reads are kept.  The media duration is a real
    number, since the code only compares it with 0.  This post type declares
    no `Size` method; the worker's view reports 0, as its metadata does. */
module Danbooru {
  import opened Base
  import opened GoStrings
  import opened Booru
  import Worker

  datatype DanbooruPost = DanbooruPost(
    mediaHash: string,
    source: string,
    fileExt: string,
    duration: real,
    fileURL: string,
    largeFileURL: string,
    tagStringGeneral: string,
    tagStringCharacter: string,
    tagStringCopyright: string,
    tagStringArtist: string,
    tagStringMeta: string)

  /** The listing URL of `GetPostsDanbooru`: `page` carries the page with 0
      sent as 1, `tags` is set only for a non-empty tag string, every other
      parameter of the base URL is kept, and the path becomes /posts.json. */
  function ListingUrl(base: Url, page: nat, tags: string): (u: Url)
    ensures u.scheme == base.scheme && u.hostname == base.hostname && u.path == "/posts.json"
    ensures u.query.Keys == base.query.Keys + {"page"} + (if tags != [] then {"tags"} else {})
    ensures u.query["page"] == [PageParam(page)]
    ensures tags != [] ==> u.query["tags"] == [tags]
    ensures forall k :: k in base.query && k != "page" && (k != "tags" || tags == []) ==>
              u.query[k] == base.query[k]
  {
    assert "page"[0] != "tags"[0];
    var u := SetParam(base, "page", PageParam(page));
    var u := if tags != [] then SetParam(u, "tags", tags) else u;
    u.(path := "/posts.json")
  }

  /** `GetPostsDanbooru`: fetch and decode the /posts.json listing of the page. */
  function GetPostsDanbooru(base: Url, page: nat, tags: string, client: ListingClient, maxRetries: nat,
                            decode: seq<byte> -> Result<seq<DanbooruPost>>): Result<seq<DanbooruPost>>
  {
    FetchListing(ListingUrl(base, page, tags), client, maxRetries, decode)
  }

  /** The five tag categories, each the white-space split of its string. */
  function Tags(p: DanbooruPost): seq<string> { Fields(p.tagStringGeneral) }
  function Copyright(p: DanbooruPost): seq<string> { Fields(p.tagStringCopyright) }
  function Meta(p: DanbooruPost): seq<string> { Fields(p.tagStringMeta) }
  function Artists(p: DanbooruPost): seq<string> { Fields(p.tagStringArtist) }
  function Characters(p: DanbooruPost): seq<string> { Fields(p.tagStringCharacter) }

  /** Every category is a list of non-empty, space-free words, and a category
      is empty exactly when its string is blank. */
  lemma TagCategoriesAreWords(p: DanbooruPost)
    ensures forall i :: 0 <= i < |Tags(p)| ==> IsWord(Tags(p)[i])
    ensures forall i :: 0 <= i < |Copyright(p)| ==> IsWord(Copyright(p)[i])
    ensures forall i :: 0 <= i < |Meta(p)| ==> IsWord(Meta(p)[i])
    ensures forall i :: 0 <= i < |Artists(p)| ==> IsWord(Artists(p)[i])
    ensures forall i :: 0 <= i < |Characters(p)| ==> IsWord(Characters(p)[i])
    ensures Tags(p) == [] <==> Blank(p.tagStringGeneral)
    ensures Artists(p) == [] <==> Blank(p.tagStringArtist)
    ensures Characters(p) == [] <==> Blank(p.tagStringCharacter)
    ensures SplitsAs(p.tagStringGeneral, Tags(p)) && SplitsAs(p.tagStringCopyright, Copyright(p))
    ensures SplitsAs(p.tagStringMeta, Meta(p)) && SplitsAs(p.tagStringArtist, Artists(p))
    ensures SplitsAs(p.tagStringCharacter, Characters(p))
  {
    FieldsIffSplits(p.tagStringGeneral, Tags(p));
    FieldsIffSplits(p.tagStringCopyright, Copyright(p));
    FieldsIffSplits(p.tagStringMeta, Meta(p));
    FieldsIffSplits(p.tagStringArtist, Artists(p));
    FieldsIffSplits(p.tagStringCharacter, Characters(p));
    FieldsEmptyIffBlank(p.tagStringGeneral);
    FieldsEmptyIffBlank(p.tagStringArtist);
    FieldsEmptyIffBlank(p.tagStringCharacter);
  }

  /** `MediaURL`: the file URL, falling back to the large file URL, then to
      the source. */
  function MediaURL(p: DanbooruPost): (r: string)
    ensures r == FirstNonEmpty([p.fileURL, p.largeFileURL, p.source])
    ensures r == [] ==> p.fileURL == [] && p.largeFileURL == [] && p.source == []
  {
    var cs := [p.fileURL, p.largeFileURL, p.source];
    assert cs[0] == p.fileURL && cs[1..] == [p.largeFileURL, p.source];
    assert cs[1..][1..] == [p.source];
    assert cs[1..][1..][1..] == [];
    assert FirstNonEmpty(cs[1..][1..]) == p.source;
    assert FirstNonEmpty(cs[1..]) == if p.largeFileURL == [] then p.source else p.largeFileURL;
    if p.fileURL == [] then
      if p.largeFileURL == [] then p.source else p.largeFileURL
    else p.fileURL
  }

  /** `IsVideo`: a positive duration, or a video extension (case-sensitive).
      Any post with a running time is a video, whatever its extension. */
  function IsVideo(p: DanbooruPost): (r: bool)
    ensures p.duration > 0.0 ==> r
  {
    p.duration > 0.0 || p.fileExt in VideoExtensions
  }

  /** `IsImage`: no duration, or an image extension (case-sensitive).  A post
      with a non-negative duration that is not an image is a video. */
  function IsImage(p: DanbooruPost): (r: bool)
    ensures !r && p.duration >= 0.0 ==> IsVideo(p)
  {
    p.duration == 0.0 || p.fileExt in ImageExtensions
  }

  /** The two tests are not exclusive: a post with a duration and an image
      extension is both, as is a still post with a video extension.  For a
      non-negative duration at least one holds; only a (malformed) negative
      duration with an extension in neither table gives neither. */
  lemma ImageVideoClassification(p: DanbooruPost)
    ensures p.duration > 0.0 && p.fileExt in ImageExtensions ==> IsImage(p) && IsVideo(p)
    ensures p.duration == 0.0 && p.fileExt in VideoExtensions ==> IsImage(p) && IsVideo(p)
    ensures !IsImage(p) && !IsVideo(p) <==>
              p.duration < 0.0 && p.fileExt !in ImageExtensions && p.fileExt !in VideoExtensions
  {
  }

  /** The extension of the saved file: the URL's, or ".bin" when it has none. */
  function MediaExtension(url: string): (e: string)
    ensures IsExtension(e)
    ensures Ext(url) != [] ==> e == Ext(url)
    ensures Ext(url) == [] ==> e == ".bin"
  {
    var e := Ext(url);
    if e == [] then ".bin" else ExtIsExtension(url); e
  }

  /** The saved file's name always carries an extension, which is what
      `filepath.Ext` reads back from it. */
  lemma MediaFileNameHasExtension(hash: string, url: string)
    ensures Ext(hash + MediaExtension(url)) == MediaExtension(url) != []
  {
    ExtOfName(hash, MediaExtension(url));
  }

  /** `SaveMedia`: a failed download returns its error and leaves the post
      untouched; after a download the hash is recorded whatever happens next,
      and the file `hash + MediaExtension(MediaURL)` is created and written. */
  function SaveMedia(p: DanbooruPost, client: MediaClient, maxRetries: nat, digest: seq<byte> -> string,
                     fs: FileSystem): (r: (DanbooruPost, Outcome))
    ensures var data := Download(client, MediaURL(p), maxRetries);
            && (data.Err? ==> r == (p, Fail(data.error)))
            && (data.Ok? ==> r.0 == p.(mediaHash := digest(data.value)))
            && (data.Ok? ==> (r.1.Pass? <==>
                  var name := digest(data.value) + MediaExtension(MediaURL(p));
                  fs.create(name).Pass? && fs.write(name, data.value).Pass?))
  {
    match Download(client, MediaURL(p), maxRetries)
    case Err(e) => (p, Fail(e))
    case Ok(contents) =>
      var hash := digest(contents);
      var q := p.(mediaHash := hash);
      var name := hash + MediaExtension(MediaURL(p));
      if fs.create(name).Fail? then (q, fs.create(name))
      else if fs.write(name, contents).Fail? then (q, fs.write(name, contents))
      else (q, Pass)
  }

  /** `Metadata`: four of the tag categories, the hash, the host and the
      media URL; the size is left at 0. */
  function Metadata(p: DanbooruPost): (m: Booru.Metadata)
    ensures m.tags == Tags(p) && m.copyright == Copyright(p) && m.characters == Characters(p)
    ensures m.artists == Artists(p) && m.hash == p.mediaHash && m.fromHost == DanbooruHost
    ensures m.url == MediaURL(p) && m.size == 0
  {
    Booru.Metadata(Tags(p), Copyright(p), Characters(p), Artists(p), p.mediaHash, DanbooruHost, MediaURL(p), 0)
  }

  /** `SaveMetadata`: create `<hash>_metadata.json`, encode, write. */
  function SaveMetadata(p: DanbooruPost, fs: FileSystem, encode: Booru.Metadata -> Result<seq<byte>>): (r: Outcome)
    ensures r.Pass? <==>
              && fs.create(MetadataFileName(p.mediaHash)).Pass?
              && encode(Metadata(p)).Ok?
              && fs.write(MetadataFileName(p.mediaHash), encode(Metadata(p)).value).Pass?
  {
    var name := MetadataFileName(p.mediaHash);
    if fs.create(name).Fail? then fs.create(name)
    else match encode(Metadata(p))
      case Err(e) => Fail(e)
      case Ok(bytes) => fs.write(name, bytes)
  }

  /** The worker's view of a Danbooru post: the post's own classification,
      and a size of 0, because the older `DanbooruPost` records none. */
  function Ops(client: MediaClient, maxRetries: nat, digest: seq<byte> -> string, fs: FileSystem,
               encode: Booru.Metadata -> Result<seq<byte>>): (ops: Worker.PostOps<DanbooruPost>)
    ensures forall p :: ops.isImage(p) == IsImage(p) && ops.isVideo(p) == IsVideo(p)
    ensures forall p :: ops.size(p) == 0 && ops.metadata(p).size == 0
    ensures forall p :: ops.metadata(p).hash == p.mediaHash && ops.metadata(p).url == MediaURL(p)
  {
    Worker.PostOps(
      IsImage,
      IsVideo,
      _ => 0,
      Metadata,
      p => SaveMedia(p, client, maxRetries, digest, fs),
      p => SaveMetadata(p, fs, encode))
  }

  /** Every result the worker reports for a Danbooru post has size 0, so the
      volume accounting never grows for these posts, and the size cap never
      rejects one. */
  lemma NoVolumeAccounted(client: MediaClient, maxRetries: nat, digest: seq<byte> -> string, fs: FileSystem,
                          encode: Booru.Metadata -> Result<seq<byte>>, f: Worker.Filters, limiter: Outcome,
                          p: DanbooruPost)
    ensures var ops := Ops(client, maxRetries, digest, fs, encode);
            && (Worker.WorkerFunc(ops, f, limiter, p).metadata.Some? ==>
                  Worker.WorkerFunc(ops, f, limiter, p).metadata.value.size == 0)
            && Worker.WorkerFunc(ops, f, limiter, p) == Worker.WorkerFunc(ops, f.(maxFileSizeMB := 0), limiter, p)
  {
    Worker.ZeroSizeIgnoresCap(Ops(client, maxRetries, digest, fs, encode), f, limiter, p);
  }
}
