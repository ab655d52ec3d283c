/** What the site-specific post code shares: the `Metadata` record of
    booru/booru.go, the two supported host names, listing URLs with their
    query parameters, the image and video extension tables, and the oracles
    that stand for the network and the file system. */
module Booru {
  import opened Base
  import opened GoStrings
  import Retry

  /** The metadata record written next to every saved file. */
  datatype Metadata = Metadata(
    tags: seq<string>,
    copyright: seq<string>,
    characters: seq<string>,
    artists: seq<string>,
    hash: string,
    fromHost: string,
    url: string,
    size: nat)

  const DanbooruHost: string := "danbooru.donmai.us"
  const GelbooruHost: string := "gelbooru.com"

  /** A parsed URL: scheme, the host name as `URL.Hostname()` reports it,
      path, and the decoded query as `url.Values`. */
  datatype Url = Url(scheme: string, hostname: string, path: string, query: map<string, seq<string>>)

  /** `url.Values.Set`: the key gets exactly one value, replacing any it had. */
  function SetParam(u: Url, key: string, value: string): (r: Url)
    ensures r.query.Keys == u.query.Keys + {key}
    ensures r.query[key] == [value]
    ensures forall k :: k in u.query && k != key ==> r.query[k] == u.query[k]
    ensures r.scheme == u.scheme && r.hostname == u.hostname && r.path == u.path
  {
    u.(query := u.query[key := [value]])
  }

  /** The listing page actually requested: page 0 is sent as page 1. */
  function EffectivePage(page: nat): (n: nat)
    ensures n >= 1
    ensures page != 0 ==> n == page
  {
    if page == 0 then 1 else page
  }

  /** The decimal text of the requested page, as sent in the query.  Reading
      it back gives the effective page, so distinct pages from 1 on are
      distinct requests. */
  function PageParam(page: nat): (s: string)
    ensures s != [] && IsDigits(s)
    ensures ParseDecimal(s) == EffectivePage(page)
  {
    DecimalRoundTrip(EffectivePage(page));
    Decimal(EffectivePage(page))
  }

  /** Extensions, without the dot, that the posts treat as images. */
  const ImageExtensions: set<string> := {"jpg", "jpeg", "png", "gif", "webp", "bmp", "tiff"}

  /** Extensions, without the dot, that the posts treat as videos. */
  const VideoExtensions: set<string> := {"mp4", "webm", "avi", "mov", "mkv", "flv", "wmv"}

  /** No extension is in both tables. */
  lemma NotImageAndVideo(e: string)
    ensures !(e in ImageExtensions && e in VideoExtensions)
  {
  }

  /** Every entry of the tables gives a well-formed `filepath.Ext` result
      once the dot is put back. */
  lemma TableEntryIsExtension(e: string)
    requires e in ImageExtensions || e in VideoExtensions
    ensures IsExtension("." + e)
  {
  }

  /** The first non-empty candidate, or "" when every one is empty. */
  function FirstNonEmpty(candidates: seq<string>): (r: string)
    ensures r == [] <==> forall i :: 0 <= i < |candidates| ==> candidates[i] == []
    ensures r != [] ==> exists i :: 0 <= i < |candidates| && candidates[i] == r &&
                                    forall j :: 0 <= j < i ==> candidates[j] == []
  {
    if candidates == [] then []
    else if candidates[0] != [] then candidates[0]
    else
      var r := FirstNonEmpty(candidates[1..]);
      assert forall i :: 1 <= i < |candidates| ==> candidates[i] == candidates[1..][i - 1];
      r
  }

  /** `client.Get(url)` as an oracle: `client(url)(k)` is what the k-th call
      for that URL returns. */
  type MediaClient = string -> (nat -> Retry.Attempt)

  /** The same for listing requests, keyed by the URL record. */
  type ListingClient = Url -> (nat -> Retry.Attempt)

  /** What both sites' `GetPosts` do with their listing URL: download it with
      the retrying GET and decode the JSON body.  Only that URL is requested;
      a download error is returned as it is, and posts come back only from a
      body that was downloaded and decoded. */
  function FetchListing<T>(u: Url, client: ListingClient, maxRetries: nat,
                           decode: seq<byte> -> Result<seq<T>>): (r: Result<seq<T>>)
    ensures var data := Retry.GetContents(client(u), maxRetries);
            && (data.Err? ==> r == Err(data.error))
            && (r.Ok? ==> data.Ok? && decode(data.value) == r)
  {
    match Retry.GetContents(client(u), maxRetries)
    case Err(e) => Err(e)
    case Ok(data) => decode(data)
  }

  /** Downloading a URL with the retrying `GetContents`. */
  function Download(client: MediaClient, url: string, maxRetries: nat): Result<seq<byte>> {
    Retry.GetContents(client(url), maxRetries)
  }

  /** The file system as an oracle: what `os.Create` of a name, and a write of
      some bytes to that file, report. */
  datatype FileSystem = FileSystem(create: string -> Outcome, write: (string, seq<byte>) -> Outcome)

  /** The name of the metadata file for a media hash. */
  function MetadataFileName(hash: string): string {
    hash + "_metadata.json"
  }

  /** A media file named `hash + ext` with `ext` empty or an extension never
      collides with the metadata file of the same hash. */
  lemma MediaAndMetadataFilesDiffer(hash: string, ext: string)
    requires ext == [] || IsExtension(ext)
    ensures hash + ext != MetadataFileName(hash)
  {
    if ext == [] {
      assert |hash + ext| < |MetadataFileName(hash)|;
    } else {
      assert (hash + ext)[|hash|] == '.';
      assert MetadataFileName(hash)[|hash|] == '_';
    }
  }
}
