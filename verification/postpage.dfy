/** Scraping a single post page and saving its media (booru/post.go).

    The parsed page is abstracted to what its CSS lookups find: the text of
    each matching tag anchor in document order, the `src` of the video
    element ("" when there is none or it has no `src`), and the `href` /
    `srcset` attribute of the first matching element when such an element
    exists and carries the attribute. */
module PostPage {
  import opened Base
  import opened GoStrings
  import opened Booru
  import Retry

  datatype Tag = Tag(isArtist: bool, isCharacter: bool, value: string)

  function NewTag(value: string, isArtist: bool, isCharacter: bool): (t: Tag)
    ensures t.value == value && t.isArtist == isArtist && t.isCharacter == isCharacter
  {
    Tag(isArtist, isCharacter, value)
  }

  datatype PostInfo = PostInfo(tags: seq<Tag>, mediaURL: string)

  datatype Doc = Doc(
    artistTags: seq<string>,
    characterTags: seq<string>,
    generalTags: seq<string>,
    videoSrc: string,
    originalLinkHref: Option<string>,
    pictureSourceSrcset: Option<string>)

  /** One tag per text, all with the same flags. */
  function Tagged(values: seq<string>, isArtist: bool, isCharacter: bool): (r: seq<Tag>)
    ensures |r| == |values|
    ensures forall i :: 0 <= i < |values| ==> r[i] == NewTag(values[i], isArtist, isCharacter)
  {
    seq(|values|, i requires 0 <= i < |values| => NewTag(values[i], isArtist, isCharacter))
  }

  function Values(tags: seq<Tag>): (r: seq<string>)
    ensures |r| == |tags| && forall i :: 0 <= i < |tags| ==> r[i] == tags[i].value
  {
    seq(|tags|, i requires 0 <= i < |tags| => tags[i].value)
  }

  /** `getTagsFromDoc`.  Only "danbooru.donmai.us" is supported.  The tags
      come out artists first, then characters, then general tags, each group
      in document order; artist tags are flagged as artists only, character
      tags as characters only, general tags with neither flag. */
  function GetTagsFromDoc(doc: Doc, hostname: string): (r: Result<seq<Tag>>)
    ensures hostname != DanbooruHost ==> r == Err(HostNotSupported(hostname))
    ensures hostname == DanbooruHost ==> r.Ok?
    ensures r.Ok? ==> Values(r.value) == doc.artistTags + doc.characterTags + doc.generalTags
    ensures r.Ok? ==> forall i :: 0 <= i < |r.value| ==>
              && (r.value[i].isArtist <==> i < |doc.artistTags|)
              && (r.value[i].isCharacter <==> |doc.artistTags| <= i < |doc.artistTags| + |doc.characterTags|)
    ensures r.Ok? ==> forall i :: 0 <= i < |r.value| ==> !(r.value[i].isArtist && r.value[i].isCharacter)
  {
    if hostname == DanbooruHost then
      var tags := Tagged(doc.artistTags, true, false)
                + Tagged(doc.characterTags, false, true)
                + Tagged(doc.generalTags, false, false);
      assert Values(tags) == doc.artistTags + doc.characterTags + doc.generalTags;
      Ok(tags)
    else Err(HostNotSupported(hostname))
  }

  /** The first present candidate. */
  function FirstSome<T>(candidates: seq<Option<T>>): (r: Option<T>)
    ensures r.None? <==> forall i :: 0 <= i < |candidates| ==> candidates[i].None?
    ensures r.Some? ==> exists i :: 0 <= i < |candidates| && candidates[i] == r &&
                                    forall j :: 0 <= j < i ==> candidates[j].None?
  {
    if candidates == [] then None
    else if candidates[0].Some? then candidates[0]
    else
      var r := FirstSome(candidates[1..]);
      assert forall i :: 1 <= i < |candidates| ==> candidates[i] == candidates[1..][i - 1];
      r
  }

  /** The media sources in order of preference: a video's `src`, the
      original-image link's `href`, the picture source's `srcset`. */
  function MediaCandidates(doc: Doc): seq<Option<string>> {
    [if doc.videoSrc != [] then Some(doc.videoSrc) else None, doc.originalLinkHref, doc.pictureSourceSrcset]
  }

  /** `getMediaURLFromDoc`.  Only "danbooru.donmai.us" is supported.  With
      `imagesOnly`, a page with a video is rejected and never yields a URL;
      otherwise the first source in order of preference is returned, and a
      page without any is "media not found". */
  function GetMediaURLFromDoc(doc: Doc, hostname: string, imagesOnly: bool): (r: Result<string>)
    ensures hostname != DanbooruHost ==> r == Err(HostNotSupported(hostname))
    ensures hostname == DanbooruHost && imagesOnly && doc.videoSrc != [] ==> r == Err(VideoPost)
    ensures hostname == DanbooruHost && !(imagesOnly && doc.videoSrc != []) ==>
              match FirstSome(MediaCandidates(doc))
              case None => r == Err(MediaNotFound)
              case Some(url) => r == Ok(url)
    ensures imagesOnly && r.Ok? ==> doc.videoSrc == []
  {
    if hostname == DanbooruHost then
      var cs := MediaCandidates(doc);
      assert cs[1..] == [doc.originalLinkHref, doc.pictureSourceSrcset];
      assert cs[1..][1..] == [doc.pictureSourceSrcset];
      assert cs[1..][1..][1..] == [];
      assert FirstSome(cs[1..][1..]) == doc.pictureSourceSrcset;
      assert FirstSome(cs[1..]) == if doc.originalLinkHref.Some? then doc.originalLinkHref else doc.pictureSourceSrcset;
      if doc.videoSrc != [] && imagesOnly then Err(VideoPost)
      else if doc.videoSrc != [] then Ok(doc.videoSrc)
      else if doc.originalLinkHref.Some? then Ok(doc.originalLinkHref.value)
      else if doc.pictureSourceSrcset.Some? then Ok(doc.pictureSourceSrcset.value)
      else Err(MediaNotFound)
    else Err(HostNotSupported(hostname))
  }

  /** `GetContents` of this file: the retrying GET, exactly 200 OK, the whole
      body, plus the Content-Type header.  It succeeds exactly when the
      retrying `GetContents` does, with the same data and the same error. */
  function GetContents(get: nat -> Retry.Attempt, retries: nat): (r: Result<(seq<byte>, string)>)
    ensures r.Ok? <==> Retry.GetContents(get, retries).Ok?
    ensures r.Ok? ==> r.value.0 == Retry.GetContents(get, retries).value
    ensures r.Ok? ==> r.value.1 == Retry.Retry(get, retries).outcome.value.contentType
    ensures r.Err? ==> r.error == Retry.GetContents(get, retries).error
  {
    match Retry.Retry(get, retries).outcome
    case Err(e) => Err(e)
    case Ok(response) =>
      if response.status != 200 then Err(UnexpectedStatus(response.status))
      else match response.body
        case Err(e) => Err(e)
        case Ok(data) => Ok((data, response.contentType))
  }

  /** The fixed Content-Type table: four image and seven video types. */
  const ContentTypeExtensions: map<string, string> := map[
    "image/jpeg" := ".jpg", "image/png" := ".png", "image/gif" := ".gif", "image/webp" := ".webp",
    "video/mp4" := ".mp4", "video/webm" := ".webm", "video/ogg" := ".ogg", "video/quicktime" := ".mov",
    "video/x-msvideo" := ".avi", "video/x-matroska" := ".mkv", "video/x-flv" := ".flv"]

  /** The extension `SaveMedia` gives a file: from the table for a known
      Content-Type, else the URL's extension, else ".bin".  It is always a
      well-formed extension. */
  function ExtensionFor(contentType: string, mediaURL: string): (e: string)
    ensures contentType in ContentTypeExtensions ==> e == ContentTypeExtensions[contentType]
    ensures contentType !in ContentTypeExtensions ==> e == (if Ext(mediaURL) != [] then Ext(mediaURL) else ".bin")
    ensures IsExtension(e)
  {
    match contentType
    case "image/jpeg" => ".jpg"
    case "image/png" => ".png"
    case "image/gif" => ".gif"
    case "image/webp" => ".webp"
    case "video/mp4" => ".mp4"
    case "video/webm" => ".webm"
    case "video/ogg" => ".ogg"
    case "video/quicktime" => ".mov"
    case "video/x-msvideo" => ".avi"
    case "video/x-matroska" => ".mkv"
    case "video/x-flv" => ".flv"
    case _ =>
      var ext := Ext(mediaURL);
      if ext != [] then ExtIsExtension(mediaURL); ext else ".bin"
  }

  /** `SaveMedia`: download, hash, pick the extension, create and write
      `<hash><ext>`, and return the hash.  Each failure comes back wrapped in
      the message of the step that failed, and no hash is returned with it. */
  function SaveMedia(client: MediaClient, mediaURL: string, retries: nat, digest: seq<byte> -> string,
                     fs: FileSystem): (r: Result<string>)
    ensures var got := GetContents(client(mediaURL), retries);
            && (got.Err? ==> r == Err(Wrapped("failed to get media", got.error)))
            && (got.Ok? ==>
                  var name := digest(got.value.0) + ExtensionFor(got.value.1, mediaURL);
                  && (fs.create(name).Fail? ==> r == Err(Wrapped("failed to create file", fs.create(name).error)))
                  && (fs.create(name).Pass? && fs.write(name, got.value.0).Fail? ==>
                        r == Err(Wrapped("failed to save media", fs.write(name, got.value.0).error)))
                  && (fs.create(name).Pass? && fs.write(name, got.value.0).Pass? ==> r == Ok(digest(got.value.0))))
  {
    match GetContents(client(mediaURL), retries)
    case Err(e) => Err(Wrapped("failed to get media", e))
    case Ok((data, contentType)) =>
      var hash := digest(data);
      var name := hash + ExtensionFor(contentType, mediaURL);
      if fs.create(name).Fail? then Err(Wrapped("failed to create file", fs.create(name).error))
      else if fs.write(name, data).Fail? then Err(Wrapped("failed to save media", fs.write(name, data).error))
      else Ok(hash)
  }

  /** The returned hash is the stem of the saved file's name: reading the
      name back with `filepath.Ext` gives exactly the chosen extension. */
  lemma SavedHashIsFileStem(client: MediaClient, mediaURL: string, retries: nat, digest: seq<byte> -> string,
                            fs: FileSystem)
    requires SaveMedia(client, mediaURL, retries, digest, fs).Ok?
    ensures var got := GetContents(client(mediaURL), retries);
            var ext := ExtensionFor(got.value.1, mediaURL);
            && SaveMedia(client, mediaURL, retries, digest, fs).value == digest(got.value.0)
            && Ext(SaveMedia(client, mediaURL, retries, digest, fs).value + ext) == ext
  {
    var got := GetContents(client(mediaURL), retries);
    ExtOfName(digest(got.value.0), ExtensionFor(got.value.1, mediaURL));
  }

  /** `ProcessPost`: fetch the page, extract the tags, then the media URL;
      the first failure is returned and no post info comes with it. */
  function ProcessPost(page: Result<Doc>, hostname: string, imagesOnly: bool): (r: Result<PostInfo>)
    ensures page.Err? ==> r == Err(page.error)
    ensures page.Ok? && GetTagsFromDoc(page.value, hostname).Err? ==> r == Err(GetTagsFromDoc(page.value, hostname).error)
    ensures page.Ok? && GetTagsFromDoc(page.value, hostname).Ok? ==>
              var media := GetMediaURLFromDoc(page.value, hostname, imagesOnly);
              && (media.Err? ==> r == Err(media.error))
              && (media.Ok? ==> r == Ok(PostInfo(GetTagsFromDoc(page.value, hostname).value, media.value)))
  {
    match page
    case Err(e) => Err(e)
    case Ok(doc) =>
      match GetTagsFromDoc(doc, hostname)
      case Err(e) => Err(e)
      case Ok(tags) =>
        match GetMediaURLFromDoc(doc, hostname, imagesOnly)
        case Err(e) => Err(e)
        case Ok(url) => Ok(PostInfo(tags, url))
  }

  /** On an unsupported host the tag extraction fails first, so the media
      lookup's own error is never seen. */
  lemma UnsupportedHostFailsOnTags(doc: Doc, hostname: string, imagesOnly: bool)
    requires hostname != DanbooruHost
    ensures ProcessPost(Ok(doc), hostname, imagesOnly) == Err(HostNotSupported(hostname))
    ensures GetMediaURLFromDoc(doc, hostname, imagesOnly) == Err(HostNotSupported(hostname))
  {
  }

  /** With `imagesOnly`, a page with a video never gives post info. */
  lemma ImagesOnlyRejectsVideoPages(doc: Doc, hostname: string)
    requires doc.videoSrc != []
    ensures ProcessPost(Ok(doc), hostname, true).Err?
  {
  }
}
