/** `GetPosts` of booru/booru.go: choose the site by the URL's host name,
    fetch that site's listing, and wrap each decoded post. */
module Dispatch {
  import opened Base
  import opened Booru
  import Gelbooru
  import Danbooru

  /** A post of either supported site. */
  datatype Post = DanbooruEntry(danbooru: Danbooru.DanbooruPost) | GelbooruEntry(gelbooru: Gelbooru.GelbooruPost)

  /** The loop `for i, post := range xs { posts[i] = &post }`.  Which post each
      pointer sees depends on the Go version: with a fresh loop variable per
      iteration each slot gets its own post, with one shared variable every
      slot sees the last one.  Either way there is one slot per decoded post. */
  function WrapAll<T>(xs: seq<T>, perIterationVariable: bool, wrap: T -> Post): (r: seq<Post>)
    ensures |r| == |xs|
    ensures perIterationVariable ==> forall i :: 0 <= i < |xs| ==> r[i] == wrap(xs[i])
    ensures !perIterationVariable ==> forall i :: 0 <= i < |xs| ==> r[i] == wrap(xs[|xs| - 1])
  {
    seq(|xs|, i requires 0 <= i < |xs| => if perIterationVariable then wrap(xs[i]) else wrap(xs[|xs| - 1]))
  }

  /** A Danbooru listing result as `GetPosts` returns it. */
  function FromDanbooru(d: Result<seq<Danbooru.DanbooruPost>>, perIterationVariable: bool): (r: Result<seq<Post>>)
    ensures d.Err? ==> r == Err(d.error)
    ensures d.Ok? ==> r.Ok? && |r.value| == |d.value| && forall i :: 0 <= i < |r.value| ==> r.value[i].DanbooruEntry?
    ensures d.Ok? && perIterationVariable ==>
              forall i :: 0 <= i < |r.value| ==> r.value[i] == DanbooruEntry(d.value[i])
    ensures d.Ok? && !perIterationVariable ==>
              forall i :: 0 <= i < |r.value| ==> r.value[i] == DanbooruEntry(d.value[|d.value| - 1])
  {
    match d
    case Err(e) => Err(e)
    case Ok(posts) => Ok(WrapAll(posts, perIterationVariable, p => DanbooruEntry(p)))
  }

  /** A Gelbooru listing result as `GetPosts` returns it. */
  function FromGelbooru(g: Result<seq<Gelbooru.GelbooruPost>>, perIterationVariable: bool): (r: Result<seq<Post>>)
    ensures g.Err? ==> r == Err(g.error)
    ensures g.Ok? ==> r.Ok? && |r.value| == |g.value| && forall i :: 0 <= i < |r.value| ==> r.value[i].GelbooruEntry?
    ensures g.Ok? && perIterationVariable ==>
              forall i :: 0 <= i < |r.value| ==> r.value[i] == GelbooruEntry(g.value[i])
    ensures g.Ok? && !perIterationVariable ==>
              forall i :: 0 <= i < |r.value| ==> r.value[i] == GelbooruEntry(g.value[|g.value| - 1])
  {
    match g
    case Err(e) => Err(e)
    case Ok(posts) => Ok(WrapAll(posts, perIterationVariable, p => GelbooruEntry(p)))
  }

  /** `GetPosts`.  Host name exactly "danbooru.donmai.us" or "gelbooru.com"
      selects that site; a site error comes back as it is, with no posts;
      on success there is one post of that site per decoded post, holding
      that post or the last one as `WrapAll` describes.  Any other
      host name is `ErrBooruNotSupported`. */
  function GetPosts(base: Url, page: nat, tags: string, client: ListingClient, maxRetries: nat,
                    decodeDanbooru: seq<byte> -> Result<seq<Danbooru.DanbooruPost>>,
                    decodeGelbooru: seq<byte> -> Result<seq<Gelbooru.GelbooruPost>>,
                    perIterationVariable: bool): (r: Result<seq<Post>>)
    ensures base.hostname == DanbooruHost ==>
              var d := Danbooru.GetPostsDanbooru(base, page, tags, client, maxRetries, decodeDanbooru);
              && (d.Err? ==> r == Err(d.error))
              && (d.Ok? ==> r.Ok? && |r.value| == |d.value| &&
                            forall i :: 0 <= i < |r.value| ==> r.value[i].DanbooruEntry?)
              && (d.Ok? && perIterationVariable ==>
                    forall i :: 0 <= i < |r.value| ==> r.value[i] == DanbooruEntry(d.value[i]))
              && (d.Ok? && !perIterationVariable ==>
                    forall i :: 0 <= i < |r.value| ==> r.value[i] == DanbooruEntry(d.value[|d.value| - 1]))
    ensures base.hostname == GelbooruHost ==>
              var g := Gelbooru.GetPostsGelbooru(base, page, tags, client, maxRetries, decodeGelbooru);
              && (g.Err? ==> r == Err(g.error))
              && (g.Ok? ==> r.Ok? && |r.value| == |g.value| &&
                            forall i :: 0 <= i < |r.value| ==> r.value[i].GelbooruEntry?)
              && (g.Ok? && perIterationVariable ==>
                    forall i :: 0 <= i < |r.value| ==> r.value[i] == GelbooruEntry(g.value[i]))
              && (g.Ok? && !perIterationVariable ==>
                    forall i :: 0 <= i < |r.value| ==> r.value[i] == GelbooruEntry(g.value[|g.value| - 1]))
    ensures base.hostname != DanbooruHost && base.hostname != GelbooruHost ==> r == Err(BooruNotSupported)
  {
    if base.hostname == DanbooruHost then
      FromDanbooru(Danbooru.GetPostsDanbooru(base, page, tags, client, maxRetries, decodeDanbooru), perIterationVariable)
    else if base.hostname == GelbooruHost then
      FromGelbooru(Gelbooru.GetPostsGelbooru(base, page, tags, client, maxRetries, decodeGelbooru), perIterationVariable)
    else Err(BooruNotSupported)
  }

  /** An unsupported host name, such as the "www." form of a supported one,
      is rejected without any request: the result does not depend on the
      client at all. */
  lemma UnsupportedHostNeverFetches(base: Url, page: nat, tags: string, c1: ListingClient, c2: ListingClient,
                                    maxRetries: nat,
                                    decodeDanbooru: seq<byte> -> Result<seq<Danbooru.DanbooruPost>>,
                                    decodeGelbooru: seq<byte> -> Result<seq<Gelbooru.GelbooruPost>>,
                                    perIterationVariable: bool)
    requires base.hostname == "www." + GelbooruHost || base.hostname == "www." + DanbooruHost
    ensures GetPosts(base, page, tags, c1, maxRetries, decodeDanbooru, decodeGelbooru, perIterationVariable)
            == GetPosts(base, page, tags, c2, maxRetries, decodeDanbooru, decodeGelbooru, perIterationVariable)
            == Err(BooruNotSupported)
  {
    assert |base.hostname| != |GelbooruHost| && |base.hostname| != |DanbooruHost|;
  }
}
