/** The request cache and the two pure mappings of the Hako source (`vi.hakovn/src/lib.rs`): a one-slot cache
    in front of the host's HTTP client, the names of the listings and the deep-link classification. */
module HakoLib {
  import opened Wrappers
  import opened Bytes
  import opened Text
  import Decimal
  import UrlJoin

  /** `BASE_URL`, also sent as the `Referer` of every request. */
  const BaseUrl: string := UrlJoin.HakoBase

  /** A `GET` request as the host receives it: the URL and its `Referer` header. */
  datatype Request = Request(url: string, referer: string)

  /** The host's HTTP client. What it answers is outside the program: the body of the `n`-th request
      (counting from 0) for `url` is `serve(url, n)`. Every request is logged in order. */
  class Network {
    const serve: (string, nat) -> seq<byte>
    var requests: seq<Request>

    constructor (serve: (string, nat) -> seq<byte>)
      ensures this.serve == serve && requests == []
    {
      this.serve := serve;
      requests := [];
    }

    /** `Request::get(url).header("Referer", referer).data()`. */
    method Get(url: string, referer: string) returns (body: seq<byte>)
      modifies this
      ensures requests == old(requests) + [Request(url, referer)]
      ensures body == serve(url, |old(requests)|)
    {
      body := serve(url, |requests|);
      requests := requests + [Request(url, referer)];
    }
  }

  /** `Cache`: the id of the last page fetched and its bytes. */
  class Cache {
    var id: Option<string>
    var data: Option<seq<byte>>

    /** The empty cache the static starts as. */
    constructor ()
      ensures id == None && data == None
    {
      id := None;
      data := None;
    }

    /** The bytes held for `url`, if any: the id must be `url` and the data present. */
    function Cached(url: string): (r: Option<seq<byte>>)
      reads this
      ensures r.Some? <==> id == Some(url) && data.Some?
      ensures r.Some? ==> r == data
    {
      if id == Some(url) && data.Some? then data else None
    }

    /** `req_with_cache`, up to handing the bytes to the HTML parser: a hit returns the held bytes without
        a request; a miss fetches the page once, with the base URL as `Referer`, and holds it, replacing
        whatever was held before. */
    method ReqWithCache(url: string, net: Network) returns (page: seq<byte>)
      modifies this, net
      ensures old(Cached(url)).Some? ==>
        page == old(Cached(url)).value && id == old(id) && data == old(data) && net.requests == old(net.requests)
      ensures old(Cached(url)).None? ==>
        net.requests == old(net.requests) + [Request(url, BaseUrl)]
        && page == net.serve(url, |old(net.requests)|)
        && id == Some(url) && data == Some(page)
      ensures Cached(url) == Some(page)
      ensures forall other :: other != url ==> Cached(other) == None || Cached(other) == old(Cached(other))
    {
      if id.Some? {
        if id.value == url {
          if data.Some? {
            return data.value;
          }
        }
      }
      var htmlData := net.Get(url, BaseUrl);
      id := Some(url);
      data := Some(htmlData);
      page := htmlData;
    }
  }

  /** Two requests for the same URL in a row: the second is a hit, so together they fetch at most once and
      both return the same bytes. */
  method RequestTwice(cache: Cache, net: Network, url: string) returns (first: seq<byte>, second: seq<byte>)
    modifies cache, net
    ensures first == second
    ensures |net.requests| <= |old(net.requests)| + 1
  {
    first := cache.ReqWithCache(url, net);
    second := cache.ReqWithCache(url, net);
  }

  /** A request for another URL in between evicts the first page: the cache holds one entry only. */
  method RequestEvicts(cache: Cache, net: Network, url: string, other: string) returns (page: seq<byte>)
    requires other != url
    modifies cache, net
    ensures cache.Cached(other) == Some(page)
    ensures cache.Cached(url) == None
  {
    var _ := cache.ReqWithCache(url, net);
    page := cache.ReqWithCache(other, net);
  }

  // ---------------------------------------------------------------------------------------------------------
  // get_manga_listing

  /** The error kinds the source returns. */
  datatype ErrorKind = Unimplemented

  const SangTac: string := "S\U{E1}ng t\U{E1}c"
  const AiDich: string := "AI d\U{1ECB}ch"
  const DanhSach: string := "Danh s\U{E1}ch"

  /** The path of a listing, from its name. */
  function ListingSlug(name: string): (r: Result<string, ErrorKind>)
  {
    if name == SangTac then Ok("sang-tac")
    else if name == AiDich then Ok("ai-dich")
    else if name == DanhSach then Ok("danh-sach")
    else Err(Unimplemented)
  }

  /** Exactly the three listing names have a path; different names have different paths, and a path is a
      single segment with no query. */
  lemma ListingSlugIff(name: string, other: string)
    ensures ListingSlug(name).Ok? <==> name in {SangTac, AiDich, DanhSach}
    ensures ListingSlug(name).Ok? && ListingSlug(name) == ListingSlug(other) ==> name == other
    ensures ListingSlug(name).Ok? ==> var slug := ListingSlug(name).value;
      |slug| > 0 && forall i :: 0 <= i < |slug| ==> slug[i] != '/' && slug[i] != '?'
  {
    if ListingSlug(name).Ok? && ListingSlug(name) == ListingSlug(other) {
      assert name == other by {
        if name == SangTac { assert ListingSlug(other).value[0] == 's'; }
        else if name == AiDich { assert ListingSlug(other).value[0] == 'a'; }
        else { assert ListingSlug(other).value[0] == 'd'; }
      }
    }
  }

  /** The URL `get_manga_listing` requests for page `page` of the named listing. */
  function ListingUrl(name: string, page: int): Result<string, ErrorKind>
  {
    match ListingSlug(name)
    case Err(e) => Err(e)
    case Ok(slug) => Ok(BaseUrl + "/" + slug + "?page=" + Decimal.FormatInt(page))
  }

  /** The listing URL reads back: after the base and a `/` comes the listing's path up to the first `?`,
      then `page=` and the page number as `str::parse` reads it. */
  lemma ListingUrlReadsBack(name: string, page: int, slug: string)
    requires ListingSlug(name) == Ok(slug) && Decimal.IsI32(page)
    ensures ListingUrl(name, page).Ok?
    ensures var u := ListingUrl(name, page).value;
      StartsWith(u, BaseUrl + "/")
      && var rest := u[|BaseUrl| + 1..];
         FirstIn(rest, {'?'}) == Some(|slug|) && rest[..|slug|] == slug
         && rest[|slug|..|slug| + 6] == "?page=" && Decimal.ParseI32(rest[|slug| + 6..]) == Some(page)
  {
    ListingSlugIff(name, name);
    var digits := Decimal.FormatInt(page);
    var u := BaseUrl + "/" + slug + "?page=" + digits;
    var rest := slug + "?page=" + digits;
    assert u == (BaseUrl + "/") + rest;
    assert u[..|BaseUrl| + 1] == BaseUrl + "/";
    assert u[|BaseUrl| + 1..] == rest;
    assert rest[|slug|] == '?';
    FirstInFirst(rest, {'?'}, |slug|);
    assert rest[..|slug|] == slug;
    assert rest[|slug|..|slug| + 6] == "?page=";
    assert rest[|slug| + 6..] == digits;
    Decimal.ParseFormat(page);
  }

  /** An unknown listing name is "Unimplemented" whatever the page. */
  lemma ListingUnknown(name: string, page: int)
    requires name !in {SangTac, AiDich, DanhSach}
    ensures ListingUrl(name, page) == Err(Unimplemented)
  {
    ListingSlugIff(name, name);
  }

  // ---------------------------------------------------------------------------------------------------------
  // handle_url

  /** The last `/`-separated piece of a URL (`split('/').last()`, which always exists). */
  function LastSegment(url: string): (seg: string)
  {
    var parts := Split(url, {'/'});
    parts[|parts| - 1]
  }

  /** The last piece holds no `/` and ends the URL: it is the whole URL, or a `/` precedes it. */
  lemma LastSegmentShape(url: string)
    ensures forall i :: 0 <= i < |LastSegment(url)| ==> LastSegment(url)[i] != '/'
    ensures EndsWith(url, LastSegment(url))
    ensures LastSegment(url) == url || url[|url| - |LastSegment(url)| - 1] == '/'
  {
    var parts := Split(url, {'/'});
    JoinSplit(url, '/');
    JoinWithLast(parts, '/');
    if |parts| == 1 {
      assert url == parts[0];
    }
  }

  /** A URL without `/` is its own last piece. */
  lemma LastSegmentOfSlashless(url: string)
    requires forall i :: 0 <= i < |url| ==> url[i] != '/'
    ensures LastSegment(url) == url
  {
    SplitNoSeparator(url, {'/'});
  }

  /** What `handle_url` hands to `get_manga_details`, or the error it returns. */
  function HandleUrl(url: string): (r: Result<string, ErrorKind>)
    ensures r.Ok? <==> Contains(LastSegment(url), "truyen") || Contains(LastSegment(url), "ai-dich")
    ensures r.Ok? ==> r.value == LastSegment(url)
    ensures r.Err? ==> r.error == Unimplemented
  {
    var id := LastSegment(url);
    if Contains(id, "truyen") || Contains(id, "ai-dich") then Ok(id) else Err(Unimplemented)
  }

  /** The manga branch is taken exactly when the last piece names a story or a machine translation; the id it
      passes on is that piece, free of `/`, at the end of the URL. */
  lemma HandleUrlShape(url: string)
    requires HandleUrl(url).Ok?
    ensures var id := HandleUrl(url).value;
      EndsWith(url, id) && (forall i :: 0 <= i < |id| ==> id[i] != '/')
      && (Contains(id, "truyen") || Contains(id, "ai-dich"))
  {
    LastSegmentShape(url);
  }

  /** A trailing `/` leaves an empty last piece, which names nothing: such a URL is "Unimplemented". */
  lemma HandleUrlTrailingSlash(url: string)
    requires url != [] && url[|url| - 1] == '/'
    ensures HandleUrl(url) == Err(Unimplemented)
  {
    LastSegmentShape(url);
  }
}
