/**
 * The `index` request handler: look the page up in memcache under a digest of
 * the path, and on a miss or a flush request rebuild it from the bucket listing,
 * render it and try to store it back.
 *
 * Outside services are parameters: the digest (md5 hex), the template renderer,
 * the bucket listing and whether memcache accepted a write.
 */
module Index {
  import opened Wrappers
  import opened Entities

  /** The memcache service, seen as the pages it holds under their page ids. */
  class Memcache {
    var pages: map<string, string>

    constructor()
      ensures pages == map[]
    {
      pages := map[];
    }

    /** `memcache.get(key)`: the stored page, or `None` on a miss. */
    method Get(key: string) returns (r: Option<string>)
      ensures r.Some? <==> key in pages
      ensures r.Some? ==> r.value == pages[key]
    {
      if key in pages {
        r := Some(pages[key]);
      } else {
        r := None;
      }
    }

    /** `memcache.set(key, value, CACHE_TTL)`: the service may refuse the write
        (`accepted` is its answer), and then nothing is stored. */
    method Set(key: string, value: string, accepted: bool) returns (stored: bool)
      modifies this
      ensures stored == accepted
      ensures pages == if stored then old(pages)[key := value] else old(pages)
    {
      if accepted {
        pages := pages[key := value];
      }
      stored := accepted;
    }
  }

  /** `path.encode('ascii', errors='ignore')`: every non-ASCII character is dropped. */
  function AsciiOnly(s: string): (r: string)
    ensures |r| <= |s|
    ensures forall i :: 0 <= i < |r| ==> r[i] < 128 as char
  {
    if s == [] then []
    else (if s[0] < 128 as char then [s[0]] else []) + AsciiOnly(s[1..])
  }

  lemma {:induction false} AsciiOnlyConcat(a: string, b: string)
    ensures AsciiOnly(a + b) == AsciiOnly(a) + AsciiOnly(b)
  {
    if a == [] {
      assert a + b == b;
    } else {
      assert (a + b)[0] == a[0];
      assert (a + b)[1..] == a[1..] + b;
      AsciiOnlyConcat(a[1..], b);
    }
  }

  /** An ASCII path is kept as it is. */
  lemma {:induction false} AsciiOnlyKeepsAscii(s: string)
    requires forall i :: 0 <= i < |s| ==> s[i] < 128 as char
    ensures AsciiOnly(s) == s
  {
    if s != [] {
      AsciiOnlyKeepsAscii(s[1..]);
    }
  }

  lemma AsciiOnlyIdempotent(s: string)
    ensures AsciiOnly(AsciiOnly(s)) == AsciiOnly(s)
  {
    AsciiOnlyKeepsAscii(AsciiOnly(s));
  }

  /** `hashlib.md5(...).hexdigest()` of the ASCII projection of the path. */
  function PageId(digest: string -> string, path: string): string {
    digest(AsciiOnly(path))
  }

  /** Inserting a non-ASCII character anywhere in a path leaves its page id unchanged,
      so such paths share one cache slot. */
  lemma PageIdIgnoresNonAscii(digest: string -> string, a: string, c: char, b: string)
    requires c >= 128 as char
    ensures PageId(digest, a + [c] + b) == PageId(digest, a + b)
  {
    AsciiOnlyConcat(a + [c], b);
    AsciiOnlyConcat(a, [c]);
    AsciiOnlyConcat(a, b);
    assert [c][1..] == [];
    assert AsciiOnly([c]) == [];
    assert AsciiOnly(a + [c]) == AsciiOnly(a);
  }

  /** `request.args.get('flush')` used as a condition: any non-empty value, "0" included,
      asks for a rebuild. */
  predicate Truthy(flush: Option<string>) {
    flush.Some? && flush.value != ""
  }

  lemma TruthyExamples()
    ensures Truthy(Some("1")) && Truthy(Some("0"))
    ensures !Truthy(Some("")) && !Truthy(None)
  {
  }

  /** The `flush_url` handed to the template. */
  function FlushUrl(url: string, refreshing: bool): (r: string)
    ensures r == url + "?flush=1" <==> !refreshing
    ensures url <= r
  {
    if refreshing then url else url + "?flush=1"
  }

  /** The `path` handed to the template. */
  function DisplayPath(path: string): (r: string)
    ensures |r| == |path| + 1 && r[0] == '/' && r[1..] == path
  {
    "/" + path
  }

  /** The cache decides the answer: a stored page and no flush request. */
  predicate Hit(pages: map<string, string>, digest: string -> string, path: string, flush: Option<string>) {
    PageId(digest, path) in pages && !Truthy(flush)
  }

  /** The page `index` returns, from the cache state before the request; `None` when the
      listing loop raised. */
  function Response(pages: map<string, string>, digest: string -> string,
                    render: (string, string, seq<Entity>) -> string,
                    path: string, flush: Option<string>, url: string,
                    listing: seq<ListingEntry>): Option<string>
  {
    if Hit(pages, digest, path, flush) then Some(pages[PageId(digest, path)])
    else
      match EntitiesOf(path, listing)
      case None => None
      case Some(entities) => Some(render(DisplayPath(path), FlushUrl(url, Truthy(flush)), entities))
  }

  /** The handler. It returns `Response` of the cache it found; the cache changes only
      after a rebuild that rendered a page and that memcache accepted, and then only at
      the page id. */
  method Index(mc: Memcache, digest: string -> string,
               render: (string, string, seq<Entity>) -> string,
               path: string, flush: Option<string>, url: string,
               listing: seq<ListingEntry>, accepted: bool) returns (page: Option<string>)
    modifies mc
    ensures page == Response(old(mc.pages), digest, render, path, flush, url, listing)
    ensures Hit(old(mc.pages), digest, path, flush) || page.None? ==> mc.pages == old(mc.pages)
    ensures !Hit(old(mc.pages), digest, path, flush) && page.Some? ==>
      mc.pages == if accepted then old(mc.pages)[PageId(digest, path) := page.value] else old(mc.pages)
  {
    var refreshCache := Truthy(flush);
    var pageId := PageId(digest, path);
    page := mc.Get(pageId);
    if page.None? || refreshCache {
      var entities := BuildEntities(path, listing);
      if entities.None? {
        return None;
      }
      var html := render(DisplayPath(path), FlushUrl(url, refreshCache), entities.value);
      page := Some(html);
      var stored := mc.Set(pageId, html, accepted);
    }
  }

  /** On a hit the listing is never consulted. */
  lemma HitIgnoresListing(pages: map<string, string>, digest: string -> string,
                          render: (string, string, seq<Entity>) -> string,
                          path: string, flush: Option<string>, url: string,
                          listing: seq<ListingEntry>, listing': seq<ListingEntry>)
    requires Hit(pages, digest, path, flush)
    ensures Response(pages, digest, render, path, flush, url, listing) == Some(pages[PageId(digest, path)])
    ensures Response(pages, digest, render, path, flush, url, listing)
         == Response(pages, digest, render, path, flush, url, listing')
  {
  }

  /** A flush request answers the same whatever the cache holds. */
  lemma FlushIgnoresCache(pages: map<string, string>, pages': map<string, string>,
                          digest: string -> string,
                          render: (string, string, seq<Entity>) -> string,
                          path: string, flush: Option<string>, url: string,
                          listing: seq<ListingEntry>)
    requires Truthy(flush)
    ensures Response(pages, digest, render, path, flush, url, listing)
         == Response(pages', digest, render, path, flush, url, listing)
  {
  }

  /** A request fails only on a miss or flush, and then exactly when some entry of the
      listing raises. A rebuilt page renders the listing's entities, one per entry and in
      order, with the flush link `url + "?flush=1"`, or `url` itself when the request was
      a flush. */
  lemma ResponseSpec(pages: map<string, string>, digest: string -> string,
                     render: (string, string, seq<Entity>) -> string,
                     path: string, flush: Option<string>, url: string,
                     listing: seq<ListingEntry>)
    ensures Response(pages, digest, render, path, flush, url, listing).None? <==>
      !Hit(pages, digest, path, flush) &&
      exists i :: 0 <= i < |listing| && EntityOf(path, listing[i]).None?
    ensures !Hit(pages, digest, path, flush) &&
            Response(pages, digest, render, path, flush, url, listing).Some? ==>
      && EntitiesOf(path, listing).Some?
      && var es := EntitiesOf(path, listing).value;
         && |es| == |listing|
         && (forall i :: 0 <= i < |listing| ==> Some(es[i]) == EntityOf(path, listing[i]))
         && Response(pages, digest, render, path, flush, url, listing)
              == Some(render(DisplayPath(path), if Truthy(flush) then url else url + "?flush=1", es))
  {
    EntitiesOfSpec(path, listing);
  }

  /** After a rebuilt page is stored, the next request without a flush for any path with
      the same ASCII projection is served that page from the cache, whatever the bucket
      lists by then. */
  lemma StoredPageIsServed(pages: map<string, string>, digest: string -> string,
                           render: (string, string, seq<Entity>) -> string,
                           path: string, flush: Option<string>, url: string,
                           listing: seq<ListingEntry>,
                           path': string, flush': Option<string>, url': string,
                           listing': seq<ListingEntry>)
    requires !Hit(pages, digest, path, flush)
    requires Response(pages, digest, render, path, flush, url, listing).Some?
    requires AsciiOnly(path') == AsciiOnly(path)
    requires !Truthy(flush')
    ensures
      var page := Response(pages, digest, render, path, flush, url, listing).value;
      Response(pages[PageId(digest, path) := page], digest, render, path', flush', url', listing')
        == Some(page)
  {
  }
}
