/**
 * URLs and the same-host link filter (`get_internal_links`, CertCrawler.py:30-38).
 *
 * URLs are the strings Python passes around. Resolution (`urljoin`) and splitting
 * (`urlparse`) are library code; they are modelled as the two function-valued fields of
 * a `UrlLib`, about which nothing is assumed. Only the `scheme` and `netloc` parts of
 * a parsed URL are consulted by the crawler, so only those are modelled.
 */
module Urls {

  /** The two components of `urlparse(...)` that the crawler looks at. */
  datatype ParsedUrl = ParsedUrl(scheme: string, netloc: string)

  /** `urljoin(base, href)` and `urlparse(url)`, left uninterpreted. */
  datatype UrlLib = UrlLib(join: (string, string) -> string, parse: string -> ParsedUrl)

  /** The test of CertCrawler.py:36: a resolved link is kept when it has a scheme
      and the same network location as the page it was found on. */
  predicate IsInternal(lib: UrlLib, base: string, link: string)
  {
    lib.parse(link).scheme != "" && lib.parse(link).netloc == lib.parse(base).netloc
  }

  /** The set `get_internal_links(base, page)` returns when the anchors of the page carry
      the hrefs `hrefs`, in document order: every resolved href that passes the filter. */
  function InternalLinks(lib: UrlLib, base: string, hrefs: seq<string>): (r: set<string>)
    ensures forall link :: link in r ==> IsInternal(lib, base, link)
    ensures |r| <= |hrefs|
    decreases |hrefs|
  {
    if hrefs == [] then {}
    else
      var next := lib.join(base, hrefs[|hrefs| - 1]);
      var earlier := InternalLinks(lib, base, hrefs[..|hrefs| - 1]);
      if IsInternal(lib, base, next) then earlier + {next} else earlier
  }

  /** A link is returned exactly when it is the resolution of some href of the page and
      passes the same-host filter. */
  lemma {:induction false} InternalLinksExactly(lib: UrlLib, base: string, hrefs: seq<string>, link: string)
    ensures link in InternalLinks(lib, base, hrefs) <==>
      IsInternal(lib, base, link) && exists i :: 0 <= i < |hrefs| && lib.join(base, hrefs[i]) == link
    decreases |hrefs|
  {
    if hrefs != [] {
      var init := hrefs[..|hrefs| - 1];
      InternalLinksExactly(lib, base, init, link);
      if exists i :: 0 <= i < |hrefs| && lib.join(base, hrefs[i]) == link {
        var i :| 0 <= i < |hrefs| && lib.join(base, hrefs[i]) == link;
        if i < |init| {
          assert init[i] == hrefs[i];
        }
      }
      if exists i :: 0 <= i < |init| && lib.join(base, init[i]) == link {
        var i :| 0 <= i < |init| && lib.join(base, init[i]) == link;
        assert hrefs[i] == init[i];
      }
    }
  }

  /** Repeating an href that is already on the page adds nothing: the result is a set. */
  lemma DuplicateHrefCollapses(lib: UrlLib, base: string, hrefs: seq<string>, i: nat)
    requires i < |hrefs|
    ensures InternalLinks(lib, base, hrefs + [hrefs[i]]) == InternalLinks(lib, base, hrefs)
  {
    var more := hrefs + [hrefs[i]];
    assert more[..|more| - 1] == hrefs;
    var next := lib.join(base, hrefs[i]);
    if IsInternal(lib, base, next) {
      InternalLinksExactly(lib, base, hrefs, next);
    }
  }

  /** `get_internal_links` as the source writes it: a loop over the anchors that adds each
      kept link to a set. */
  method GetInternalLinks(lib: UrlLib, base: string, hrefs: seq<string>) returns (links: set<string>)
    ensures links == InternalLinks(lib, base, hrefs)
    ensures forall link :: link in links ==> IsInternal(lib, base, link)
  {
    links := {};
    for i := 0 to |hrefs|
      invariant links == InternalLinks(lib, base, hrefs[..i])
    {
      var next := lib.join(base, hrefs[i]);
      if IsInternal(lib, base, next) {
        links := links + {next};
      }
      assert hrefs[..i + 1][..i] == hrefs[..i];
    }
    assert hrefs[..|hrefs|] == hrefs;
  }
}
