/**
 * The web as the crawler sees it, and `fetch` (CertCrawler.py:18-28) as an oracle over it.
 *
 * A page is what the HTML parser would extract from a body: the text itself (only its
 * emptiness matters), the `href` of every anchor in document order, and the numbers of
 * `<form>` elements and of `<input type="text">` elements.
 */
module Web {
  import opened Wrappers
  import opened Urls

  datatype Page = Page(text: string, hrefs: seq<string>, forms: nat, textInputs: nat)

  /** The outcome of one GET: an HTTP status with a body, or an exception (timeout,
      connection error, ...). */
  datatype Response = Response(status: int, page: Page) | Unreachable

  /** What each URL answers. A URL without an entry cannot be connected to. */
  type WebMap = map<string, Response>

  /** `fetch(url)`: the body on status 200, `None` on any other status and on any exception. */
  function Fetch(web: WebMap, url: string): (r: Option<Page>)
    ensures r.Some? <==> url in web && web[url].Response? && web[url].status == 200
    ensures r.Some? ==> r.value == web[url].page
  {
    if url !in web then None
    else match web[url]
      case Unreachable => None
      case Response(status, page) => if status == 200 then Some(page) else None
  }

  /** Python truthiness of `fetch`'s result (CertCrawler.py:44): `None` and `""` are false. */
  predicate Truthy(r: Option<Page>)
  {
    r.Some? && r.value.text != ""
  }

  /** The test of CertCrawler.py:48 that makes the crawler log "Form Found". */
  predicate HasForm(page: Page)
  {
    page.forms > 0 || page.textInputs > 0
  }

  /** A URL whose page is fetched successfully and holds a form or a text input. */
  predicate FormPage(web: WebMap, url: string)
  {
    Truthy(Fetch(web, url)) && HasForm(Fetch(web, url).value)
  }

  /** The URLs `crawl(url, depth)` recurses into, whatever `depth` is (CertCrawler.py:44-51):
      the internal links of the fetched page, or none at all when the fetch is falsy. */
  function Children(web: WebMap, lib: UrlLib, url: string): (r: set<string>)
    ensures forall link :: link in r ==> IsInternal(lib, url, link)
    ensures !Truthy(Fetch(web, url)) ==> r == {}
  {
    var page := Fetch(web, url);
    if Truthy(page) then InternalLinks(lib, url, page.value.hrefs) else {}
  }

  /** A link is followed from `url` exactly when the page was fetched with a non-empty body
      and one of its hrefs resolves to that link, which passes the same-host filter. */
  lemma ChildrenExactly(web: WebMap, lib: UrlLib, url: string, link: string)
    ensures link in Children(web, lib, url) <==>
      && url in web && web[url].Response? && web[url].status == 200 && web[url].page.text != ""
      && IsInternal(lib, url, link)
      && exists i :: 0 <= i < |web[url].page.hrefs| && lib.join(url, web[url].page.hrefs[i]) == link
  {
    if Truthy(Fetch(web, url)) {
      InternalLinksExactly(lib, url, Fetch(web, url).value.hrefs, link);
    }
  }
}
