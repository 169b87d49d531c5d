# CertCrawler traversal engine, in Dafny

This project models the crawl engine of `CertCrawler.py`, a same-host web crawler.
The engine has four parts:

- `crawl(url, depth)` walks the site recursively. It checks and fills the global
  `visited_urls` set and stops past `max_depth`.
- `get_internal_links` keeps the resolved hrefs that have a scheme and the page's own
  network location.
- `fetch` is the single GET whose result the crawl tests for truthiness.
- `main` turns the user's input into the seed URL.

Modules, one per concern:

- `Wrappers` (Wrappers.dfy): the `Option` type.
- `Urls` (Urls.dfy): URLs as strings. `urljoin` and `urlparse` are the two uninterpreted,
  function-valued fields of a `UrlLib`. The file holds the same-host filter as a
  specification function (`InternalLinks`) and `get_internal_links` as the loop the source
  writes (`GetInternalLinks`), proved equal to it.
- `Web` (Web.dfy): the web as a map from URL to `Response` (an HTTP status with a page, or
  `Unreachable` for an exception). A page is the already-extracted anchor hrefs, its text,
  and the counts of `<form>` and `<input type="text">` elements. `Fetch` is the oracle.
  `Children` is the set of URLs a `crawl` call recurses into.
- `Seed` (Seed.dfy): the seed normalisation of `main`.
- `Trace` (Trace.dfy): traces of fetches, each entry a `Visit(url, depth)`. Properties of
  traces over an abstract link graph: no repetition, provenance (`Traced`), closure
  (`Closed`), reachability (`Reaches`).
- `Traversal` (Crawler.dfy): class `Crawler`, the crawl as the asyncio event loop runs it.
  Its field `visited` is `visited_urls` and its constant `maxDepth` is `max_depth`. The
  field `pending` holds the `crawl` tasks suspended in `fetch`, waiting for a response.
  Two ghost fields record what the program only does as I/O: `fetchLog` (every fetch,
  with its depth) and `formLog` (every "Form Found" line).

  A `crawl` task runs in two atomic steps, split at its suspension in `fetch`. That is
  the only point where other tasks' claims can interleave with it. The task also suspends
  at `await asyncio.gather` and more than once inside `fetch`, but nothing it does there
  reads or writes `visited_urls`.
  - `Claim` is the depth test, the `visited_urls` test and the insertion (CertCrawler.py:41-42),
    after which the task waits.
  - `Complete` handles the task's response. `Resume` covers the truthiness test and the form
    detection (CertCrawler.py:43-49). `Gather` covers `get_internal_links` and the
    `asyncio.gather` (CertCrawler.py:50-51).

  `asyncio.gather` starts one task per link. The event loop runs their first steps as one
  block, ahead of the claims of any gather reached later. Other tasks may run
  CertCrawler.py:43-50 in between, but they do not touch `visited_urls`. So `Gather` claims every link of the page
  at `depth + 1` in one step, in an order chosen by `:|`. `Drain` is the event loop. It
  picks the next waiting task with `:|`, because the network decides the order in which
  responses arrive. Every property is proved for every such order.

  This is exact for the source. Only claim steps read or write `visited_urls`. A gather's
  claims run as one block, and blocks run in the order their gathers were reached.
  `CrawlFrom` is `await crawl(seed, 0)` on an empty `visited_urls`, and `Run` is `main`.
- `Scenarios` (Scenarios.dfy): three whole runs on concrete webs, proved from the contracts
  alone.

The event loop terminates. Each handled response either marks visited a URL that some page
links to and that was not visited before, or removes its task and starts none. `Drain`
decreases the pair (links not yet visited, waiting tasks). This measure relies on the web
being finite: a `WebMap` has finitely many pages, so only finitely many links exist. The
source's own reason to stop is the depth gate of CertCrawler.py:41, which ends every
chain of tasks past `max_depth`, on any web.

Where the code's behaviour may surprise a reader, the model follows the code:

- `fetch` returns the body on status 200 even when it is empty. The empty body is then
  rejected by the truthiness test of `crawl` (CertCrawler.py:44), so a 200 with an empty
  body expands nothing. The model keeps the two steps apart: `Fetch` and then `Truthy`.
- Fragment-only hrefs (`#section`) are not discarded by the code. `urljoin` makes them
  `page#section`, which has the page's scheme and netloc, so the filter keeps them.
  Since `join` is uninterpreted here, the model keeps whatever `join` yields.
- URLs are not normalised before the `visited_urls` test. The set holds the raw strings
  that `urljoin` returns, and so does `visited`.
- The depth test is `depth <= max_depth`, so `max_depth = 3` allows four levels
  (depths 0 to 3). `ChainCrawl` shows this on a chain of five pages.

## Model

| member | source | states |
|---|---|---|
| `Urls.IsInternal` | CertCrawler.py:36 | a resolved link is kept when its scheme is non-empty and its netloc equals the page's |
| `Urls.InternalLinks` | CertCrawler.py:30-38 | every link returned has a non-empty scheme and the base URL's netloc; the result is a set, no larger than the number of hrefs |
| `Urls.InternalLinksExactly` | CertCrawler.py:33-37 | a link is returned if and only if it is the `urljoin` of some href of the page and passes the scheme/netloc test |
| `Urls.DuplicateHrefCollapses` | CertCrawler.py:31-37 | repeating an href already on the page leaves the result unchanged (duplicates collapse in the set) |
| `Urls.GetInternalLinks` | CertCrawler.py:30-38 | the loop that adds kept links to a set returns exactly `InternalLinks`, and every link it returns passes `IsInternal` |
| `Web.Fetch` | CertCrawler.py:18-28 | a page is returned if and only if the URL answers with status 200; any other status, an exception or an unknown host gives `None` |
| `Web.Truthy` | CertCrawler.py:44 | `fetch`'s result counts as true when it is a body and the body is non-empty |
| `Web.HasForm` | CertCrawler.py:46-48 | a page is reported when it has at least one `<form>` or at least one `<input type="text">` |
| `Web.FormPage` | CertCrawler.py:43-48 | a URL is a form page when its fetch is truthy and the page has a form or a text input |
| `Web.Children` | CertCrawler.py:44-51 | a crawl recurses only into links that pass the same-host test relative to the page; a `None` or empty-body fetch yields no children |
| `Web.ChildrenExactly` | CertCrawler.py:43-51 | a link is followed from a URL if and only if that URL answers 200 with a non-empty body and one of its hrefs resolves to the link, which passes the same-host test |
| `Seed.Normalise` | CertCrawler.py:66 | the seed always starts with `https://`; an input already starting with it is returned unchanged; the input is always a suffix of the seed, which is at most 8 characters longer |
| `Seed.NormalisePrefixes` | CertCrawler.py:66 | an input not starting with `https://` gets exactly `https://` in front of it |
| `Seed.NormaliseIdempotent` | CertCrawler.py:66 | normalising twice is normalising once |
| `Seed.NormaliseHttp` | CertCrawler.py:66 | an `http://` input is not rewritten but prefixed, giving `https://http://...` |
| `Trace.DistinctFetchesOnce` | CertCrawler.py:41-43 | in a trace without repeated URLs each URL is fetched at most once, and exactly once if it was fetched at all |
| `Trace.TracedReaches` | CertCrawler.py:50-51 | in a trace where every fetch follows a link of an earlier fetch one level deeper, every fetched URL is reachable from the first one by exactly its depth difference in links |
| `Trace.ReachesLast` | CertCrawler.py:51 | a path of n+1 links ends with a link out of a URL reached in n links |
| `Trace.ClosedComplete` | CertCrawler.py:43-51 | given a response step that only grows the trace and the visited set, leaves every new fetch waiting and marks the page's links visited (below `maxDepth`), closure is preserved: every handled fetch below `maxDepth` has all its links visited |
| `Trace.ClosedTraceComplete` | CertCrawler.py:40-51 | if every URL is reachable from the seed by paths of one length only, a traced and closed run has fetched every URL within `max_depth` links, at exactly its distance |
| `Traversal.ReachesSameHost` | CertCrawler.py:36-51 | whatever the crawl reaches by at least one link has a non-empty scheme and the seed's netloc |
| `Traversal.RunFromSeed` | CertCrawler.py:40-67 | in a run from the seed, every fetch is exactly its depth in links from the seed, every visited URL is on the seed's host, and no URL is fetched twice |
| `Traversal.Crawler.Valid` | CertCrawler.py:41-49 | `visited` is exactly the set of fetched URLs. No URL is fetched twice and none deeper than `maxDepth`. Every waiting task is a fetch made. A URL is logged as "Form Found" only if it was fetched with a truthy body holding a form or a text input. Every such page whose response has been handled is logged. |
| `Traversal.Crawler.constructor` | CertCrawler.py:13-14 | a crawler starts with an empty visited set, no waiting task and no fetches |
| `Traversal.Crawler.Claim` | CertCrawler.py:41-43 | a fetch starts if and only if `depth <= maxDepth` and the URL is unvisited. The URL is then marked visited, recorded in the trace and its task waits. Otherwise nothing changes. |
| `Traversal.Crawler.Gather` | CertCrawler.py:50-51 | the gather claims every link of the page at `depth + 1` in one block, ahead of the claims of any gather reached later. When `depth < maxDepth`, `visited` grows by exactly the page's links. One task waits for each URL newly visited, at `depth + 1`. Each new fetch is traced back to the page. |
| `Traversal.Crawler.Resume` | CertCrawler.py:43-49 | the response to a waiting task ends its wait and the result is `fetch`'s. The URL is logged as "Form Found" if and only if the result is truthy and the page holds a form or a text input. Nothing else changes. |
| `Traversal.Crawler.Complete` | CertCrawler.py:43-51 | handling a response marks every link of the page visited when the page is below `maxDepth`, and nothing when the fetch is falsy. The handled task stops waiting and one task at the next depth waits per newly visited URL. The form log grows by the URL exactly for a form page. The trace stays closed and traced. |
| `Traversal.Crawler.Drain` | CertCrawler.py:51 | the event loop handles responses in any order until no task waits. The run is then closed: every page fetched below `maxDepth` has all its links visited. |
| `Traversal.CompleteProgresses` | CertCrawler.py:41-51 | each handled response visits a URL not visited before or leaves one task fewer waiting, so the event loop ends |
| `Traversal.FormLogExact` | CertCrawler.py:46-49 | once every response is handled, a URL is logged as "Form Found" if and only if it was visited and its page holds a form or a text input |
| `Traversal.StartFrom` | CertCrawler.py:41-51 | the seed is claimed first, at depth 0. Its response is handled before any other, so every link of the seed other than itself is fetched at depth 1 when `maxDepth > 0`. |
| `Traversal.CrawlFrom` | CertCrawler.py:40-51 | a crawl from a seed on an empty visited set fetches the seed first and ends with no task waiting. It is traced and closed, every link of the seed is fetched at depth 1, and the form log holds exactly the visited form pages. |
| `Traversal.Run` | CertCrawler.py:64-67 | the run fetches the normalised seed first, at depth 0. Every fetch lies its depth in links from the seed, every visited URL is on the seed's host, and each URL is fetched at most once. The run is closed under links below depth 3, and "Form Found" is logged exactly for the visited form pages. |
| `Scenarios.DepthOneRun` | CertCrawler.py:40-51 | with a maximum depth of 1, a run fetches exactly the seed and the links of its page |
| `Scenarios.ExampleCrawl` | CertCrawler.py:40-51 | seed `https://example.com`, maximum depth 1, home page linking to `/a`, `/b` and another host: visited is exactly the home page, `/a` and `/b`, and no fetch is at depth 2 |
| `Scenarios.DiamondRun` | CertCrawler.py:40-51 | a closed, traced run with maximum depth 2, where A and B were fetched at depth 1 and link to C and D, has visited exactly S, A, B, C and D |
| `Scenarios.DiamondCrawl` | CertCrawler.py:40-51 | S links to A and B, A links to B and C, and B links to A and D. With a maximum depth of 2, every run visits all five pages, whatever order the responses come back in. |
| `Scenarios.ChainRun` | CertCrawler.py:14-51 | on a chain of pages each linking to the next, a run fetches exactly the first `max_depth + 1` pages |
| `Scenarios.ChainCrawl` | CertCrawler.py:14-67 | with `max_depth = 3`, crawling `site.org` over a five-page chain visits the first four pages (depths 0 to 3) and not the fifth |

## Left out

- Network I/O in `fetch` (CertCrawler.py:18-28): the aiohttp session, the GET, the 10-second timeout and redirect following. `fetch` is an oracle over a fixed `WebMap`, where an exception, an unreachable host or a missing entry give `None`.
- `process_form_submission` (CertCrawler.py:53-62): a network POST that nothing calls.
- HTML parsing by BeautifulSoup (CertCrawler.py:32-33, 45-47): a page is given by its anchor hrefs in document order and by its counts of forms and text inputs.
- The "Form Found" log line (CertCrawler.py:48-49): modelled only as the ghost `formLog`. At the end of a run it holds exactly the visited pages with a non-empty body and a form or a text input. The text and timing of the log line are not modelled.
- `urljoin` and `urlparse` internals (CertCrawler.py:34-36): uninterpreted; only the scheme and netloc of a parsed URL are modelled.
- Concurrency of `asyncio` (CertCrawler.py:43, 51): the event loop is modelled as a sequence of atomic steps. A claim (CertCrawler.py:41-42) has no `await` inside it. The claims of one gather run together. Responses are handled one at a time, in any order. Timing, the HTTP connection pool and true parallelism are not modelled.
- Exceptions from `urljoin`, `urlparse` and BeautifulSoup (CertCrawler.py:32-36, 45-47): a malformed href (such as `http://[x`) makes `urljoin` or `urlparse` raise `ValueError`, and markup the parser rejects raises as well. No `try` catches these: the exception escapes the `asyncio.gather` at CertCrawler.py:51 and `asyncio.run` at CertCrawler.py:71, and the run stops with `visited_urls` half filled. The model treats these calls as total and never raising, so its closure and form-log results describe runs where no such exception occurs.
- The unused constants `concurrent_requests` and `crawl_delay` (CertCrawler.py:15-16).
- Logging, `input()` and wall-clock timing (CertCrawler.py:9-10, 65, 70, 72). `Run` takes the typed domain as a parameter. The event loop of `asyncio.run` (CertCrawler.py:71) is `Drain`.
- Resource classification, page scraping, JSON export, sensitive-directory probing and geolocation lookup do not exist in CertCrawler.py and are not modelled.
- Traversal.CrawlFrom: no completeness in general. A URL is marked visited the first time a gather claims it, at that gather's depth. Which gather comes first depends on when responses arrive. Example with maximum depth 3: S links to A and B, A to X, X to C, B to C, and C to D. If the responses for A and X arrive before B's, C is claimed at depth 3 and D is never fetched, although S, B, C, D is a path of three links. What is proved instead: the run is closed (every page fetched below `maxDepth` has all its links visited), the seed's links are all fetched at depth 1, and the run is complete when every page is reached by paths of a single length (`Trace.ClosedTraceComplete`).
