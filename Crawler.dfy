/**
 * The traversal of `crawl(url, depth)` (CertCrawler.py:40-51) as the asyncio event loop
 * runs it, and the run started by `main` (CertCrawler.py:64-67).
 *
 * The global `visited_urls` (CertCrawler.py:13) becomes the field `visited` of a
 * `Crawler` object; `max_depth` (CertCrawler.py:14) becomes its constant `maxDepth`.
 *
 * A `crawl` task runs in two atomic steps, split at its suspension in `fetch`
 * (CertCrawler.py:43): the only point where other tasks' claims can interleave with it.
 * (It also suspends at `await asyncio.gather` and inside `fetch` more than once, but
 * nothing it does after its claim reads or writes `visited_urls` until its own children
 * run.)
 *  - `Claim`: the depth and `visited_urls` test and the insertion (lines 41-42), after
 *    which the task waits for its response; the field `pending` holds the waiting tasks;
 *  - `Complete`: the response arrives and the rest of the body runs (lines 43-51) up to
 *    the `await asyncio.gather(...)`, which schedules one `crawl` task per internal link;
 *    `Resume` is its first part, the result test and the form detection (lines 43-49).
 *    The event loop runs the first steps of these tasks as one block, ahead of the claims
 *    of any gather reached later. Other tasks may run lines 43-50 in between, but they
 *    do not touch `visited_urls`, so the block's `Claim` steps are taken together, in
 *    `Gather`.
 * `Drain` is the event loop: it hands the responses back in any order, since the network
 * decides that order. Every `fetch` is recorded in the ghost trace `fetchLog` with the
 * depth it was made at, and every "Form Found" log line in the ghost trace `formLog`: the
 * properties of the crawl are stated over these traces.
 */
module Traversal {
  import opened Wrappers
  import opened Urls
  import opened Web
  import opened Seed
  import opened Trace

  /** `max_depth` (CertCrawler.py:14). */
  const MaxDepth: nat := 3

  /** The link graph the crawler walks: from each URL, the links `crawl` recurses into. */
  function Links(web: WebMap, lib: UrlLib): LinkGraph
  {
    url => Children(web, lib, url)
  }

  /** Links are only followed within one network location: whatever is reached from
      `src` by at least one link has a non-empty scheme and the netloc of `src`. */
  lemma {:induction false} ReachesSameHost(web: WebMap, lib: UrlLib, src: string, dst: string, n: nat)
    requires Reaches(Links(web, lib), src, dst, n)
    requires n > 0
    ensures IsInternal(lib, src, dst)
    decreases n
  {
    var links := Links(web, lib);
    var mid :| mid in links(src) && Reaches(links, mid, dst, n - 1);
    assert IsInternal(lib, src, mid);
    if n > 1 {
      ReachesSameHost(web, lib, mid, dst, n - 1);
    }
  }

  /** What a trace that starts with the seed and follows links from there guarantees:
      every fetched URL lies exactly its depth in links from the seed, every visited URL is
      on the seed's host, and no URL is fetched twice. */
  lemma RunFromSeed(web: WebMap, lib: UrlLib, seed: string, log: seq<Visit>, visited: set<string>)
    requires |log| >= 1 && log[0] == Visit(seed, 0)
    requires Traced(Links(web, lib), log, 0)
    requires visited == FetchedUrls(log) && Distinct(log)
    ensures forall k :: 0 <= k < |log| ==> Reaches(Links(web, lib), seed, log[k].url, log[k].depth)
    ensures forall u :: u in visited ==> lib.parse(u).netloc == lib.parse(seed).netloc
    ensures forall u :: Occurrences(log, u) <= 1
  {
    forall k | 0 <= k < |log| ensures Reaches(Links(web, lib), seed, log[k].url, log[k].depth) {
      TracedReaches(Links(web, lib), log, 0, k);
    }
    forall u | u in visited ensures lib.parse(u).netloc == lib.parse(seed).netloc {
      var v :| v in log && v.url == u;
      var k :| 0 <= k < |log| && log[k] == v;
      if v.depth > 0 {
        ReachesSameHost(web, lib, seed, u, v.depth);
      }
    }
    forall u ensures Occurrences(log, u) <= 1 {
      DistinctFetchesOnce(log, u);
    }
  }

  /** The tasks waiting for the responses to `urls`, started at `depth`. */
  function Tasks(urls: set<string>, depth: nat): set<Visit>
  {
    set u | u in urls :: Visit(u, depth)
  }

  /** Every URL some page links to: a bound on what a crawl can ever visit besides its seed. */
  ghost function AllLinks(web: WebMap, lib: UrlLib): set<string>
  {
    set u, link | u in web && link in Children(web, lib, u) :: link
  }

  lemma ChildrenInAllLinks(web: WebMap, lib: UrlLib, url: string)
    ensures Children(web, lib, url) <= AllLinks(web, lib)
  {
    forall link | link in Children(web, lib, url) ensures link in AllLinks(web, lib) {
      assert url in web;
    }
  }

  /** The bookkeeping of a gather at `depth` over `links`, of which `rest` are still to be
      claimed, starting from the trace `log0`, the waiting tasks `pending0` and the visited
      set `visited0`: the links claimed so far are visited (when `depth` is within
      `maxDepth`), the fetches added are all waiting, and a task waits for each URL
      visited since the start. */
  ghost predicate Gathering(maxDepth: nat, depth: nat, links: set<string>, rest: set<string>,
                            log0: seq<Visit>, pending0: set<Visit>, visited0: set<string>,
                            log: seq<Visit>, pending: set<Visit>, visited: set<string>)
  {
    && rest <= links
    && log0 <= log
    && visited == visited0 + (if depth <= maxDepth then links - rest else {})
    && (forall k :: |log0| <= k < |log| ==> log[k] in pending)
    && pending == pending0 + Tasks(visited - visited0, depth)
  }

  /** Claiming one more link of a gather keeps its bookkeeping. */
  lemma ClaimKeepsGathering(maxDepth: nat, depth: nat, links: set<string>, rest: set<string>, link: string,
                            log0: seq<Visit>, pending0: set<Visit>, visited0: set<string>,
                            log: seq<Visit>, pending: set<Visit>, visited: set<string>,
                            log': seq<Visit>, pending': set<Visit>, visited': set<string>)
    requires Gathering(maxDepth, depth, links, rest, log0, pending0, visited0, log, pending, visited)
    requires link in rest
    requires if depth <= maxDepth && link !in visited then
        && visited' == visited + {link}
        && log' == log + [Visit(link, depth)]
        && pending' == pending + {Visit(link, depth)}
      else
        visited' == visited && log' == log && pending' == pending
    ensures Gathering(maxDepth, depth, links, rest - {link}, log0, pending0, visited0, log', pending', visited')
  {
    assert links - (rest - {link}) == (links - rest) + {link};
    if depth <= maxDepth && link !in visited {
      assert visited' - visited0 == (visited - visited0) + {link};
      assert Tasks(visited' - visited0, depth) == Tasks(visited - visited0, depth) + {Visit(link, depth)};
    } else if depth <= maxDepth {
      assert visited' == visited0 + (links - (rest - {link}));
    }
  }

  /** Handling a response either visits a URL some page links to that was not visited
      before, or visits nothing and removes its task from those waiting. */
  lemma CompleteProgresses(all: set<string>, children: set<string>, v: Visit, maxDepth: nat,
                           visited: set<string>, pending: set<Visit>,
                           visited': set<string>, pending': set<Visit>)
    requires children <= all && v in pending
    requires visited' == visited + (if v.depth < maxDepth then children else {})
    requires pending' == pending - {v} + Tasks(visited' - visited, v.depth + 1)
    ensures all - visited' < all - visited || (all - visited' == all - visited && pending' < pending)
  {
    if visited' != visited {
      var link :| link in visited' && link !in visited;
      assert link in all - visited && link !in all - visited';
    } else {
      assert Tasks(visited' - visited, v.depth + 1) == {};
    }
  }

  /** The tasks a gather started are fetches in the trace, once every waiting task is. */
  lemma StartedTasksFetched(urls: set<string>, depth: nat, pending: set<Visit>, log: seq<Visit>)
    requires Tasks(urls, depth) <= pending
    requires forall v :: v in pending ==> v in log
    ensures forall u :: u in urls ==> Visit(u, depth) in log
  {
    forall u | u in urls ensures Visit(u, depth) in log {
      assert Visit(u, depth) in Tasks(urls, depth);
    }
  }

  /** Once every response has been handled, the "Form Found" lines name exactly the
      visited pages with a form or a text input. */
  lemma FormLogExact(web: WebMap, log: seq<Visit>, visited: set<string>, formLog: seq<string>)
    requires visited == FetchedUrls(log)
    requires forall u :: u in formLog ==> u in visited && FormPage(web, u)
    requires forall k :: 0 <= k < |log| && FormPage(web, log[k].url) ==> log[k].url in formLog
    ensures forall u :: u in formLog <==> u in visited && FormPage(web, u)
  {
    forall u | u in visited && FormPage(web, u) ensures u in formLog {
      var v :| v in log && v.url == u;
      var k :| 0 <= k < |log| && log[k] == v;
    }
  }

  class Crawler {
    const maxDepth: nat
    const web: WebMap
    const lib: UrlLib
    /** `visited_urls` */
    var visited: set<string>
    /** The `crawl` tasks suspended in `fetch`, waiting for their response. */
    var pending: set<Visit>
    /** Every `fetch(url)` made so far, with the depth of the `crawl` that made it. */
    ghost var fetchLog: seq<Visit>
    /** Every URL logged as "Form Found" so far. */
    ghost var formLog: seq<string>

    /** `visited_urls` is exactly the set of fetched URLs, each fetched once, never deeper
        than `maxDepth`; the waiting tasks are fetches made; a page is logged as "Form
        Found" only if it was fetched with a form or a text input, and every such page
        whose response has been handled is logged. */
    ghost predicate Valid()
      reads this
    {
      && visited == FetchedUrls(fetchLog)
      && Distinct(fetchLog)
      && (forall k :: 0 <= k < |fetchLog| ==> fetchLog[k].depth <= maxDepth)
      && (forall v :: v in pending ==> v in fetchLog)
      && (forall u :: u in formLog ==> u in visited && FormPage(web, u))
      && (forall k :: 0 <= k < |fetchLog| && fetchLog[k] !in pending && FormPage(web, fetchLog[k].url) ==>
            fetchLog[k].url in formLog)
    }

    constructor (maxDepth: nat, web: WebMap, lib: UrlLib)
      ensures Valid()
      ensures this.maxDepth == maxDepth && this.web == web && this.lib == lib
      ensures visited == {} && pending == {} && fetchLog == [] && formLog == []
    {
      this.maxDepth := maxDepth;
      this.web := web;
      this.lib := lib;
      visited := {};
      pending := {};
      fetchLog := [];
      formLog := [];
    }

    /** The start of a `crawl(url, depth)` task (CertCrawler.py:41-43): when the depth is at
        most `maxDepth` and the URL is unvisited, mark it visited and send its request;
        otherwise the task ends at once. */
    method Claim(url: string, depth: nat)
      requires Valid()
      modifies this
      ensures Valid()
      ensures if depth <= maxDepth && url !in old(visited) then
          && visited == old(visited) + {url}
          && fetchLog == old(fetchLog) + [Visit(url, depth)]
          && pending == old(pending) + {Visit(url, depth)}
        else
          visited == old(visited) && fetchLog == old(fetchLog) && pending == old(pending)
      ensures formLog == old(formLog)
    {
      if depth <= maxDepth && url !in visited {
        FetchedUrlsAppend(fetchLog, Visit(url, depth));
        visited := visited + {url};
        fetchLog := fetchLog + [Visit(url, depth)];
        pending := pending + {Visit(url, depth)};
      }
    }

    /** `asyncio.gather(*[crawl(link, depth + 1) for link in internal_links])`
        (CertCrawler.py:51) up to the point where every new task waits for its response:
        each link is claimed at `depth + 1`, in an arbitrary order. */
    method Gather(parent: Visit, links: set<string>)
      requires Valid() && Traced(Links(web, lib), fetchLog, 0)
      requires parent in fetchLog && links == Children(web, lib, parent.url)
      modifies this
      ensures Valid() && Traced(Links(web, lib), fetchLog, 0)
      ensures old(fetchLog) <= fetchLog
      ensures forall k :: |old(fetchLog)| <= k < |fetchLog| ==> fetchLog[k] in pending
      ensures visited == old(visited) + (if parent.depth < maxDepth then links else {})
      ensures pending == old(pending) + Tasks(visited - old(visited), parent.depth + 1)
      ensures formLog == old(formLog)
    {
      ghost var j :| 0 <= j < |fetchLog| && fetchLog[j] == parent;
      var rest := links;
      while rest != {}
        invariant Valid() && Traced(Links(web, lib), fetchLog, 0)
        invariant Gathering(maxDepth, parent.depth + 1, links, rest,
                            old(fetchLog), old(pending), old(visited), fetchLog, pending, visited)
        invariant formLog == old(formLog)
        decreases rest
      {
        var link :| link in rest;
        ghost var log, waiting, seen := fetchLog, pending, visited;
        Claim(link, parent.depth + 1);
        TracedExtend(Links(web, lib), log, fetchLog, 0, j);
        ClaimKeepsGathering(maxDepth, parent.depth + 1, links, rest, link, old(fetchLog), old(pending), old(visited),
                            log, waiting, seen, fetchLog, pending, visited);
        rest := rest - {link};
      }
    }

    /** The response to the waiting task `v` arrives (CertCrawler.py:43-49): the task stops
        waiting and, when the result is truthy and the page has a form or a text input,
        its URL is logged. */
    method Resume(v: Visit) returns (page: Option<Page>)
      requires Valid() && v in pending
      modifies this
      ensures Valid()
      ensures page == Fetch(web, v.url)
      ensures pending == old(pending) - {v}
      ensures visited == old(visited) && fetchLog == old(fetchLog)
      ensures formLog == old(formLog) + (if FormPage(web, v.url) then [v.url] else [])
    {
      pending := pending - {v};
      page := Fetch(web, v.url);
      if Truthy(page) && HasForm(page.value) {
        formLog := formLog + [v.url];
      }
    }

    /** The response to the waiting task `v` arrives and `crawl(v.url, v.depth)` resumes
        (CertCrawler.py:43-51): a falsy result ends the task; otherwise a page with a form
        or a text input is logged, and the page's internal links are gathered at
        `v.depth + 1`. */
    method Complete(v: Visit)
      requires Valid() && v in pending
      requires Traced(Links(web, lib), fetchLog, 0)
      requires Closed(Links(web, lib), maxDepth, fetchLog, pending, visited)
      modifies this
      ensures Valid() && Traced(Links(web, lib), fetchLog, 0)
      ensures Closed(Links(web, lib), maxDepth, fetchLog, pending, visited)
      ensures old(fetchLog) <= fetchLog
      ensures forall k :: |old(fetchLog)| <= k < |fetchLog| ==> fetchLog[k] in pending
      // every link of the page not visited before is claimed at the next depth, together
      ensures visited == old(visited) + (if v.depth < maxDepth then Children(web, lib, v.url) else {})
      ensures pending == old(pending) - {v} + Tasks(visited - old(visited), v.depth + 1)
      ensures formLog == old(formLog) + (if FormPage(web, v.url) then [v.url] else [])
    {
      var page := Resume(v);
      if Truthy(page) {
        var links := GetInternalLinks(lib, v.url, page.value.hrefs);
        Gather(v, links);
      }
      ClosedComplete(Links(web, lib), maxDepth, v, old(fetchLog), fetchLog, old(pending), pending, old(visited), visited);
    }

    /** The event loop (`asyncio.run`, CertCrawler.py:71) while tasks wait: it resumes the
        waiting tasks one at a time, in whatever order their responses arrive. */
    method Drain()
      requires Valid() && Traced(Links(web, lib), fetchLog, 0)
      requires Closed(Links(web, lib), maxDepth, fetchLog, pending, visited)
      modifies this
      ensures Valid() && Traced(Links(web, lib), fetchLog, 0)
      ensures pending == {}
      ensures Closed(Links(web, lib), maxDepth, fetchLog, {}, visited)
      ensures old(fetchLog) <= fetchLog && old(visited) <= visited
    {
      while pending != {}
        invariant Valid() && Traced(Links(web, lib), fetchLog, 0)
        invariant Closed(Links(web, lib), maxDepth, fetchLog, pending, visited)
        invariant old(fetchLog) <= fetchLog && old(visited) <= visited
        decreases AllLinks(web, lib) - visited, pending
      {
        var v :| v in pending;
        ghost var visitedBefore, pendingBefore := visited, pending;
        ChildrenInAllLinks(web, lib, v.url);
        Complete(v);
        CompleteProgresses(AllLinks(web, lib), Children(web, lib, v.url), v, maxDepth,
                           visitedBefore, pendingBefore, visited, pending);
      }
    }
  }

  /** The first task, `crawl(seed, 0)`: it claims the seed and, being the only task
      waiting, has its response handled first, which claims every link of the seed at
      depth 1 in one gather. */
  method StartFrom(seed: string, maxDepth: nat, web: WebMap, lib: UrlLib) returns (c: Crawler)
    ensures fresh(c) && c.Valid()
    ensures c.maxDepth == maxDepth && c.web == web && c.lib == lib
    ensures |c.fetchLog| > 0 && c.fetchLog[0] == Visit(seed, 0)
    ensures Traced(Links(web, lib), c.fetchLog, 0)
    ensures Closed(Links(web, lib), maxDepth, c.fetchLog, c.pending, c.visited)
    ensures 0 < maxDepth ==> forall link :: link in Children(web, lib, seed) && link != seed ==> Visit(link, 1) in c.fetchLog
  {
    c := new Crawler(maxDepth, web, lib);
    c.Claim(seed, 0);
    ghost var seen := c.visited;
    assert seen == {seed};
    c.Complete(Visit(seed, 0));
    StartedTasksFetched(c.visited - seen, 1, c.pending, c.fetchLog);
  }

  /** `await crawl(seed, 0)` with an empty `visited_urls`, run until no task is left, for
      a maximum depth `maxDepth`. */
  method CrawlFrom(seed: string, maxDepth: nat, web: WebMap, lib: UrlLib) returns (c: Crawler)
    ensures fresh(c) && c.Valid() && c.pending == {}
    ensures c.maxDepth == maxDepth && c.web == web && c.lib == lib
    ensures |c.fetchLog| > 0 && c.fetchLog[0] == Visit(seed, 0)
    ensures Traced(Links(web, lib), c.fetchLog, 0)
    ensures Closed(Links(web, lib), maxDepth, c.fetchLog, {}, c.visited)
    // the seed's links are claimed together, in the seed's own gather
    ensures 0 < maxDepth ==> forall link :: link in Children(web, lib, seed) && link != seed ==> Visit(link, 1) in c.fetchLog
    ensures forall u :: u in c.formLog <==> u in c.visited && FormPage(web, u)
  {
    c := StartFrom(seed, maxDepth, web, lib);
    ghost var first := c.fetchLog;
    c.Drain();
    assert forall w :: w in first ==> w in c.fetchLog;
    FormLogExact(web, c.fetchLog, c.visited, c.formLog);
  }

  /** `main` (CertCrawler.py:64-67): normalise the user's input into a seed URL and crawl
      it from depth 0 with a fresh, empty `visited_urls` and a maximum depth of 3. */
  method Run(domain: string, web: WebMap, lib: UrlLib) returns (c: Crawler)
    ensures fresh(c) && c.Valid() && c.pending == {}
    ensures c.maxDepth == MaxDepth && c.web == web && c.lib == lib
    ensures |c.fetchLog| >= 1 && c.fetchLog[0] == Visit(Normalise(domain), 0)
    ensures forall k :: 0 <= k < |c.fetchLog| ==>
      Reaches(Links(web, lib), Normalise(domain), c.fetchLog[k].url, c.fetchLog[k].depth)
    ensures forall u :: u in c.visited ==> lib.parse(u).netloc == lib.parse(Normalise(domain)).netloc
    ensures forall u :: Occurrences(c.fetchLog, u) <= 1
    ensures Traced(Links(web, lib), c.fetchLog, 0)
    ensures Closed(Links(web, lib), MaxDepth, c.fetchLog, {}, c.visited)
    ensures forall u :: u in c.formLog <==> u in c.visited && FormPage(web, u)
  {
    var seed := Normalise(domain);
    c := CrawlFrom(seed, MaxDepth, web, lib);
    RunFromSeed(web, lib, seed, c.fetchLog, c.visited);
  }
}
