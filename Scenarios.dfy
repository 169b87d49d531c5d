/**
 * Whole runs on small concrete webs, proved from the contracts of the traversal alone.
 */
module Scenarios {
  import opened Wrappers
  import opened Urls
  import opened Web
  import opened Trace
  import opened Seed
  import opened Traversal

  const Home: string := "https://example.com"
  const PageA: string := "https://example.com/a"
  const PageB: string := "https://example.com/b"
  const Other: string := "https://other.com"

  /** Hrefs are already absolute; every URL but `Other` is on example.com. */
  function ExampleLib(): UrlLib
  {
    UrlLib((base, href) => href, url => ParsedUrl("https", if url == Other then "other.com" else "example.com"))
  }

  /** The home page links to /a, /b and another host; /a and /b link back home. */
  function ExampleWeb(): WebMap
  {
    map[Home := Response(200, Page("<html>", [PageA, PageB, Other], 0, 0)),
        PageA := Response(200, Page("<html>", [Home], 1, 0)),
        PageB := Response(404, Page("", [], 0, 0))]
  }

  lemma HomeChildren()
    ensures Children(ExampleWeb(), ExampleLib(), Home) == {PageA, PageB}
  {
    var lib, hrefs := ExampleLib(), [PageA, PageB, Other];
    assert Fetch(ExampleWeb(), Home) == Some(Page("<html>", hrefs, 0, 0));
    assert |PageA| != |Other| && |PageB| != |Other| && |Home| != |Other|;
    assert IsInternal(lib, Home, PageA) && IsInternal(lib, Home, PageB) && !IsInternal(lib, Home, Other);
    assert [PageA][..0] == [];
    assert InternalLinks(lib, Home, [PageA]) == {PageA};
    assert [PageA, PageB][..1] == [PageA];
    assert InternalLinks(lib, Home, [PageA, PageB]) == {PageA, PageB};
    assert hrefs[..2] == [PageA, PageB];
    assert InternalLinks(lib, Home, hrefs) == {PageA, PageB};
  }

  /** With a maximum depth of 1, a run from `root` fetches exactly `root` and the links of
      its page. */
  lemma DepthOneRun(links: LinkGraph, log: seq<Visit>, visited: set<string>, root: string)
    requires |log| > 0 && log[0] == Visit(root, 0)
    requires visited == FetchedUrls(log)
    requires forall k :: 0 <= k < |log| ==> log[k].depth <= 1
    requires Traced(links, log, 0)
    requires Closed(links, 1, log, {}, visited)
    ensures visited == {root} + links(root)
  {
    forall k | 0 <= k < |log| ensures log[k].url in {root} + links(root) {
      TracedReaches(links, log, 0, k);
      if log[k].depth == 1 {
        var mid :| mid in links(root) && Reaches(links, mid, log[k].url, 0);
      }
    }
    forall u | u in visited ensures u in {root} + links(root) {
      var v :| v in log && v.url == u;
      var k :| 0 <= k < |log| && log[k] == v;
    }
    assert root in visited by {
      assert log[0] in log;
    }
  }

  /** Crawling https://example.com with a maximum depth of 1 fetches the home page at
      depth 0 and /a and /b at depth 1, and nothing else: not the other host, and nothing
      at depth 2. */
  method ExampleCrawl() returns (visited: set<string>, ghost log: seq<Visit>)
    ensures visited == {Home, PageA, PageB}
    ensures |log| > 0 && log[0] == Visit(Home, 0)
    ensures forall k :: 0 <= k < |log| ==> log[k].depth <= 1
  {
    var web, lib := ExampleWeb(), ExampleLib();
    var c := CrawlFrom(Home, 1, web, lib);
    visited := c.visited;
    log := c.fetchLog;
    DepthOneRun(Links(web, lib), log, visited, Home);
    HomeChildren();
  }

  /** Two pages that link to each other below the seed, each with one more page of its
      own: S links to A and B, A to B and C, B to A and D. */
  const S: string := "https://d.org"
  const A: string := "https://d.org/a"
  const B: string := "https://d.org/b"
  const C: string := "https://d.org/c"
  const D: string := "https://d.org/d"

  function DiamondLib(): UrlLib
  {
    UrlLib((base, href) => href, url => ParsedUrl("https", "d.org"))
  }

  function DiamondHrefs(url: string): seq<string>
  {
    if url == S then [A, B] else if url == A then [B, C] else if url == B then [A, D] else []
  }

  /** Every page answers 200 with a non-empty body and no form. */
  function DiamondWeb(): WebMap
  {
    map url | url in {S, A, B, C, D} :: Response(200, Page("<html>", DiamondHrefs(url), 0, 0))
  }

  /** When `join` returns the href itself and every URL passes the same-host test, a page
      links to exactly its hrefs. */
  lemma AllHrefsKept(lib: UrlLib, base: string, hrefs: seq<string>)
    requires forall href :: lib.join(base, href) == href && IsInternal(lib, base, href)
    ensures forall link :: link in InternalLinks(lib, base, hrefs) <==> link in hrefs
  {
    forall link ensures link in InternalLinks(lib, base, hrefs) <==> link in hrefs {
      InternalLinksExactly(lib, base, hrefs, link);
    }
  }

  lemma DiamondDistinct()
    ensures S != A && S != B && S != C && S != D
    ensures A != B && A != C && A != D && B != C && B != D && C != D
  {
    assert |S| < |A| && |S| < |B| && |S| < |C| && |S| < |D|;
    assert A[14] == 'a' && B[14] == 'b' && C[14] == 'c' && D[14] == 'd';
  }

  /** Each page of this web links to exactly its hrefs. */
  lemma DiamondChildren(url: string)
    ensures forall link :: link in Children(DiamondWeb(), DiamondLib(), url) <==> link in DiamondHrefs(url)
  {
    var web, lib := DiamondWeb(), DiamondLib();
    if url in web {
      assert Fetch(web, url) == Some(Page("<html>", DiamondHrefs(url), 0, 0));
      AllHrefsKept(lib, url, DiamondHrefs(url));
    }
  }

  lemma DiamondWithin(url: string)
    ensures Links(DiamondWeb(), DiamondLib())(url) <= {A, B, C, D}
  {
    DiamondChildren(url);
  }

  /** No page of this web links outside A, B, C and D. */
  lemma DiamondBounded()
    ensures forall u :: Links(DiamondWeb(), DiamondLib())(u) <= {A, B, C, D}
  {
    forall u ensures Links(DiamondWeb(), DiamondLib())(u) <= {A, B, C, D} {
      DiamondWithin(u);
    }
  }

  /** The links of this web: S links to A and B, A to C and B to D. */
  lemma DiamondGraph()
    ensures A in Children(DiamondWeb(), DiamondLib(), S) && B in Children(DiamondWeb(), DiamondLib(), S)
    ensures A != S && B != S
    ensures C in Links(DiamondWeb(), DiamondLib())(A) && D in Links(DiamondWeb(), DiamondLib())(B)
  {
    DiamondDistinct();
    DiamondChildren(S);
    DiamondChildren(A);
    DiamondChildren(B);
  }

  /** A closed, traced run with a maximum depth of 2, over a graph whose links all lead to
      A, B, C or D, in which A and B were both fetched at depth 1 and link to C and D,
      has fetched these pages and the seed S, and nothing else. */
  lemma DiamondRun(links: LinkGraph, log: seq<Visit>, visited: set<string>)
    requires C in links(A) && D in links(B)
    requires forall u :: links(u) <= {A, B, C, D}
    requires |log| > 0 && log[0] == Visit(S, 0)
    requires visited == FetchedUrls(log)
    requires Traced(links, log, 0)
    requires Closed(links, 2, log, {}, visited)
    requires Visit(A, 1) in log && Visit(B, 1) in log
    ensures visited == {S, A, B, C, D}
  {
    var i :| 0 <= i < |log| && log[i] == Visit(A, 1);
    var j :| 0 <= j < |log| && log[j] == Visit(B, 1);
    assert links(log[i].url) <= visited && links(log[j].url) <= visited;
    forall k | 0 <= k < |log| ensures log[k].url in {S, A, B, C, D} {
      if k > 0 {
        assert HasParent(links, log, 0, k);
        var p :| 0 <= p < k && log[p].depth + 1 == log[k].depth && log[k].url in links(log[p].url);
      }
    }
    forall u | u in visited ensures u in {S, A, B, C, D} {
      var v :| v in log && v.url == u;
      var k :| 0 <= k < |log| && log[k] == v;
    }
    assert log[i] in log && log[j] in log && log[0] in log;
  }

  /** With a maximum depth of 2, every run over this web fetches all five pages, whatever
      order the responses come back in: the seed's response claims A and B together at
      depth 1, so each of them expands its own page at depth 2. */
  method DiamondCrawl() returns (visited: set<string>)
    ensures visited == {S, A, B, C, D}
  {
    var web, lib := DiamondWeb(), DiamondLib();
    DiamondGraph();
    DiamondBounded();
    var c := CrawlFrom(S, 2, web, lib);
    visited := c.visited;
    DiamondRun(Links(web, lib), c.fetchLog, visited);
  }

  /** A chain of five pages on one host, each linking to the next. */
  const Chain: seq<string> := ["https://site.org", "https://site.org/1", "https://site.org/2", "https://site.org/3", "https://site.org/4"]

  function ChainLib(): UrlLib
  {
    UrlLib((base, href) => href, url => ParsedUrl("https", "site.org"))
  }

  function ChainWeb(): WebMap
  {
    map[Chain[0] := Response(200, Page("<html>", [Chain[1]], 0, 0)),
        Chain[1] := Response(200, Page("<html>", [Chain[2]], 0, 1)),
        Chain[2] := Response(200, Page("<html>", [Chain[3]], 0, 0)),
        Chain[3] := Response(200, Page("<html>", [Chain[4]], 0, 0)),
        Chain[4] := Response(200, Page("<html>", [], 0, 0))]
  }

  /** Along a chain of distinct URLs, each linking only to the next, the URL `d` links
      after the `i`-th is the `(i + d)`-th. */
  lemma {:induction false} ChainReaches(links: LinkGraph, chain: seq<string>, i: nat, url: string, d: nat)
    requires i < |chain|
    requires forall j :: 0 <= j < |chain| - 1 ==> links(chain[j]) == {chain[j + 1]}
    requires links(chain[|chain| - 1]) == {}
    ensures Reaches(links, chain[i], url, d) <==> i + d < |chain| && url == chain[i + d]
    decreases d
  {
    if d > 0 {
      if i < |chain| - 1 {
        ChainReaches(links, chain, i + 1, url, d - 1);
        assert links(chain[i]) == {chain[i + 1]};
      } else {
        assert links(chain[i]) == {};
      }
    }
  }

  lemma ChainLinks()
    ensures forall j :: 0 <= j < |Chain| - 1 ==> Links(ChainWeb(), ChainLib())(Chain[j]) == {Chain[j + 1]}
    ensures Links(ChainWeb(), ChainLib())(Chain[|Chain| - 1]) == {}
  {
    var web, lib := ChainWeb(), ChainLib();
    forall j | 0 <= j < |Chain| - 1 ensures Links(web, lib)(Chain[j]) == {Chain[j + 1]} {
      assert Fetch(web, Chain[j]).value.hrefs == [Chain[j + 1]];
      assert [Chain[j + 1]][..0] == [];
    }
  }

  /** A run over a chain of distinct URLs, each linking only to the next, fetches exactly
      the first `maxDepth + 1` of them: depths 0 to `maxDepth` inclusive. */
  lemma ChainRun(links: LinkGraph, chain: seq<string>, maxDepth: nat, log: seq<Visit>, visited: set<string>)
    requires maxDepth < |chain|
    requires forall i, j :: 0 <= i < j < |chain| ==> chain[i] != chain[j]
    requires forall j :: 0 <= j < |chain| - 1 ==> links(chain[j]) == {chain[j + 1]}
    requires links(chain[|chain| - 1]) == {}
    requires |log| > 0 && log[0] == Visit(chain[0], 0)
    requires visited == FetchedUrls(log)
    requires forall k :: 0 <= k < |log| ==> log[k].depth <= maxDepth
    requires Traced(links, log, 0)
    requires Closed(links, maxDepth, log, {}, visited)
    ensures visited == set i | 0 <= i <= maxDepth :: chain[i]
  {
    forall u, d1, d2 | Reaches(links, chain[0], u, d1) && Reaches(links, chain[0], u, d2) ensures d1 == d2 {
      ChainReaches(links, chain, 0, u, d1);
      ChainReaches(links, chain, 0, u, d2);
    }
    forall i | 0 <= i <= maxDepth ensures chain[i] in visited {
      ChainReaches(links, chain, 0, chain[i], i);
      ClosedTraceComplete(links, maxDepth, log, visited, chain[0], chain[i], i);
      var k :| 0 <= k < |log| && log[k] == Visit(chain[i], i);
      assert log[k] in log;
    }
    forall u | u in visited ensures exists i :: 0 <= i <= maxDepth && u == chain[i] {
      var v :| v in log && v.url == u;
      var k :| 0 <= k < |log| && log[k] == v;
      TracedReaches(links, log, 0, k);
      ChainReaches(links, chain, 0, u, v.depth);
    }
  }

  /** With the source's maximum depth of 3, crawling the domain "site.org" fetches the
      first four pages of the chain, depths 0 to 3, and never the fifth, at depth 4. */
  method ChainCrawl() returns (visited: set<string>)
    ensures visited == {Chain[0], Chain[1], Chain[2], Chain[3]}
    ensures Chain[4] !in visited
  {
    var web, lib := ChainWeb(), ChainLib();
    ChainSeed();
    var c := Run("site.org", web, lib);
    visited := c.visited;
    ChainLinks();
    ChainDistinct();
    ChainRun(Links(web, lib), Chain, MaxDepth, c.fetchLog, visited);
    FirstFour();
  }

  lemma ChainSeed()
    ensures Normalise("site.org") == Chain[0]
  {
    assert "site.org"[0] != Https[0];
  }

  lemma FirstFour()
    ensures (set i | 0 <= i <= MaxDepth :: Chain[i]) == {Chain[0], Chain[1], Chain[2], Chain[3]}
    ensures Chain[4] !in {Chain[0], Chain[1], Chain[2], Chain[3]}
  {
    ChainDistinct();
  }

  lemma ChainDistinct()
    ensures forall i, j :: 0 <= i < j < |Chain| ==> Chain[i] != Chain[j]
  {
    forall i, j | 0 <= i < j < |Chain| ensures Chain[i] != Chain[j] {
      if i == 0 {
        assert |Chain[i]| != |Chain[j]|;
      } else {
        assert Chain[i][17] != Chain[j][17];
      }
    }
  }
}
