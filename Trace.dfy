/**
 * Traces of fetches and the link graph they follow.
 *
 * A trace records, in order, every `fetch` a crawl makes and the depth it was made at.
 * The link graph is given as a function from a URL to the set of URLs the crawler
 * follows from it; the traversal instantiates it with `Web.Children`.
 */
module Trace {

  /** The links followed from each URL. */
  type LinkGraph = string -> set<string>

  /** One call of `fetch`, made by `crawl(url, depth)`. */
  datatype Visit = Visit(url: string, depth: nat)

  /** The URLs a trace has fetched. */
  ghost function FetchedUrls(log: seq<Visit>): set<string>
  {
    set v | v in log :: v.url
  }

  /** No URL is fetched twice. */
  ghost predicate Distinct(log: seq<Visit>)
  {
    forall i, j :: 0 <= i < j < |log| ==> log[i].url != log[j].url
  }

  /** How many times `url` is fetched in a trace. */
  ghost function Occurrences(log: seq<Visit>, url: string): nat
  {
    if log == [] then 0
    else Occurrences(log[..|log| - 1], url) + (if log[|log| - 1].url == url then 1 else 0)
  }

  /** Every fetch from position `start` on, except the first, follows a link of a page
      fetched earlier in that stretch, one level deeper. */
  ghost predicate Traced(links: LinkGraph, log: seq<Visit>, start: nat)
  {
    forall k :: start < k < |log| ==> HasParent(links, log, start, k)
  }

  /** The fetch at position `k` follows a link of a page fetched at a position from
      `start` on, one level shallower. */
  ghost predicate HasParent(links: LinkGraph, log: seq<Visit>, start: nat, k: nat)
    requires k < |log|
  {
    exists j :: start <= j < k && log[j].depth + 1 == log[k].depth && log[k].url in links(log[j].url)
  }

  /** Every page fetched at a depth below `maxDepth` whose response has been handled (its
      fetch is not among the `pending` ones still in flight) has had all of its links
      marked visited. */
  ghost predicate Closed(links: LinkGraph, maxDepth: nat, log: seq<Visit>, pending: set<Visit>, visited: set<string>)
  {
    forall k :: 0 <= k < |log| && log[k] !in pending && log[k].depth < maxDepth ==> links(log[k].url) <= visited
  }

  /** `dst` is reached from `src` by following exactly `n` links. */
  ghost predicate Reaches(links: LinkGraph, src: string, dst: string, n: nat)
    decreases n
  {
    if n == 0 then src == dst
    else exists mid :: mid in links(src) && Reaches(links, mid, dst, n - 1)
  }

  lemma FetchedUrlsAppend(log: seq<Visit>, v: Visit)
    ensures FetchedUrls(log + [v]) == FetchedUrls(log) + {v.url}
  {
    forall u | u in FetchedUrls(log) ensures u in FetchedUrls(log + [v]) {
      var w :| w in log && w.url == u;
      assert w in log + [v];
    }
    assert v in log + [v];
  }

  /** In a trace without repetitions every URL is fetched at most once, and a URL the
      trace contains exactly once. */
  lemma {:induction false} DistinctFetchesOnce(log: seq<Visit>, url: string)
    requires Distinct(log)
    ensures Occurrences(log, url) <= 1
    ensures Occurrences(log, url) == 1 <==> url in FetchedUrls(log)
  {
    if log != [] {
      var init := log[..|log| - 1];
      var last := log[|log| - 1];
      assert log == init + [last];
      DistinctFetchesOnce(init, url);
      FetchedUrlsAppend(init, last);
    }
  }

  /** Following one more link at the end of a path. */
  lemma {:induction false} ReachesStep(links: LinkGraph, src: string, mid: string, dst: string, n: nat)
    requires Reaches(links, src, mid, n)
    requires dst in links(mid)
    ensures Reaches(links, src, dst, n + 1)
    decreases n
  {
    if n == 0 {
      assert Reaches(links, dst, dst, 0);
    } else {
      var next :| next in links(src) && Reaches(links, next, mid, n - 1);
      ReachesStep(links, next, mid, dst, n - 1);
    }
  }

  /** Every fetch in a traced stretch is reachable from the stretch's first URL by as many
      links as its depth exceeds the first fetch's depth. */
  lemma {:induction false} TracedReaches(links: LinkGraph, log: seq<Visit>, start: nat, k: nat)
    requires start <= k < |log|
    requires Traced(links, log, start)
    ensures log[start].depth <= log[k].depth
    ensures Reaches(links, log[start].url, log[k].url, log[k].depth - log[start].depth)
    decreases k
  {
    if k == start {
      assert Reaches(links, log[k].url, log[k].url, 0);
    } else {
      assert HasParent(links, log, start, k);
      var j :| start <= j < k && log[j].depth + 1 == log[k].depth && log[k].url in links(log[j].url);
      TracedReaches(links, log, start, j);
      ReachesStep(links, log[start].url, log[j].url, log[k].url, log[j].depth - log[start].depth);
    }
  }

  /** Extending a trace by a traced stretch that begins with a link of an earlier fetch
      keeps the whole traced. */
  lemma TracedExtend(links: LinkGraph, before: seq<Visit>, after: seq<Visit>, start: nat, parent: nat)
    requires start <= parent < |before| <= |after|
    requires before == after[..|before|]
    requires Traced(links, before, start)
    requires Traced(links, after, |before|)
    requires |before| < |after| ==>
      after[|before|].depth == before[parent].depth + 1 && after[|before|].url in links(before[parent].url)
    ensures Traced(links, after, start)
  {
    forall k | start < k < |after|
      ensures HasParent(links, after, start, k)
    {
      if k < |before| {
        assert HasParent(links, before, start, k);
        var j :| start <= j < k && before[j].depth + 1 == before[k].depth && before[k].url in links(before[j].url);
        assert after[j] == before[j] && after[k] == before[k];
      } else if k == |before| {
        assert after[parent] == before[parent];
      } else {
        assert HasParent(links, after, |before|, k);
        var j :| |before| <= j < k && after[j].depth + 1 == after[k].depth && after[k].url in links(after[j].url);
      }
    }
  }

  /** Handling the response to the waiting fetch `v` keeps the trace closed when it marks
      the links of `v`'s page visited (below `maxDepth`), the visited set only grows, no
      other fetch stops waiting, and the fetches it adds are waiting. */
  lemma ClosedComplete(links: LinkGraph, maxDepth: nat, v: Visit,
                       before: seq<Visit>, after: seq<Visit>, pendingBefore: set<Visit>, pendingAfter: set<Visit>,
                       visitedBefore: set<string>, visitedAfter: set<string>)
    requires before <= after && visitedBefore <= visitedAfter
    requires pendingBefore - {v} <= pendingAfter
    requires forall k :: |before| <= k < |after| ==> after[k] in pendingAfter
    requires v.depth < maxDepth ==> links(v.url) <= visitedAfter
    requires Closed(links, maxDepth, before, pendingBefore, visitedBefore)
    ensures Closed(links, maxDepth, after, pendingAfter, visitedAfter)
  {
    forall k | 0 <= k < |after| && after[k] !in pendingAfter && after[k].depth < maxDepth
      ensures links(after[k].url) <= visitedAfter
    {
      if after[k] != v {
        assert before[k] == after[k];
      }
    }
  }

  /** Every URL that `root` reaches, it reaches by paths of one length only (as in a tree
      of pages). */
  ghost predicate UniqueDepths(links: LinkGraph, root: string)
  {
    forall u, d1, d2 :: Reaches(links, root, u, d1) && Reaches(links, root, u, d2) ==> d1 == d2
  }

  /** The last link of a path of `n + 1` links. */
  lemma {:induction false} ReachesLast(links: LinkGraph, src: string, dst: string, n: nat)
    requires Reaches(links, src, dst, n + 1)
    ensures exists mid :: Reaches(links, src, mid, n) && dst in links(mid)
    decreases n
  {
    var next :| next in links(src) && Reaches(links, next, dst, n);
    if n == 0 {
      assert Reaches(links, src, src, 0) && dst in links(src);
    } else {
      ReachesLast(links, next, dst, n - 1);
      var mid :| Reaches(links, next, mid, n - 1) && dst in links(mid);
      assert Reaches(links, src, mid, n);
    }
  }

  /** When depths are unique, a closed traced trace from `root` has fetched every URL that
      lies within `maxDepth` links of `root`, at exactly its distance from `root`. */
  lemma {:induction false} ClosedTraceComplete(links: LinkGraph, maxDepth: nat, log: seq<Visit>, visited: set<string>,
                                               root: string, url: string, d: nat)
    requires |log| > 0 && log[0] == Visit(root, 0)
    requires visited == FetchedUrls(log)
    requires Traced(links, log, 0)
    requires Closed(links, maxDepth, log, {}, visited)
    requires UniqueDepths(links, root)
    requires Reaches(links, root, url, d) && d <= maxDepth
    ensures exists k :: 0 <= k < |log| && log[k] == Visit(url, d)
    decreases d
  {
    if d == 0 {
      assert log[0] == Visit(url, d);
    } else {
      ReachesLast(links, root, url, d - 1);
      var mid :| Reaches(links, root, mid, d - 1) && url in links(mid);
      ClosedTraceComplete(links, maxDepth, log, visited, root, mid, d - 1);
      var j :| 0 <= j < |log| && log[j] == Visit(mid, d - 1);
      assert url in visited;
      var v :| v in log && v.url == url;
      var k :| 0 <= k < |log| && log[k] == v;
      TracedReaches(links, log, 0, k);
      assert log[k] == Visit(url, d);
    }
  }
}
