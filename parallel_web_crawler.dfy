/**
 * ParallelWebCrawler: crawl and the recursive crawlInternal task, run sequentially.
 *
 * The injected collaborators are small classes: a Clock whose successive readings
 * are fixed in advance, a PageParserFactory that returns a fixed page per URL and
 * keeps a ghost log of the URLs it was asked to parse, and the two shared
 * collections of one crawl (the visited-URL set and the word-count map). Each
 * method that changes state is proved equal to the reference semantics in
 * CrawlModel, whose lemmas carry the crawl's guarantees.
 */
module Crawler {
  import opened WordCounts
  import opened CrawlModel

  /** java.time.Clock: the n-th call of instant() returns instants(n). */
  class Clock {
    const instants: nat -> int
    var readCount: nat

    constructor (instants: nat -> int)
      ensures this.instants == instants && readCount == 0
    {
      this.instants := instants;
      readCount := 0;
    }

    method Instant() returns (now: int)
      modifies this
      ensures now == instants(old(readCount)) && readCount == old(readCount) + 1
    {
      now := instants(readCount);
      readCount := readCount + 1;
    }
  }

  /** parserFactory.get(url).parse(): the page of each URL, with a ghost log of the requests. */
  class PageParserFactory {
    const pages: string -> Page
    ghost var requests: seq<string>

    constructor (pages: string -> Page)
      ensures this.pages == pages && requests == []
    {
      this.pages := pages;
      requests := [];
    }

    method Parse(url: string) returns (result: Page)
      modifies this
      ensures result == pages(url) && requests == old(requests) + [url]
    {
      result := pages(url);
      requests := requests + [url];
    }
  }

  /** The ConcurrentSkipListSet of visited URLs. */
  class UrlSet {
    var elems: set<string>

    constructor ()
      ensures elems == {}
    {
      elems := {};
    }

    method Contains(url: string) returns (present: bool)
      ensures present <==> url in elems
    {
      present := url in elems;
    }

    method Add(url: string)
      modifies this
      ensures elems == old(elems) + {url}
    {
      elems := elems + {url};
    }

    method Size() returns (n: nat)
      ensures n == |elems|
    {
      n := |elems|;
    }
  }

  /** The ConcurrentHashMap of word counts. */
  class CountMap {
    var contents: map<string, nat>

    constructor ()
      ensures contents == map[]
    {
      contents := map[];
    }

    /** counts.compute(key, (k, value) -> value == null ? delta : delta + value). */
    method Compute(key: string, delta: nat)
      modifies this
      ensures contents == old(contents)[key := Get(old(contents), key) + delta]
    {
      var value := if key in contents then contents[key] else 0;
      contents := contents[key := if key in contents then delta + value else delta];
    }

    method IsEmpty() returns (empty: bool)
      ensures empty <==> |contents| == 0
    {
      empty := |contents| == 0;
    }
  }

  /** The word counts a crawl reports: the raw map when it is empty, else the ranking. */
  datatype ReportedCounts = Unsorted(counts: map<string, nat>) | Ranking(entries: seq<Entry>)

  datatype CrawlResult = CrawlResult(wordCounts: ReportedCounts, urlsVisited: nat)

  /** The result crawl builds from the final shared state. */
  function Report(counts: map<string, nat>, urlsVisited: nat, popularWordCount: int): (r: Result<CrawlResult>)
    ensures r.Ok? ==> r.value.urlsVisited == urlsVisited
    ensures r.Ok? && r.value.wordCounts.Unsorted? <==> |counts| == 0
    ensures r.Ok? && r.value.wordCounts.Unsorted? ==> r.value.wordCounts.counts == map[]
    ensures r.IllegalArgument? <==> |counts| > 0 && popularWordCount < 0
    ensures r.Ok? && r.value.wordCounts.Ranking? ==>
      Sort(counts, popularWordCount) == Ok(r.value.wordCounts.entries)
  {
    if |counts| == 0 then Ok(CrawlResult(Unsorted(counts), urlsVisited))
    else
      match Sort(counts, popularWordCount)
      case Ok(top) => Ok(CrawlResult(Ranking(top), urlsVisited))
      case IllegalArgument(n) => IllegalArgument(n)
  }

  /** The entries of m whose words are in keys. */
  function Restrict(m: map<string, nat>, keys: set<string>): map<string, nat>
  {
    map w | w in keys && w in m :: m[w]
  }

  /** Merging one more pending word of a page is one compute call on the counts. */
  lemma MergeOneMore(counts: map<string, nat>, page: map<string, nat>, pending: set<string>, key: string)
    requires pending <= page.Keys && key in pending
    ensures Merge(counts, Restrict(page, page.Keys - (pending - {key}))) ==
      Merge(counts, Restrict(page, page.Keys - pending))[key :=
        Get(Merge(counts, Restrict(page, page.Keys - pending)), key) + page[key]]
  {
    assert page.Keys - (pending - {key}) == page.Keys - pending + {key};
  }

  /** Once no word is pending, the whole page has been merged. */
  lemma MergeDone(counts: map<string, nat>, page: map<string, nat>)
    ensures Merge(counts, Restrict(page, page.Keys - {})) == Merge(counts, page)
  {
    assert Restrict(page, page.Keys - {}) == page;
  }

  class ParallelWebCrawler {
    const clock: Clock
    const parserFactory: PageParserFactory
    const timeout: int
    const popularWordCount: int
    const ignoredUrls: seq<string -> bool>
    const maxDepth: nat

    constructor (clock: Clock, parserFactory: PageParserFactory, timeout: int, popularWordCount: int,
                 maxDepth: nat, ignoredUrls: seq<string -> bool>)
      ensures this.clock == clock && this.parserFactory == parserFactory && this.timeout == timeout
      ensures this.popularWordCount == popularWordCount && this.maxDepth == maxDepth
      ensures this.ignoredUrls == ignoredUrls
    {
      this.clock := clock;
      this.parserFactory := parserFactory;
      this.timeout := timeout;
      this.popularWordCount := popularWordCount;
      this.maxDepth := maxDepth;
      this.ignoredUrls := ignoredUrls;
    }

    /** The collaborators as values. */
    function Collaborators(): Env
    {
      Env(ignoredUrls, parserFactory.pages, clock.instants)
    }

    /** The shared state of one crawl, with the clock and parser state. */
    ghost function State(counts: CountMap, visitedUrls: UrlSet): Snapshot
      reads clock, parserFactory, counts, visitedUrls
    {
      Snapshot(visitedUrls.elems, counts.contents, clock.readCount, parserFactory.requests)
    }

    /** The loop over the ignored-URL patterns: true when one matches the whole URL. */
    method IsIgnored(url: string) returns (ignored: bool)
      ensures ignored == Ignored(ignoredUrls, url)
    {
      for i := 0 to |ignoredUrls|
        invariant forall j :: 0 <= j < i ==> !ignoredUrls[j](url)
      {
        if ignoredUrls[i](url) {
          return true;
        }
      }
      return false;
    }

    /** crawlInternal(url, deadline, maxDepth, counts, visitedUrls).compute(). */
    method Compute(url: string, deadline: int, maxDepth: nat, counts: CountMap, visitedUrls: UrlSet)
      modifies counts, visitedUrls, clock, parserFactory
      ensures State(counts, visitedUrls) == Visit(Collaborators(), old(State(counts, visitedUrls)), url, deadline, maxDepth)
      decreases maxDepth, 0
    {
      var ignored := IsIgnored(url);
      if ignored {
        return;
      }
      if maxDepth == 0 {
        return;
      }
      var now := clock.Instant();
      if now > deadline {
        return;
      }
      var seen := visitedUrls.Contains(url);
      if seen {
        return;
      }
      visitedUrls.Add(url);
      var result := parserFactory.Parse(url);

      MergeCounts(counts, result.wordCounts);
      InvokeAll(result.links, deadline, maxDepth - 1, counts, visitedUrls);
    }

    /** The loop of compute over the page's entries: one counts.compute call per word. */
    method MergeCounts(counts: CountMap, page: map<string, nat>)
      modifies counts
      ensures counts.contents == Merge(old(counts.contents), page)
    {
      ghost var before := counts.contents;
      var pending := page.Keys;
      while pending != {}
        invariant pending <= page.Keys
        invariant counts.contents == Merge(before, Restrict(page, page.Keys - pending))
        decreases pending
      {
        var key :| key in pending;
        MergeOneMore(before, page, pending, key);
        counts.Compute(key, page[key]);
        pending := pending - {key};
      }
      MergeDone(before, page);
    }

    /** invokeAll(listSubtasks): the child tasks, one per link, run in list order. */
    method InvokeAll(links: seq<string>, deadline: int, maxDepth: nat, counts: CountMap, visitedUrls: UrlSet)
      modifies counts, visitedUrls, clock, parserFactory
      ensures State(counts, visitedUrls) ==
        VisitAll(Collaborators(), old(State(counts, visitedUrls)), links, deadline, maxDepth)
      decreases maxDepth, 1
    {
      ghost var start := State(counts, visitedUrls);
      for i := 0 to |links|
        invariant State(counts, visitedUrls) == VisitAll(Collaborators(), start, links[..i], deadline, maxDepth)
      {
        assert links[..i + 1][..i] == links[..i];
        Compute(links[i], deadline, maxDepth, counts, visitedUrls);
      }
      assert links[..|links|] == links;
    }

    /** crawl(startingUrls): one task per seed on fresh shared state, then the result. */
    method Crawl(startingUrls: seq<string>) returns (r: Result<CrawlResult>)
      modifies clock, parserFactory
      ensures var deadline := clock.instants(old(clock.readCount)) + timeout;
        var t := VisitAll(Collaborators(), Snapshot({}, map[], old(clock.readCount) + 1, old(parserFactory.requests)),
                          startingUrls, deadline, maxDepth);
        && clock.readCount == t.clockReads && parserFactory.requests == t.fetched
        && r == Report(t.counts, |t.visited|, popularWordCount)
    {
      var now := clock.Instant();
      var deadline := now + timeout;
      var counts := new CountMap();
      var visitedUrls := new UrlSet();
      ghost var start := State(counts, visitedUrls);
      for i := 0 to |startingUrls|
        invariant State(counts, visitedUrls) == VisitAll(Collaborators(), start, startingUrls[..i], deadline, maxDepth)
      {
        assert startingUrls[..i + 1][..i] == startingUrls[..i];
        Compute(startingUrls[i], deadline, maxDepth, counts, visitedUrls);
      }
      assert startingUrls[..|startingUrls|] == startingUrls;
      var empty := counts.IsEmpty();
      var urlsVisited := visitedUrls.Size();
      if empty {
        r := Ok(CrawlResult(Unsorted(counts.contents), urlsVisited));
      } else {
        var sorted := Sort(counts.contents, popularWordCount);
        match sorted
        case Ok(top) => r := Ok(CrawlResult(Ranking(top), urlsVisited));
        case IllegalArgument(n) => r := IllegalArgument(n);
      }
    }
  }

  /** crawl with maxDepth 0 reports no URL visited and the empty, unranked map. */
  lemma CrawlWithDepthZero(env: Env, s: Snapshot, seeds: seq<string>, deadline: int, popularWordCount: int)
    requires s.visited == {} && s.counts == map[]
    ensures var t := VisitAll(env, s, seeds, deadline, 0);
      Report(t.counts, |t.visited|, popularWordCount) == Ok(CrawlResult(Unsorted(map[]), 0))
  {
    DepthZeroVisitAllIsNoop(env, s, seeds, deadline);
  }

  /** crawl whose seeds all match an ignored pattern reports no URL visited and the empty map. */
  lemma {:induction false} CrawlOfIgnoredSeeds(env: Env, s: Snapshot, seeds: seq<string>, deadline: int, maxDepth: nat,
                                               popularWordCount: int)
    requires s.visited == {} && s.counts == map[]
    requires forall i :: 0 <= i < |seeds| ==> Ignored(env.ignoredUrls, seeds[i])
    ensures var t := VisitAll(env, s, seeds, deadline, maxDepth);
      t == s && Report(t.counts, |t.visited|, popularWordCount) == Ok(CrawlResult(Unsorted(map[]), 0))
    decreases |seeds|
  {
    if seeds != [] {
      CrawlOfIgnoredSeeds(env, s, seeds[..|seeds| - 1], deadline, maxDepth, popularWordCount);
      assert Ignored(env.ignoredUrls, seeds[|seeds| - 1]);
    }
  }
}
