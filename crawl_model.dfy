/**
 * Reference semantics of one crawl task (crawlInternal.compute), run sequentially.
 *
 * The collaborators become values: the page parser is a total function from a
 * URL to its page, each ignored-URL pattern is a full-match predicate, and the
 * clock is the sequence of instants it returns on its successive reads.
 * Children run in the order of the page's links, so a task is a depth-first
 * traversal whose measure is the remaining depth.
 */
module CrawlModel {

  /** What the page parser returns for one URL: its word counts and its outbound links. */
  datatype Page = Page(wordCounts: map<string, nat>, links: seq<string>)

  /** The crawler's collaborators: ignored-URL patterns, the page parser, the clock's readings. */
  datatype Env = Env(ignoredUrls: seq<string -> bool>, parse: string -> Page, instants: nat -> int)

  /**
   * The state the tasks of one crawl share (visited URLs, word counts), the number
   * of clock reads so far, and the URLs handed to the page parser so far, in order.
   */
  datatype Snapshot = Snapshot(visited: set<string>, counts: map<string, nat>, clockReads: nat, fetched: seq<string>)

  /** Some pattern matches the whole URL; no pattern, no match. */
  predicate Ignored(patterns: seq<string -> bool>, url: string)
  {
    exists i :: 0 <= i < |patterns| && patterns[i](url)
  }

  /** A count, 0 when the word is absent (the `value == null` case of the remapping function). */
  function Get(counts: map<string, nat>, w: string): nat
  {
    if w in counts then counts[w] else 0
  }

  /**
   * Per-word addition of a page's contribution into the counts: a word of either map
   * gets its old count (0 if absent) plus the page's; words outside the page keep theirs.
   */
  function Merge(counts: map<string, nat>, page: map<string, nat>): (r: map<string, nat>)
    ensures r.Keys == counts.Keys + page.Keys
    ensures forall w :: Get(r, w) == Get(counts, w) + Get(page, w)
    ensures forall w :: w in counts && w !in page ==> r[w] == counts[w]
  {
    map w | w in counts.Keys + page.Keys :: Get(counts, w) + Get(page, w)
  }

  /** One task: crawlInternal(url, deadline, depth).compute(). */
  function Visit(env: Env, s: Snapshot, url: string, deadline: int, depth: nat): Snapshot
    decreases depth, 0
  {
    if Ignored(env.ignoredUrls, url) || depth == 0 then s
    else
      var now := env.instants(s.clockReads);
      var s1 := s.(clockReads := s.clockReads + 1);
      if now > deadline || url in s.visited then s1
      else
        var page := env.parse(url);
        var s2 := s1.(visited := s1.visited + {url},
                      fetched := s1.fetched + [url],
                      counts := Merge(s1.counts, page.wordCounts));
        VisitAll(env, s2, page.links, deadline, depth - 1)
  }

  /** The tasks for urls, run one after the other in list order, sharing the state. */
  function VisitAll(env: Env, s: Snapshot, urls: seq<string>, deadline: int, depth: nat): Snapshot
    decreases depth, 1, |urls|
  {
    if urls == [] then s
    else Visit(env, VisitAll(env, s, urls[..|urls| - 1], deadline, depth), urls[|urls| - 1], deadline, depth)
  }

  // ---------------------------------------------------------------------------
  // Counting
  // ---------------------------------------------------------------------------

  lemma MergeWithEmpty(counts: map<string, nat>)
    ensures Merge(counts, map[]) == counts && Merge(map[], counts) == counts
  {
  }

  /** The order in which two pages are merged does not matter. */
  lemma MergeCommutes(a: map<string, nat>, b: map<string, nat>)
    ensures Merge(a, b) == Merge(b, a)
  {
  }

  lemma MergeAssociates(a: map<string, nat>, b: map<string, nat>, c: map<string, nat>)
    ensures Merge(Merge(a, b), c) == Merge(a, Merge(b, c))
  {
    var l, r := Merge(Merge(a, b), c), Merge(a, Merge(b, c));
    assert l.Keys == r.Keys;
    forall w | w in l ensures l[w] == r[w] {
      assert Get(Merge(a, b), w) == Get(a, w) + Get(b, w);
      assert Get(Merge(b, c), w) == Get(b, w) + Get(c, w);
    }
  }

  /** The sum of the word counts of the pages of urls, each page once per occurrence. */
  function Contribution(parse: string -> Page, urls: seq<string>): map<string, nat>
  {
    if urls == [] then map[]
    else Merge(Contribution(parse, urls[..|urls| - 1]), parse(urls[|urls| - 1]).wordCounts)
  }

  lemma {:induction false} ContributionConcat(parse: string -> Page, a: seq<string>, b: seq<string>)
    ensures Contribution(parse, a + b) == Merge(Contribution(parse, a), Contribution(parse, b))
    decreases |b|
  {
    if b == [] {
      assert a + b == a;
      MergeWithEmpty(Contribution(parse, a));
    } else {
      var b' := b[..|b| - 1];
      assert (a + b)[..|a + b| - 1] == a + b' && (a + b)[|a + b| - 1] == b[|b| - 1];
      ContributionConcat(parse, a, b');
      MergeAssociates(Contribution(parse, a), Contribution(parse, b'), parse(b[|b| - 1]).wordCounts);
    }
  }

  // ---------------------------------------------------------------------------
  // What a task may do to the shared state
  // ---------------------------------------------------------------------------

  predicate Distinct(urls: seq<string>)
  {
    forall i, j :: 0 <= i < j < |urls| ==> urls[i] != urls[j]
  }

  function Elems(urls: seq<string>): set<string>
  {
    set u | u in urls
  }

  /** The URLs fetched between s and t. */
  function Added(s: Snapshot, t: Snapshot): seq<string>
    requires |s.fetched| <= |t.fetched|
  {
    t.fetched[|s.fetched|..]
  }

  /**
   * t is s after some tasks: the fetch log only grows; each newly fetched URL is
   * fetched once, was not visited before and matches no ignored pattern; the
   * visited set grows by exactly the new fetches; the counts grow by exactly the
   * contributions of the newly fetched pages; the clock is only read forward.
   */
  ghost predicate Extends(env: Env, s: Snapshot, t: Snapshot)
  {
    && |s.fetched| <= |t.fetched| && t.fetched[..|s.fetched|] == s.fetched
    && Distinct(Added(s, t))
    && (forall u :: u in Added(s, t) ==> u !in s.visited && !Ignored(env.ignoredUrls, u))
    && t.visited == s.visited + Elems(Added(s, t))
    && t.counts == Merge(s.counts, Contribution(env.parse, Added(s, t)))
    && s.clockReads <= t.clockReads
  }

  /** Reading the clock only changes nothing that Extends speaks of. */
  lemma ExtendsByClockRead(env: Env, s: Snapshot, t: Snapshot)
    requires t == s.(clockReads := t.clockReads) && s.clockReads <= t.clockReads
    ensures Extends(env, s, t)
  {
    assert Added(s, t) == [];
    MergeWithEmpty(s.counts);
  }

  /** Claiming, fetching and merging one page. */
  lemma ExtendsByFetch(env: Env, s: Snapshot, url: string, t: Snapshot)
    requires url !in s.visited && !Ignored(env.ignoredUrls, url)
    requires t == s.(visited := s.visited + {url}, fetched := s.fetched + [url],
                     counts := Merge(s.counts, env.parse(url).wordCounts))
    ensures Extends(env, s, t)
  {
    assert Added(s, t) == [url];
    assert Elems([url]) == {url};
    assert [url][..0] == [];
    MergeWithEmpty(env.parse(url).wordCounts);
  }

  lemma ExtendsTransitive(env: Env, s: Snapshot, m: Snapshot, t: Snapshot)
    requires Extends(env, s, m) && Extends(env, m, t)
    ensures Extends(env, s, t)
  {
    var a1, a2 := Added(s, m), Added(m, t);
    assert t.fetched[..|s.fetched|] == m.fetched[..|s.fetched|];
    assert Added(s, t) == a1 + a2 by {
      assert t.fetched == t.fetched[..|m.fetched|] + a2;
      assert m.fetched == m.fetched[..|s.fetched|] + a1;
      assert t.fetched == s.fetched + (a1 + a2);
      assert (s.fetched + (a1 + a2))[|s.fetched|..] == a1 + a2;
    }
    var a := a1 + a2;
    forall i, j | 0 <= i < j < |a| ensures a[i] != a[j] {
      if i < |a1| && |a1| <= j {
        assert a[i] in Elems(a1) && a[j] == a2[j - |a1|];
      }
    }
    assert Elems(a) == Elems(a1) + Elems(a2);
    ContributionConcat(env.parse, a1, a2);
    MergeAssociates(s.counts, Contribution(env.parse, a1), Contribution(env.parse, a2));
  }

  /** Every task only adds fresh, non-ignored URLs and exactly their pages' counts. */
  lemma {:induction false} VisitExtends(env: Env, s: Snapshot, url: string, deadline: int, depth: nat)
    ensures Extends(env, s, Visit(env, s, url, deadline, depth))
    decreases depth, 0
  {
    if Ignored(env.ignoredUrls, url) || depth == 0 {
      ExtendsByClockRead(env, s, s);
    } else {
      var s1 := s.(clockReads := s.clockReads + 1);
      ExtendsByClockRead(env, s, s1);
      if env.instants(s.clockReads) <= deadline && url !in s.visited {
        var page := env.parse(url);
        var s2 := s1.(visited := s1.visited + {url}, fetched := s1.fetched + [url],
                      counts := Merge(s1.counts, page.wordCounts));
        ExtendsByFetch(env, s1, url, s2);
        ExtendsTransitive(env, s, s1, s2);
        VisitAllExtends(env, s2, page.links, deadline, depth - 1);
        ExtendsTransitive(env, s, s2, VisitAll(env, s2, page.links, deadline, depth - 1));
      }
    }
  }

  lemma {:induction false} VisitAllExtends(env: Env, s: Snapshot, urls: seq<string>, deadline: int, depth: nat)
    ensures Extends(env, s, VisitAll(env, s, urls, deadline, depth))
    decreases depth, 1, |urls|
  {
    if urls == [] {
      ExtendsByClockRead(env, s, s);
    } else {
      var init := urls[..|urls| - 1];
      var m := VisitAll(env, s, init, deadline, depth);
      VisitAllExtends(env, s, init, deadline, depth);
      VisitExtends(env, m, urls[|urls| - 1], deadline, depth);
      ExtendsTransitive(env, s, m, VisitAll(env, s, urls, deadline, depth));
    }
  }

  // ---------------------------------------------------------------------------
  // Guards
  // ---------------------------------------------------------------------------

  /** A URL matching an ignored pattern: no visit, no count, no child, no clock read. */
  lemma IgnoredVisitIsNoop(env: Env, s: Snapshot, url: string, deadline: int, depth: nat)
    requires Ignored(env.ignoredUrls, url)
    ensures Visit(env, s, url, deadline, depth) == s
  {
  }

  /** A task with depth 0 does nothing. */
  lemma DepthZeroVisitIsNoop(env: Env, s: Snapshot, url: string, deadline: int)
    ensures Visit(env, s, url, deadline, 0) == s
  {
  }

  /** So do any number of tasks with depth 0: crawl with maxDepth 0 changes nothing. */
  lemma {:induction false} DepthZeroVisitAllIsNoop(env: Env, s: Snapshot, urls: seq<string>, deadline: int)
    ensures VisitAll(env, s, urls, deadline, 0) == s
    decreases |urls|
  {
    if urls != [] {
      DepthZeroVisitAllIsNoop(env, s, urls[..|urls| - 1], deadline);
    }
  }

  /** A task for an already visited URL only reads the clock: no second fetch, no second count. */
  lemma RevisitIsNoop(env: Env, s: Snapshot, url: string, deadline: int, depth: nat)
    requires url in s.visited
    ensures var t := Visit(env, s, url, deadline, depth);
      t.visited == s.visited && t.counts == s.counts && t.fetched == s.fetched &&
      t.clockReads <= s.clockReads + 1
  {
  }

  /** The clock never goes back. */
  ghost predicate Monotone(instants: nat -> int)
  {
    forall i: nat, j: nat :: i <= j ==> instants(i) <= instants(j)
  }

  /** Once the clock reads strictly after the deadline, a task changes no shared state. */
  lemma ExpiredVisitIsNoop(env: Env, s: Snapshot, url: string, deadline: int, depth: nat)
    requires env.instants(s.clockReads) > deadline
    ensures var t := Visit(env, s, url, deadline, depth);
      t.visited == s.visited && t.counts == s.counts && t.fetched == s.fetched &&
      t.clockReads <= s.clockReads + 1
  {
  }

  /** With a clock that never goes back, every later task after that point changes nothing either. */
  lemma {:induction false} ExpiredVisitAllIsNoop(env: Env, s: Snapshot, urls: seq<string>, deadline: int, depth: nat)
    requires Monotone(env.instants) && env.instants(s.clockReads) > deadline
    ensures var t := VisitAll(env, s, urls, deadline, depth);
      t.visited == s.visited && t.counts == s.counts && t.fetched == s.fetched
    decreases |urls|
  {
    if urls != [] {
      var init := urls[..|urls| - 1];
      var m := VisitAll(env, s, init, deadline, depth);
      ExpiredVisitAllIsNoop(env, s, init, deadline, depth);
      VisitAllExtends(env, s, init, deadline, depth);
      assert env.instants(s.clockReads) <= env.instants(m.clockReads);
      ExpiredVisitIsNoop(env, m, urls[|urls| - 1], deadline, depth);
    }
  }

  /**
   * A task past the filter, with depth left and a clock reading not after the
   * deadline (exactly at the deadline included) leaves its URL visited.
   */
  lemma VisitClaims(env: Env, s: Snapshot, url: string, deadline: int, depth: nat)
    requires !Ignored(env.ignoredUrls, url) && depth > 0 && env.instants(s.clockReads) <= deadline
    ensures url in Visit(env, s, url, deadline, depth).visited
  {
    if url !in s.visited {
      var page := env.parse(url);
      var s2 := s.(clockReads := s.clockReads + 1, visited := s.visited + {url},
                   fetched := s.fetched + [url], counts := Merge(s.counts, page.wordCounts));
      VisitAllExtends(env, s2, page.links, deadline, depth - 1);
    }
  }

  /** A first visit fetches the page exactly once and adds its word counts. */
  lemma FirstVisitFetches(env: Env, s: Snapshot, url: string, deadline: int)
    requires !Ignored(env.ignoredUrls, url) && env.instants(s.clockReads) <= deadline && url !in s.visited
    ensures var t := Visit(env, s, url, deadline, 1);
      t.visited == s.visited + {url} && t.fetched == s.fetched + [url] &&
      t.counts == Merge(s.counts, env.parse(url).wordCounts)
  {
    DepthZeroVisitAllIsNoop(env, s.(clockReads := s.clockReads + 1, visited := s.visited + {url},
      fetched := s.fetched + [url], counts := Merge(s.counts, env.parse(url).wordCounts)),
      env.parse(url).links, deadline);
  }

  /**
   * At any depth, a first visit fetches its URL before any URL its children fetch,
   * and the counts hold its page's counts merged with those of the children's pages.
   */
  lemma FirstVisitFetchesFirst(env: Env, s: Snapshot, url: string, deadline: int, depth: nat)
    requires !Ignored(env.ignoredUrls, url) && depth > 0 && env.instants(s.clockReads) <= deadline
    requires url !in s.visited
    ensures var t := Visit(env, s, url, deadline, depth);
      |t.fetched| > |s.fetched| && t.fetched[..|s.fetched| + 1] == s.fetched + [url] &&
      url in t.visited &&
      t.counts == Merge(Merge(s.counts, env.parse(url).wordCounts),
                        Contribution(env.parse, t.fetched[|s.fetched| + 1..]))
  {
    var page := env.parse(url);
    var s2 := s.(clockReads := s.clockReads + 1, visited := s.visited + {url},
                 fetched := s.fetched + [url], counts := Merge(s.counts, page.wordCounts));
    VisitAllExtends(env, s2, page.links, deadline, depth - 1);
  }

  // ---------------------------------------------------------------------------
  // Depth bound
  // ---------------------------------------------------------------------------

  /** to is at most n links away from `from`. */
  ghost predicate Reach(env: Env, from: string, to: string, n: nat)
    decreases n
  {
    from == to || (n > 0 && exists l :: l in env.parse(from).links && Reach(env, l, to, n - 1))
  }

  /** A task with depth d only visits URLs at most d - 1 links from its own URL. */
  lemma {:induction false} VisitWithinDepth(env: Env, s: Snapshot, url: string, deadline: int, depth: nat)
    ensures forall v :: v in Visit(env, s, url, deadline, depth).visited - s.visited ==>
      depth > 0 && Reach(env, url, v, depth - 1)
    decreases depth, 0
  {
    if !Ignored(env.ignoredUrls, url) && depth > 0 && env.instants(s.clockReads) <= deadline && url !in s.visited {
      var page := env.parse(url);
      var s2 := s.(clockReads := s.clockReads + 1, visited := s.visited + {url},
                   fetched := s.fetched + [url], counts := Merge(s.counts, page.wordCounts));
      var t := VisitAll(env, s2, page.links, deadline, depth - 1);
      VisitAllWithinDepth(env, s2, page.links, deadline, depth - 1);
      forall v | v in t.visited - s.visited ensures Reach(env, url, v, depth - 1) {
        if v != url {
          assert v in t.visited - s2.visited;
          assert depth - 1 > 0;
          var l :| l in page.links && Reach(env, l, v, depth - 2);
          assert l in env.parse(url).links;
        }
      }
    }
  }

  lemma {:induction false} VisitAllWithinDepth(env: Env, s: Snapshot, urls: seq<string>, deadline: int, depth: nat)
    ensures forall v :: v in VisitAll(env, s, urls, deadline, depth).visited - s.visited ==>
      depth > 0 && exists l :: l in urls && Reach(env, l, v, depth - 1)
    decreases depth, 1, |urls|
  {
    if urls != [] {
      var init, last := urls[..|urls| - 1], urls[|urls| - 1];
      var m := VisitAll(env, s, init, deadline, depth);
      VisitAllWithinDepth(env, s, init, deadline, depth);
      VisitWithinDepth(env, m, last, deadline, depth);
      forall v | v in VisitAll(env, s, urls, deadline, depth).visited - s.visited
        ensures depth > 0 && exists l :: l in urls && Reach(env, l, v, depth - 1)
      {
        if v in m.visited {
          assert v in m.visited - s.visited;
          assert depth > 0;
          var l :| l in init && Reach(env, l, v, depth - 1);
          assert l in urls;
        } else {
          assert v in Visit(env, m, last, deadline, depth).visited - m.visited;
          assert last in urls;
        }
      }
    }
  }

  // ---------------------------------------------------------------------------
  // A whole crawl from fresh shared state
  // ---------------------------------------------------------------------------

  lemma {:induction false} DistinctElems(urls: seq<string>)
    requires Distinct(urls)
    ensures |Elems(urls)| == |urls|
    decreases |urls|
  {
    if urls != [] {
      var init := urls[..|urls| - 1];
      DistinctElems(init);
      assert Elems(urls) == Elems(init) + {urls[|urls| - 1]};
      assert urls[|urls| - 1] !in Elems(init);
    }
  }

  /**
   * The seed tasks of crawl, run on an empty visited set and empty counts: every
   * URL is fetched at most once, the visited set is exactly the fetched URLs (so
   * its size is the number of pages fetched), each word's count is the sum of its
   * counts on the fetched pages, no visited URL is ignored, and each is at most
   * maxDepth - 1 links from some seed.
   */
  lemma CrawlFromFresh(env: Env, s: Snapshot, seeds: seq<string>, deadline: int, maxDepth: nat)
    requires s.visited == {} && s.counts == map[]
    ensures var t := VisitAll(env, s, seeds, deadline, maxDepth);
      && |s.fetched| <= |t.fetched|
      && Distinct(Added(s, t))
      && t.visited == Elems(Added(s, t)) && |t.visited| == |Added(s, t)|
      && t.counts == Contribution(env.parse, Added(s, t))
      && (forall v :: v in t.visited ==> !Ignored(env.ignoredUrls, v))
      && (forall v :: v in t.visited ==> maxDepth > 0 && exists l :: l in seeds && Reach(env, l, v, maxDepth - 1))
  {
    var t := VisitAll(env, s, seeds, deadline, maxDepth);
    VisitAllExtends(env, s, seeds, deadline, maxDepth);
    VisitAllWithinDepth(env, s, seeds, deadline, maxDepth);
    DistinctElems(Added(s, t));
    MergeWithEmpty(Contribution(env.parse, Added(s, t)));
  }

  /** With a clock that never goes back and a negative timeout, the deadline has passed: nothing is visited. */
  lemma CrawlAfterDeadline(env: Env, s: Snapshot, seeds: seq<string>, timeout: int, maxDepth: nat)
    requires Monotone(env.instants) && timeout < 0 && s.clockReads > 0
    ensures var t := VisitAll(env, s, seeds, env.instants(s.clockReads - 1) + timeout, maxDepth);
      t.visited == s.visited && t.counts == s.counts && t.fetched == s.fetched
  {
    assert env.instants(s.clockReads - 1) <= env.instants(s.clockReads);
    ExpiredVisitAllIsNoop(env, s, seeds, env.instants(s.clockReads - 1) + timeout, maxDepth);
  }
}
