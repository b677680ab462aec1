# Web crawler core: a verified Dafny model

This project models the two algorithmic parts of the Udacity web crawler:

- **Top-K word ranking** (`WordCounts.sort` with its `WordCountComparator`). A word→count map is ranked. Higher counts come first. Among equal counts, longer words come first. Among equal counts and lengths, words are in ascending `String.compareTo` order. The ranking is then cut to its first `min(popularWordCount, size)` entries and collected into an insertion-ordered map.
- **The crawl** (`ParallelWebCrawler.crawl` and the recursive task `crawlInternal.compute`). Each task does these steps in order:
  - it skips a URL that an ignored pattern matches;
  - it stops at depth 0 or when the clock reads strictly after the deadline;
  - it skips a URL that was already visited;
  - otherwise it marks the URL visited, parses the page and adds the page's word counts into the shared map;
  - it then runs one child task per outbound link with depth − 1.
  `crawl` runs one such task per seed. All tasks share one visited set and one count map. `crawl` then reports the visited-set size and either the empty raw map or the ranking.

Files:

- `wordcounts.dfy` (module `WordCounts`) covers the comparator. It is modelled up to the two differences listed under Left out (UTF-16 code units, `Integer` overflow), including `String.compareTo`'s difference-of-characters result. `Ranked` lists all entries of a map in comparator order. `Sort` is `WordCounts.sort`. The lemmas show the following:
  - the comparator is a strict total order that returns 0 only for the same entry;
  - the ranking is a sorted permutation of the map's entries;
  - the ranking is the only such permutation, so the result does not depend on hash-map iteration order;
  - the cut keeps the best entries.
- `crawl_model.dfy` (module `CrawlModel`) is the reference semantics of a task (`Visit`) and of a list of tasks run in order (`VisitAll`). Both are pure functions over a `Snapshot`. A snapshot holds the visited set, the counts, the number of clock reads, and the log of URLs handed to the parser. The lemmas state what the crawl guarantees.
- `parallel_web_crawler.dfy` (module `Crawler`) is the imperative model. It has classes for the injected clock, the page-parser factory, the shared `ConcurrentSkipListSet` and `ConcurrentHashMap`, and the crawler itself. `Compute`, `InvokeAll` and `Crawl` are proved equal to the reference semantics, so every lemma of `CrawlModel` applies to them.

External pieces are given values:

- The page parser is a total function from a URL to a `Page` (word counts and links).
- Each ignored-URL pattern is a full-match predicate on the URL.
- The clock is a fixed function from "n-th reading" to an integer instant. The `Clock` class counts its readings.

The model keeps these behaviours of the code:

- The deadline test is `isAfter`, so a task whose clock reads exactly the deadline still runs (`CrawlModel.VisitClaims`).
- A parse is never treated as failing.
- An empty seed list is not an error. It yields empty counts and 0 URLs visited.

## Model

| member | source | states |
|---|---|---|
| `WordCounts.CompareStrings` | starter/webcrawler/src/main/java/com/udacity/webcrawler/WordCounts.java:73 | `String.compareTo` on whole words: the difference of the first differing characters, else the difference of the lengths; it is 0 exactly when the two words are equal |
| `WordCounts.CompareStringsFlip` | starter/webcrawler/src/main/java/com/udacity/webcrawler/WordCounts.java:73 | `compareTo(a, b)` is the negation of `compareTo(b, a)` |
| `WordCounts.CompareStringsTransitive` | starter/webcrawler/src/main/java/com/udacity/webcrawler/WordCounts.java:73 | `compareTo` is transitive on "less than" |
| `WordCounts.CompareStringsIsLexOrder` | starter/webcrawler/src/main/java/com/udacity/webcrawler/WordCounts.java:73 | `compareTo(a, b) < 0` holds exactly when a precedes b lexicographically: a differs first at a smaller character, or a is a proper prefix of b |
| `WordCounts.Compare` | starter/webcrawler/src/main/java/com/udacity/webcrawler/WordCounts.java:60-74 | `WordCountComparator.compare`: the count difference (higher count first), else the length difference (longer first), else `compareTo`; it is 0 only for the same (word, count) entry, so two distinct keys never tie; between different counts the higher count ranks first |
| `WordCounts.CompareFlip` | starter/webcrawler/src/main/java/com/udacity/webcrawler/WordCounts.java:60-74 | `compare(a, b) == -compare(b, a)` (the Comparator contract's sign rule) |
| `WordCounts.CompareTransitive` | starter/webcrawler/src/main/java/com/udacity/webcrawler/WordCounts.java:60-74 | the comparator is transitive |
| `WordCounts.BeforeIsStrictTotalOrder` | starter/webcrawler/src/main/java/com/udacity/webcrawler/WordCounts.java:60-74 | "ranks before" is irreflexive, asymmetric, transitive and total on distinct entries |
| `WordCounts.BeforeByKeys` | starter/webcrawler/src/main/java/com/udacity/webcrawler/WordCounts.java:61-73 | an entry ranks first exactly when it has: a higher count; or an equal count and a longer word; or an equal count, an equal length and a smaller `compareTo` |
| `WordCounts.FirstExists` | starter/webcrawler/src/main/java/com/udacity/webcrawler/WordCounts.java:41 | every non-empty map has an entry that ranks before all its other entries |
| `WordCounts.FirstIsUnique` | starter/webcrawler/src/main/java/com/udacity/webcrawler/WordCounts.java:41 | at most one word of a map ranks first |
| `WordCounts.Ranked` | starter/webcrawler/src/main/java/com/udacity/webcrawler/WordCounts.java:39-41 | the sorted stream of the map's entries has one element per key |
| `WordCounts.RankedEntries` | starter/webcrawler/src/main/java/com/udacity/webcrawler/WordCounts.java:39-41 | the sorted stream holds exactly the map's entries, each with its count unchanged |
| `WordCounts.RankedSorted` | starter/webcrawler/src/main/java/com/udacity/webcrawler/WordCounts.java:41 | the sorted stream is strictly increasing under the comparator |
| `WordCounts.SortedEntriesHaveDistinctWords` | starter/webcrawler/src/main/java/com/udacity/webcrawler/WordCounts.java:45 | a sorted listing of a map's entries never repeats a word, so the `toMap` merge function is never applied |
| `WordCounts.SortedSameElementsEqual` | starter/webcrawler/src/main/java/com/udacity/webcrawler/WordCounts.java:41 | two strictly sorted sequences with the same elements are equal |
| `WordCounts.RankingIsDetermined` | starter/webcrawler/src/main/java/com/udacity/webcrawler/WordCounts.java:39-41 | any strictly sorted listing of the map's entries equals the ranking, so the result does not depend on the entry set's iteration order |
| `WordCounts.Sort` | starter/webcrawler/src/main/java/com/udacity/webcrawler/WordCounts.java:35-46 | when popularWordCount ≥ 0 the result has exactly `min(popularWordCount, size)` entries; each is an input key with its count; the entries are strictly sorted and name distinct words; every word left out ranks after every word kept. When popularWordCount < 0 the result is `limit`'s IllegalArgumentException |
| `WordCounts.SortedByKeys` | starter/webcrawler/src/main/java/com/udacity/webcrawler/WordCounts.java:61-73 | along a ranking: counts never increase; among equal counts, lengths never increase; among equal counts and lengths, words are in ascending lexicographic order |
| `WordCounts.SortOfSortedListing` | starter/webcrawler/src/main/java/com/udacity/webcrawler/WordCounts.java:39-45 | for 0 ≤ K ≤ size, the result is the first K entries of any strictly sorted listing of the map's entries |
| `WordCounts.SortExample` | starter/webcrawler/src/main/java/com/udacity/webcrawler/WordCounts.java:35-46 | {cat: 5, dog: 5, ox: 2} with K = 2 gives [(cat, 5), (dog, 5)] |
| `CrawlModel.Merge` | starter/webcrawler/src/main/java/com/udacity/webcrawler/ParallelWebCrawler.java:112-118 | the `counts.compute` loop over a page's entries: the words are those of the counts and of the page; each word's count is its old value (0 if absent) plus the page's count; words not in the page keep their count |
| `CrawlModel.Ignored` | starter/webcrawler/src/main/java/com/udacity/webcrawler/ParallelWebCrawler.java:100-104 | the pattern loop: true exactly when some pattern of the list matches the whole URL (so never for an empty list) |
| `CrawlModel.Visit` | starter/webcrawler/src/main/java/com/udacity/webcrawler/ParallelWebCrawler.java:99-125 | one `compute()`, with the guards in source order: an ignored URL or depth 0 returns before the clock is read; otherwise the clock is read once, and a reading strictly after the deadline or an already visited URL returns; otherwise the URL is claimed, parsed once, its counts merged, and one child task per link runs at depth − 1 in link order |
| `CrawlModel.VisitAll` | starter/webcrawler/src/main/java/com/udacity/webcrawler/ParallelWebCrawler.java:67-69 | one task per URL of the list (the seeds of `crawl`, or the links of `invokeAll` at lines 119-124), run one after the other in list order on the shared state |
| `CrawlModel.MergeCommutes` | starter/webcrawler/src/main/java/com/udacity/webcrawler/ParallelWebCrawler.java:112-118 | merging two pages' counts gives the same map in either order |
| `CrawlModel.MergeAssociates` | starter/webcrawler/src/main/java/com/udacity/webcrawler/ParallelWebCrawler.java:112-118 | merging is associative |
| `CrawlModel.ContributionConcat` | starter/webcrawler/src/main/java/com/udacity/webcrawler/ParallelWebCrawler.java:112-118 | the summed counts of two runs of fetched pages is the merge of their sums |
| `CrawlModel.ExtendsTransitive` | starter/webcrawler/src/main/java/com/udacity/webcrawler/ParallelWebCrawler.java:98-125 | the "only adds fresh pages" relation between states composes over consecutive tasks |
| `CrawlModel.VisitExtends` | starter/webcrawler/src/main/java/com/udacity/webcrawler/ParallelWebCrawler.java:98-125 | a task (with all its descendants) has these effects: the fetch log only grows; each new fetch is of a URL not visited before, fetched once, and matching no ignored pattern; the visited set grows by exactly the new fetches; the counts grow by exactly those pages' counts; the clock is only read forward |
| `CrawlModel.VisitAllExtends` | starter/webcrawler/src/main/java/com/udacity/webcrawler/ParallelWebCrawler.java:119-124 | the same for a list of tasks run in order |
| `CrawlModel.IgnoredVisitIsNoop` | starter/webcrawler/src/main/java/com/udacity/webcrawler/ParallelWebCrawler.java:100-104 | a task for a URL that an ignored pattern matches changes nothing: no visit, no count, no child, not even a clock read |
| `CrawlModel.DepthZeroVisitIsNoop` | starter/webcrawler/src/main/java/com/udacity/webcrawler/ParallelWebCrawler.java:105 | a task with depth 0 changes nothing |
| `CrawlModel.DepthZeroVisitAllIsNoop` | starter/webcrawler/src/main/java/com/udacity/webcrawler/ParallelWebCrawler.java:67-69 | any list of depth-0 tasks changes nothing |
| `CrawlModel.RevisitIsNoop` | starter/webcrawler/src/main/java/com/udacity/webcrawler/ParallelWebCrawler.java:105 | a task for an already-visited URL does not fetch or count again; it only reads the clock |
| `CrawlModel.ExpiredVisitIsNoop` | starter/webcrawler/src/main/java/com/udacity/webcrawler/ParallelWebCrawler.java:105 | when the clock reads strictly after the deadline, a task leaves the visited set, counts and fetch log unchanged |
| `CrawlModel.ExpiredVisitAllIsNoop` | starter/webcrawler/src/main/java/com/udacity/webcrawler/ParallelWebCrawler.java:105 | with a clock that never goes back, once it reads past the deadline every later task in the list changes nothing either |
| `CrawlModel.VisitClaims` | starter/webcrawler/src/main/java/com/udacity/webcrawler/ParallelWebCrawler.java:105-109 | a task that passes the filter, has depth left and reads the clock at or before the deadline leaves its URL in the visited set |
| `CrawlModel.FirstVisitFetches` | starter/webcrawler/src/main/java/com/udacity/webcrawler/ParallelWebCrawler.java:109-118 | at depth 1 (children do nothing), a first visit adds exactly the URL to the set, fetches it exactly once and adds its page's counts |
| `CrawlModel.FirstVisitFetchesFirst` | starter/webcrawler/src/main/java/com/udacity/webcrawler/ParallelWebCrawler.java:109-124 | at any depth > 0, a first visit leaves the URL visited, fetches it before every URL its children fetch, and leaves the counts equal to the old counts plus its page's counts plus the counts of the pages the children fetched |
| `CrawlModel.VisitWithinDepth` | starter/webcrawler/src/main/java/com/udacity/webcrawler/ParallelWebCrawler.java:119-124 | a task with depth d visits only URLs at most d − 1 links from its own URL |
| `CrawlModel.VisitAllWithinDepth` | starter/webcrawler/src/main/java/com/udacity/webcrawler/ParallelWebCrawler.java:119-124 | tasks with depth d for a list visit only URLs at most d − 1 links from some element of the list |
| `CrawlModel.DistinctElems` | starter/webcrawler/src/main/java/com/udacity/webcrawler/ParallelWebCrawler.java:73 | a repetition-free list of URLs has as many elements as its set |
| `CrawlModel.CrawlFromFresh` | starter/webcrawler/src/main/java/com/udacity/webcrawler/ParallelWebCrawler.java:60-69 | from an empty set and an empty map, the seed tasks give the following: each URL is fetched at most once; the visited set is exactly the fetched URLs, and its size is the number of fetches; each word's count is the sum of its counts over the fetched pages; no visited URL is ignored; every visited URL is at most maxDepth − 1 links from a seed |
| `CrawlModel.CrawlAfterDeadline` | starter/webcrawler/src/main/java/com/udacity/webcrawler/ParallelWebCrawler.java:61 | with a clock that never goes back and a negative timeout, the crawl visits, fetches and counts nothing |
| `Crawler.Clock.Instant` | starter/webcrawler/src/main/java/com/udacity/webcrawler/ParallelWebCrawler.java:105 | `clock.instant()` returns the next reading of the clock |
| `Crawler.PageParserFactory.Parse` | starter/webcrawler/src/main/java/com/udacity/webcrawler/ParallelWebCrawler.java:111 | `parserFactory.get(url).parse()` returns the URL's page and logs the request |
| `Crawler.UrlSet.Contains` | starter/webcrawler/src/main/java/com/udacity/webcrawler/ParallelWebCrawler.java:105 | `visitedUrls.contains(url)` |
| `Crawler.UrlSet.Add` | starter/webcrawler/src/main/java/com/udacity/webcrawler/ParallelWebCrawler.java:109 | `visitedUrls.add(url)` adds the URL and nothing else |
| `Crawler.UrlSet.Size` | starter/webcrawler/src/main/java/com/udacity/webcrawler/ParallelWebCrawler.java:73 | `visitedUrls.size()` is the number of distinct visited URLs |
| `Crawler.CountMap.Compute` | starter/webcrawler/src/main/java/com/udacity/webcrawler/ParallelWebCrawler.java:114-117 | `counts.compute` with the remapping function: the word's count becomes the page's count if the word was absent, otherwise old count + page count; other words are unchanged |
| `Crawler.CountMap.IsEmpty` | starter/webcrawler/src/main/java/com/udacity/webcrawler/ParallelWebCrawler.java:70 | `counts.isEmpty()` |
| `Crawler.Report` | starter/webcrawler/src/main/java/com/udacity/webcrawler/ParallelWebCrawler.java:70-79 | the urlsVisited of the result is the visited-set size; the raw map is returned exactly when the counts are empty (and it is then empty); otherwise the result is `WordCounts.sort(counts, popularWordCount)`, whose exception is raised exactly when the counts are non-empty and K < 0 |
| `Crawler.ParallelWebCrawler.constructor` | starter/webcrawler/src/main/java/com/udacity/webcrawler/ParallelWebCrawler.java:40-57 | the crawler keeps the injected clock, parser factory, timeout, popular-word count, maximum depth and ignored patterns |
| `Crawler.ParallelWebCrawler.IsIgnored` | starter/webcrawler/src/main/java/com/udacity/webcrawler/ParallelWebCrawler.java:100-104 | the loop over the patterns answers true exactly when some pattern matches the whole URL |
| `Crawler.ParallelWebCrawler.Compute` | starter/webcrawler/src/main/java/com/udacity/webcrawler/ParallelWebCrawler.java:98-125 | the new visited set, counts, clock readings and fetch log are exactly what the reference task `Visit` gives from the old ones |
| `Crawler.ParallelWebCrawler.MergeCounts` | starter/webcrawler/src/main/java/com/udacity/webcrawler/ParallelWebCrawler.java:112-118 | the loop of `counts.compute` calls over the page's entries leaves the counts equal to the per-word sum of old counts and page counts |
| `Crawler.ParallelWebCrawler.InvokeAll` | starter/webcrawler/src/main/java/com/udacity/webcrawler/ParallelWebCrawler.java:119-124 | the child tasks, one per link with the same deadline, depth − 1 and the shared state, run in list order and have the effect of `VisitAll` |
| `Crawler.ParallelWebCrawler.Crawl` | starter/webcrawler/src/main/java/com/udacity/webcrawler/ParallelWebCrawler.java:59-80 | the deadline is the first clock reading plus the timeout; the visited set and the counts start empty; one task per seed runs with maxDepth; the result is `Report` of the final counts and visited-set size |
| `Crawler.CrawlWithDepthZero` | starter/webcrawler/src/main/java/com/udacity/webcrawler/ParallelWebCrawler.java:67-74 | with maxDepth 0, crawl reports 0 URLs visited and the empty raw map |
| `Crawler.CrawlOfIgnoredSeeds` | starter/webcrawler/src/main/java/com/udacity/webcrawler/ParallelWebCrawler.java:100-104 | when every seed is ignored, the shared state is untouched and crawl reports 0 URLs visited and the empty raw map |

## Left out

- Parallel scheduling is not modelled. This covers the `ForkJoinPool`, `RecursiveAction`, `invokeAll`'s concurrency, the `threadCount` argument and `getMaxParallelism`. Children run sequentially in link order.
- The check-then-add race on the visited set between the `contains` test and the `add` is not modelled. It cannot occur in a sequential run. The atomicity of `ConcurrentHashMap.compute` is not modelled either. `CrawlModel.MergeCommutes` and `CrawlModel.MergeAssociates` show that merging pages' counts commutes and associates. No lemma states that the counts are unchanged when the fetch order is permuted.
- Regular-expression matching is not modelled. Each ignored pattern is given as the predicate "`matcher(url).matches()` holds".
- Page fetching and parsing are not modelled. The parser is a total function, so fetch or parse failures are not modelled.
- The real clock is not modelled. Instants are integers read from a fixed sequence. Overflow in `Instant.plus` (a `DateTimeException`) is not modelled.
- `Crawler.CountMap.Compute`: counts are unbounded naturals. Java's `Integer` addition wraps past 2^31 − 1, and that wrap-around is not modelled.
- `Crawler.ParallelWebCrawler.Compute`: the depth is a natural number. With a negative configured `maxDepth`, the Java guard `maxDepth == 0` never fires, and the recursion is bounded only by the deadline and the visited set. That case is not modelled.
- `WordCounts.CompareStrings`: strings are sequences of Unicode scalar values. Java's `length()` and `compareTo` work on UTF-16 code units, so the two can differ for characters outside the Basic Multilingual Plane.
- `WordCounts.Sort`: counts are natural numbers, because they are sums of page counts in the only caller. With arbitrary negative `Integer` values, `b.getValue() - a.getValue()` could overflow in Java. That case is not modelled.
- `CrawlResult.Builder` is not modelled. The result is a plain record of the reported word counts and the visited-URL count.
- `ProfilerImpl.java`, `ProfilingMethodInterceptor.java` (reflection, timing, file output), `ConfigurationLoader.java` (JSON loading) and `WebCrawlerMain.java` (injection, command line, output) are not part of this model.
