/**
 * The top-K word ranking: WordCounts.sort and its WordCountComparator.
 *
 * The stream pipeline `sorted(comparator).limit(n).collect(toMap(..., LinkedHashMap::new))`
 * is modelled as the full ranking of the map's entries under the comparator
 * (Ranked), cut to its first n entries. A LinkedHashMap in insertion order is
 * modelled as a sequence of entries whose words are pairwise distinct.
 */
module WordCounts {

  /** One (word, count) pair of the map, as a Map.Entry<String, Integer>. */
  datatype Entry = Entry(word: string, count: nat)

  /** A value or the IllegalArgumentException that Stream.limit throws for a negative size. */
  datatype Result<T> = Ok(value: T) | IllegalArgument(maxSize: int)

  function Min(a: int, b: int): int { if a <= b then a else b }

  // ---------------------------------------------------------------------------
  // The comparator
  // ---------------------------------------------------------------------------

  /**
   * String.compareTo: the difference of the first differing characters, else of the
   * lengths. It is 0 exactly for equal strings.
   */
  function CompareStrings(a: string, b: string): (r: int)
    ensures r == 0 <==> a == b
  {
    if |a| == 0 || |b| == 0 then |a| - |b|
    else if a[0] != b[0] then (a[0] as int) - (b[0] as int)
    else
      assert a == [a[0]] + a[1..] && b == [b[0]] + b[1..];
      CompareStrings(a[1..], b[1..])
  }

  /**
   * WordCountComparator.compare: negative when a ranks before b. It is 0 only for the
   * same entry, and between different counts the higher count ranks first.
   */
  function Compare(a: Entry, b: Entry): (r: int)
    ensures r == 0 <==> a == b
    ensures a.count != b.count ==> (r < 0 <==> a.count > b.count)
  {
    if a.count != b.count then b.count - a.count
    else if |a.word| != |b.word| then |b.word| - |a.word|
    else CompareStrings(a.word, b.word)
  }

  /** a comes strictly before b in the ranking. */
  predicate Before(a: Entry, b: Entry)
  {
    Compare(a, b) < 0
  }

  lemma {:induction false} CompareStringsFlip(a: string, b: string)
    ensures CompareStrings(a, b) == -CompareStrings(b, a)
  {
    if |a| == 0 || |b| == 0 {
    } else if a[0] != b[0] {
    } else {
      CompareStringsFlip(a[1..], b[1..]);
    }
  }

  lemma {:induction false} CompareStringsTransitive(a: string, b: string, c: string)
    requires CompareStrings(a, b) < 0 && CompareStrings(b, c) < 0
    ensures CompareStrings(a, c) < 0
  {
    if |a| == 0 || |b| == 0 || |c| == 0 {
    } else if a[0] != b[0] || b[0] != c[0] {
    } else {
      CompareStringsTransitive(a[1..], b[1..], c[1..]);
    }
  }

  /** sgn(compare(a, b)) == -sgn(compare(b, a)), as the Comparator contract asks. */
  lemma CompareFlip(a: Entry, b: Entry)
    ensures Compare(a, b) == -Compare(b, a)
  {
    CompareStringsFlip(a.word, b.word);
  }

  lemma CompareTransitive(a: Entry, b: Entry, c: Entry)
    requires Compare(a, b) < 0 && Compare(b, c) < 0
    ensures Compare(a, c) < 0
  {
    if a.count == b.count == c.count && |a.word| == |b.word| == |c.word| {
      CompareStringsTransitive(a.word, b.word, c.word);
    }
  }

  /** Before is a strict total order on entries. */
  lemma BeforeIsStrictTotalOrder()
    ensures forall a: Entry :: !Before(a, a)
    ensures forall a: Entry, b: Entry :: Before(a, b) ==> !Before(b, a)
    ensures forall a: Entry, b: Entry :: a != b ==> Before(a, b) || Before(b, a)
    ensures forall a: Entry, b: Entry, c: Entry :: Before(a, b) && Before(b, c) ==> Before(a, c)
  {
    forall a: Entry ensures !Before(a, a) { assert Compare(a, a) == 0; }
    forall a: Entry, b: Entry ensures Before(a, b) ==> !Before(b, a) { CompareFlip(a, b); }
    forall a: Entry, b: Entry | a != b ensures Before(a, b) || Before(b, a) {
      CompareFlip(a, b);
    }
    forall a: Entry, b: Entry, c: Entry | Before(a, b) && Before(b, c) ensures Before(a, c) {
      CompareTransitive(a, b, c);
    }
  }

  /** The ranking order spelled out as the three keys of the comparator. */
  lemma BeforeByKeys(a: Entry, b: Entry)
    ensures Before(a, b) <==>
      || a.count > b.count
      || (a.count == b.count && |a.word| > |b.word|)
      || (a.count == b.count && |a.word| == |b.word| && CompareStrings(a.word, b.word) < 0)
  {
  }

  // ---------------------------------------------------------------------------
  // The ranking of a whole map
  // ---------------------------------------------------------------------------

  /** The entry of w in wordCounts. */
  function EntryOf(wordCounts: map<string, nat>, w: string): Entry
    requires w in wordCounts
  {
    Entry(w, wordCounts[w])
  }

  /** w's entry ranks before the entry of every other word of the map. */
  predicate IsFirst(wordCounts: map<string, nat>, w: string)
  {
    w in wordCounts &&
    forall v :: v in wordCounts && v != w ==> Before(EntryOf(wordCounts, w), EntryOf(wordCounts, v))
  }

  predicate StrictlySorted(s: seq<Entry>)
  {
    forall i, j {:trigger Before(s[i], s[j])} :: 0 <= i < j < |s| ==> Before(s[i], s[j])
  }

  /** s holds exactly the entries of wordCounts. */
  predicate EntriesOf(s: seq<Entry>, wordCounts: map<string, nat>)
  {
    && (forall i :: 0 <= i < |s| ==> s[i].word in wordCounts && wordCounts[s[i].word] == s[i].count)
    && (forall w :: w in wordCounts ==> EntryOf(wordCounts, w) in s)
  }

  lemma {:induction false} FirstExists(wordCounts: map<string, nat>)
    requires |wordCounts| > 0
    ensures exists w :: IsFirst(wordCounts, w)
    decreases |wordCounts|
  {
    var k :| k in wordCounts;
    var rest := wordCounts - {k};
    assert rest.Keys == wordCounts.Keys - {k};
    if |rest| == 0 {
      assert IsFirst(wordCounts, k);
    } else {
      FirstExists(rest);
      var w :| IsFirst(rest, w);
      assert forall v :: v in rest ==> EntryOf(rest, v) == EntryOf(wordCounts, v);
      BeforeIsStrictTotalOrder();
      assert EntryOf(wordCounts, k) != EntryOf(wordCounts, w);
      if Before(EntryOf(wordCounts, k), EntryOf(wordCounts, w)) {
        assert IsFirst(wordCounts, k);
      } else {
        assert IsFirst(wordCounts, w);
      }
    }
  }

  /** At most one word ranks first. */
  lemma FirstIsUnique(wordCounts: map<string, nat>)
    ensures forall w, v :: IsFirst(wordCounts, w) && IsFirst(wordCounts, v) ==> w == v
  {
    forall w, v | IsFirst(wordCounts, w) && IsFirst(wordCounts, v) ensures w == v {
      if w != v {
        CompareFlip(EntryOf(wordCounts, w), EntryOf(wordCounts, v));
      }
    }
  }

  /** The map without w; one word fewer. */
  function Without(wordCounts: map<string, nat>, w: string): (rest: map<string, nat>)
    requires w in wordCounts
    ensures rest.Keys == wordCounts.Keys - {w} && |rest| == |wordCounts| - 1
    ensures forall v :: v in rest ==> rest[v] == wordCounts[v]
  {
    var rest := wordCounts - {w};
    assert rest.Keys == wordCounts.Keys - {w};
    rest
  }

  /**
   * All entries of the map in ranking order: what `sorted(new WordCountComparator())`
   * yields for the map's entry set, whatever order the set is iterated in.
   */
  function Ranked(wordCounts: map<string, nat>): (r: seq<Entry>)
    ensures |r| == |wordCounts|
    decreases |wordCounts|
  {
    if |wordCounts| == 0 then []
    else
      FirstExists(wordCounts);
      FirstIsUnique(wordCounts);
      var w :| IsFirst(wordCounts, w);
      [EntryOf(wordCounts, w)] + Ranked(Without(wordCounts, w))
  }

  /** The ranking starts with the first word and goes on with the ranking of the rest. */
  lemma RankedUnfold(wordCounts: map<string, nat>, w: string)
    requires IsFirst(wordCounts, w)
    ensures Ranked(wordCounts) == [EntryOf(wordCounts, w)] + Ranked(Without(wordCounts, w))
  {
    FirstIsUnique(wordCounts);
  }

  /** The ranking lists exactly the entries of the map. */
  lemma {:induction false} RankedEntries(wordCounts: map<string, nat>)
    ensures EntriesOf(Ranked(wordCounts), wordCounts)
    decreases |wordCounts|
  {
    if |wordCounts| > 0 {
      FirstExists(wordCounts);
      var w :| IsFirst(wordCounts, w);
      var rest := Without(wordCounts, w);
      RankedUnfold(wordCounts, w);
      RankedEntries(rest);
      var r := Ranked(wordCounts);
      forall v | v in wordCounts ensures EntryOf(wordCounts, v) in r {
        if v != w {
          assert EntryOf(wordCounts, v) == EntryOf(rest, v);
          assert EntryOf(rest, v) in Ranked(rest);
        }
      }
      forall i | 0 <= i < |r| ensures r[i].word in wordCounts && wordCounts[r[i].word] == r[i].count {
        if i > 0 {
          assert r[i] == Ranked(rest)[i - 1];
        }
      }
    }
  }

  lemma HeadBeforeTail(wordCounts: map<string, nat>, w: string, tail: seq<Entry>)
    requires IsFirst(wordCounts, w)
    requires EntriesOf(tail, Without(wordCounts, w))
    ensures forall j :: 0 <= j < |tail| ==> Before(EntryOf(wordCounts, w), tail[j])
  {
    var rest := Without(wordCounts, w);
    forall j | 0 <= j < |tail| ensures Before(EntryOf(wordCounts, w), tail[j]) {
      var v := tail[j].word;
      assert v in rest && rest[v] == tail[j].count;
      assert tail[j] == EntryOf(wordCounts, v);
    }
  }

  lemma ConsSorted(head: Entry, tail: seq<Entry>)
    requires StrictlySorted(tail)
    requires forall j :: 0 <= j < |tail| ==> Before(head, tail[j])
    ensures StrictlySorted([head] + tail)
  {
    var r := [head] + tail;
    forall i, j | 0 <= i < j < |r| ensures Before(r[i], r[j]) {
      assert r[j] == tail[j - 1];
      if i > 0 { assert r[i] == tail[i - 1]; }
    }
  }

  /** The ranking is strictly increasing under the comparator. */
  lemma {:induction false} RankedSorted(wordCounts: map<string, nat>)
    ensures StrictlySorted(Ranked(wordCounts))
    decreases |wordCounts|
  {
    if |wordCounts| > 0 {
      FirstExists(wordCounts);
      var w :| IsFirst(wordCounts, w);
      var rest := Without(wordCounts, w);
      RankedUnfold(wordCounts, w);
      RankedSorted(rest);
      RankedEntries(rest);
      var tail := Ranked(rest);
      var head := EntryOf(wordCounts, w);
      HeadBeforeTail(wordCounts, w, tail);
      ConsSorted(head, tail);
    }
  }

  /** No two entries share a word, so the toMap merge function is never applied. */
  predicate DistinctWords(s: seq<Entry>)
  {
    forall i, j :: 0 <= i < j < |s| ==> s[i].word != s[j].word
  }

  lemma SortedEntriesHaveDistinctWords(s: seq<Entry>, wordCounts: map<string, nat>)
    requires StrictlySorted(s) && EntriesOf(s, wordCounts)
    ensures DistinctWords(s)
  {
    forall i, j | 0 <= i < j < |s| ensures s[i].word != s[j].word {
      assert Before(s[i], s[j]);
      assert s[i].count == wordCounts[s[i].word] && s[j].count == wordCounts[s[j].word];
    }
  }

  /** An entry is in s exactly when it is an entry of the map. */
  lemma EntriesOfMembership(s: seq<Entry>, wordCounts: map<string, nat>)
    requires EntriesOf(s, wordCounts)
    ensures forall x :: x in s <==> x.word in wordCounts && wordCounts[x.word] == x.count
  {
    forall x ensures x in s <==> x.word in wordCounts && wordCounts[x.word] == x.count {
      if x.word in wordCounts && wordCounts[x.word] == x.count {
        assert x == EntryOf(wordCounts, x.word);
      }
    }
  }

  /** The first n entries of a strictly sorted listing of the map outrank every entry left out. */
  lemma PrefixOutranksRest(all: seq<Entry>, wordCounts: map<string, nat>, n: nat)
    requires StrictlySorted(all) && EntriesOf(all, wordCounts) && n <= |all|
    ensures forall w, i :: w in wordCounts && EntryOf(wordCounts, w) !in all[..n] && 0 <= i < n ==>
      Before(all[..n][i], EntryOf(wordCounts, w))
  {
    forall w, i | w in wordCounts && EntryOf(wordCounts, w) !in all[..n] && 0 <= i < n
      ensures Before(all[..n][i], EntryOf(wordCounts, w))
    {
      var k :| 0 <= k < |all| && all[k] == EntryOf(wordCounts, w);
      assert all[..n][i] == all[i];
    }
  }

  lemma PrefixSorted(s: seq<Entry>, n: nat)
    requires StrictlySorted(s) && n <= |s|
    ensures StrictlySorted(s[..n])
  {
    forall i, j | 0 <= i < j < n ensures Before(s[..n][i], s[..n][j]) {
      assert s[..n][i] == s[i] && s[..n][j] == s[j];
      assert Before(s[i], s[j]);
    }
  }

  /** The first n entries of the ranking are entries of the map. */
  lemma TopEntries(wordCounts: map<string, nat>, n: nat)
    requires n <= |wordCounts|
    ensures forall i :: 0 <= i < n ==>
      Ranked(wordCounts)[i].word in wordCounts && Ranked(wordCounts)[i].count == wordCounts[Ranked(wordCounts)[i].word]
  {
    RankedEntries(wordCounts);
  }

  /** The first n entries of the ranking are sorted and name distinct words. */
  lemma TopSorted(wordCounts: map<string, nat>, n: nat)
    requires n <= |wordCounts|
    ensures StrictlySorted(Ranked(wordCounts)[..n]) && DistinctWords(Ranked(wordCounts)[..n])
  {
    var all := Ranked(wordCounts);
    RankedEntries(wordCounts);
    RankedSorted(wordCounts);
    PrefixSorted(all, n);
    SortedEntriesHaveDistinctWords(all, wordCounts);
    PrefixDistinct(all, n);
  }

  lemma PrefixDistinct(s: seq<Entry>, n: nat)
    requires DistinctWords(s) && n <= |s|
    ensures DistinctWords(s[..n])
  {
    forall i, j | 0 <= i < j < n ensures s[..n][i].word != s[..n][j].word {
      assert s[..n][i] == s[i] && s[..n][j] == s[j];
    }
  }

  /**
   * WordCounts.sort: the first min(popularWordCount, |wordCounts|) entries of the
   * ranking, or the IllegalArgumentException of Stream.limit when that number is negative.
   */
  function Sort(wordCounts: map<string, nat>, popularWordCount: int): (r: Result<seq<Entry>>)
    ensures r.Ok? <==> popularWordCount >= 0
    ensures r.IllegalArgument? ==> r.maxSize == popularWordCount
    ensures r.Ok? ==> |r.value| == Min(popularWordCount, |wordCounts|)
    ensures r.Ok? ==> forall i :: 0 <= i < |r.value| ==>
      r.value[i].word in wordCounts && r.value[i].count == wordCounts[r.value[i].word]
    ensures r.Ok? ==> StrictlySorted(r.value) && DistinctWords(r.value)
    ensures r.Ok? ==> forall w, i :: w in wordCounts && EntryOf(wordCounts, w) !in r.value && 0 <= i < |r.value| ==>
      Before(r.value[i], EntryOf(wordCounts, w))
  {
    var n := Min(popularWordCount, |wordCounts|);
    if n < 0 then IllegalArgument(n)
    else
      var all := Ranked(wordCounts);
      TopEntries(wordCounts, n);
      TopSorted(wordCounts, n);
      RankedEntries(wordCounts);
      RankedSorted(wordCounts);
      PrefixOutranksRest(all, wordCounts, n);
      Ok(all[..n])
  }

  /** Counts never increase along a ranking; ties keep longer words first, then ascending order. */
  lemma SortedByKeys(s: seq<Entry>, i: int, j: int)
    requires StrictlySorted(s) && 0 <= i < j < |s|
    ensures s[i].count >= s[j].count
    ensures s[i].count == s[j].count ==> |s[i].word| >= |s[j].word|
    ensures s[i].count == s[j].count && |s[i].word| == |s[j].word| ==> LexLess(s[i].word, s[j].word)
  {
    BeforeByKeys(s[i], s[j]);
    if s[i].count == s[j].count && |s[i].word| == |s[j].word| {
      CompareStringsIsLexOrder(s[i].word, s[j].word);
    }
  }

  /** Lexicographic order of strings, as an independent definition. */
  predicate LexLess(a: string, b: string)
  {
    || (exists k :: 0 <= k < |a| && k < |b| && a[..k] == b[..k] && a[k] < b[k])
    || (|a| < |b| && a == b[..|a|])
  }

  lemma {:induction false} CompareStringsIsLexOrder(a: string, b: string)
    ensures CompareStrings(a, b) < 0 <==> LexLess(a, b)
  {
    if |a| == 0 || |b| == 0 {
    } else if a[0] != b[0] {
      if a[0] < b[0] {
        assert a[..0] == b[..0];
      } else {
        if |a| < |b| { assert b[..|a|][0] == b[0]; }
        forall k | 0 <= k < |a| && k < |b| && a[..k] == b[..k] ensures a[k] >= b[k] {
        }
      }
    } else {
      var a', b' := a[1..], b[1..];
      CompareStringsIsLexOrder(a', b');
      if LexLess(a', b') {
        if k :| 0 <= k < |a'| && k < |b'| && a'[..k] == b'[..k] && a'[k] < b'[k] {
          assert a[..k + 1] == [a[0]] + a'[..k] && b[..k + 1] == [b[0]] + b'[..k];
          assert a[k + 1] == a'[k] && b[k + 1] == b'[k];
        } else {
          assert b[..|a|] == [b[0]] + b'[..|a'|];
          assert a == [a[0]] + a';
        }
      }
      if LexLess(a, b) {
        if k :| 0 <= k < |a| && k < |b| && a[..k] == b[..k] && a[k] < b[k] {
          assert k > 0;
          assert a'[..k - 1] == a[..k][1..] && b'[..k - 1] == b[..k][1..];
          assert a'[k - 1] == a[k] && b'[k - 1] == b[k];
        } else {
          assert b'[..|a'|] == b[..|a|][1..];
          assert a' == a[1..];
        }
      }
    }
  }

  /** Two strictly sorted sequences with the same elements are the same sequence. */
  lemma {:induction false} SortedSameElementsEqual(s: seq<Entry>, t: seq<Entry>)
    requires StrictlySorted(s) && StrictlySorted(t)
    requires forall x :: x in s <==> x in t
    ensures s == t
  {
    if s != [] { assert s[0] in t; }
    if t != [] { assert t[0] in s; }
    if s != [] && t != [] {
      if s[0] != t[0] {
        var i :| 0 <= i < |t| && t[i] == s[0];
        var j :| 0 <= j < |s| && s[j] == t[0];
        assert Before(s[0], s[j]) && Before(t[0], t[i]);
        CompareFlip(s[0], t[0]);
        assert false;
      }
      forall x ensures x in s[1..] <==> x in t[1..] {
        if x in s[1..] {
          var k :| 1 <= k < |s| && s[k] == x;
          assert Before(s[0], s[k]);
          assert Compare(s[0], s[0]) == 0;
          assert x in t && x != t[0];
          var l :| 0 <= l < |t| && t[l] == x;
          assert t[1..][l - 1] == x;
        }
        if x in t[1..] {
          var k :| 1 <= k < |t| && t[k] == x;
          assert Before(t[0], t[k]);
          assert Compare(t[0], t[0]) == 0;
          assert x in s && x != s[0];
          var l :| 0 <= l < |s| && s[l] == x;
          assert s[1..][l - 1] == x;
        }
      }
      SortedSameElementsEqual(s[1..], t[1..]);
      assert s == [s[0]] + s[1..] && t == [t[0]] + t[1..];
    }
  }

  /**
   * The ranking is fully determined by the comparator: any strictly sorted listing
   * of the map's entries is the ranking, whatever order the stream met them in.
   */
  lemma RankingIsDetermined(wordCounts: map<string, nat>, s: seq<Entry>)
    requires StrictlySorted(s) && EntriesOf(s, wordCounts)
    ensures s == Ranked(wordCounts)
  {
    var r := Ranked(wordCounts);
    RankedEntries(wordCounts);
    RankedSorted(wordCounts);
    EntriesOfMembership(s, wordCounts);
    EntriesOfMembership(r, wordCounts);
    SortedSameElementsEqual(s, r);
  }

  /** {cat: 5, dog: 5, ox: 2} with K = 2 ranks cat before dog (same count and length) and drops ox. */
  lemma SortExample(m: map<string, nat>)
    requires m == map["cat" := 5, "dog" := 5, "ox" := 2]
    ensures Sort(m, 2) == Ok([Entry("cat", 5), Entry("dog", 5)])
  {
    var s := [Entry("cat", 5), Entry("dog", 5), Entry("ox", 2)];
    ExampleRanking(m, s);
    SortOfSortedListing(m, 2, s);
    assert s[..2] == [Entry("cat", 5), Entry("dog", 5)];
  }

  /** For 0 <= K <= |wordCounts|, sort keeps the first K entries of any sorted listing of the map. */
  lemma SortOfSortedListing(wordCounts: map<string, nat>, popularWordCount: nat, s: seq<Entry>)
    requires StrictlySorted(s) && EntriesOf(s, wordCounts) && popularWordCount <= |s|
    ensures Sort(wordCounts, popularWordCount) == Ok(s[..popularWordCount])
  {
    RankingIsDetermined(wordCounts, s);
  }

  lemma ExampleRanking(m: map<string, nat>, s: seq<Entry>)
    requires m == map["cat" := 5, "dog" := 5, "ox" := 2]
    requires s == [Entry("cat", 5), Entry("dog", 5), Entry("ox", 2)]
    ensures StrictlySorted(s) && EntriesOf(s, m) && |m| == 3
  {
    ExampleSorted(s);
    ExampleEntries(m, s);
  }

  lemma ExampleSorted(s: seq<Entry>)
    requires s == [Entry("cat", 5), Entry("dog", 5), Entry("ox", 2)]
    ensures StrictlySorted(s)
  {
    assert CompareStrings("cat", "dog") < 0;
    assert Before(s[0], s[1]) && Before(s[0], s[2]) && Before(s[1], s[2]);
  }

  lemma ExampleEntries(m: map<string, nat>, s: seq<Entry>)
    requires m == map["cat" := 5, "dog" := 5, "ox" := 2]
    requires s == [Entry("cat", 5), Entry("dog", 5), Entry("ox", 2)]
    ensures EntriesOf(s, m) && |m| == 3
  {
    assert m.Keys == {"cat", "dog", "ox"};
    forall w | w in m ensures EntryOf(m, w) in s {
      if w == "cat" {
        assert EntryOf(m, w) == s[0];
      } else if w == "dog" {
        assert EntryOf(m, w) == s[1];
      } else {
        assert EntryOf(m, w) == s[2];
      }
    }
  }
}
