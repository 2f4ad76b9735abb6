/**
 * The merge block of `loadNews`: the settled feed results are tagged with their feed's name,
 * concatenated in configuration order, sorted newest first and deduplicated.
 * A feed's outcome is `Some(items)` when its promise was fulfilled with a list and `None` when it
 * was rejected or fulfilled with `null`.
 */
module Aggregator {
  import opened Wrappers
  import opened Seqs
  import opened News
  import opened Deduplication

  /** `{...item, source: sourceName}`. */
  function WithSource(item: FeedItem, name: string): NewsItem {
    NewsItem(item.title, item.link, item.pubDate, item.description, name)
  }

  /** The feed item an entry of the merged collection was made from. */
  function Untagged(x: NewsItem): FeedItem {
    FeedItem(x.title, x.link, x.pubDate, x.description)
  }

  /** `result.value.map(item => ({...item, source: sourceName}))`. */
  function Tag(items: seq<FeedItem>, name: string): seq<NewsItem> {
    seq(|items|, i requires 0 <= i < |items| => WithSource(items[i], name))
  }

  /** What one settled result adds to `allItems`: its tagged items if it holds a list, else nothing. */
  function Contribution(result: Option<seq<FeedItem>>, name: string): seq<NewsItem> {
    if result.Some? then Tag(result.value, name) else []
  }

  /** `allItems` after the `forEach` over the settled results, one result per configured feed. */
  function Merge(results: seq<Option<seq<FeedItem>>>, feeds: seq<FeedSource>): seq<NewsItem>
    requires |results| == |feeds|
    decreases |results|
  {
    if results == [] then []
    else
      var n := |results| - 1;
      Merge(results[..n], feeds[..n]) + Contribution(results[n], feeds[n].name)
  }

  /**
   * The `forEach` loop: each fulfilled, non-null result is tagged with the name of the feed at the
   * same index and appended to `allItems`.
   */
  method MergeSettled(results: seq<Option<seq<FeedItem>>>, feeds: seq<FeedSource>) returns (allItems: seq<NewsItem>)
    requires |results| == |feeds|
    ensures allItems == Merge(results, feeds)
    ensures forall x :: x in allItems ==> FromFeed(x, results, feeds)
  {
    allItems := [];
    for index := 0 to |results|
      invariant allItems == Merge(results[..index], feeds[..index])
    {
      assert results[..index + 1][..index] == results[..index];
      assert feeds[..index + 1][..index] == feeds[..index];
      var result := results[index];
      if result.Some? {
        var sourceName := feeds[index].name;
        allItems := allItems + Tag(result.value, sourceName);
      }
    }
    assert results[..|results|] == results;
    assert feeds[..|feeds|] == feeds;
    MergeProvenance(results, feeds);
  }

  /** `x` was produced by a feed whose result was fulfilled, and carries that feed's configured name. */
  predicate FromFeed(x: NewsItem, results: seq<Option<seq<FeedItem>>>, feeds: seq<FeedSource>)
    requires |results| == |feeds|
  {
    exists j :: 0 <= j < |results| && results[j].Some? && x.source == feeds[j].name
      && Untagged(x) in results[j].value
  }

  /** Every merged item comes from a fulfilled feed and is tagged with that feed's name. */
  lemma {:induction false} MergeProvenance(results: seq<Option<seq<FeedItem>>>, feeds: seq<FeedSource>)
    requires |results| == |feeds|
    ensures forall x :: x in Merge(results, feeds) ==> FromFeed(x, results, feeds)
    decreases |results|
  {
    if results != [] {
      var n := |results| - 1;
      MergeProvenance(results[..n], feeds[..n]);
      forall x | x in Merge(results, feeds) ensures FromFeed(x, results, feeds) {
        if x in Merge(results[..n], feeds[..n]) {
          var j :| 0 <= j < n && results[..n][j].Some? && x.source == feeds[..n][j].name
            && Untagged(x) in results[..n][j].value;
          assert results[j] == results[..n][j] && feeds[j] == feeds[..n][j];
        } else {
          var tagged := Tag(results[n].value, feeds[n].name);
          var i :| 0 <= i < |tagged| && tagged[i] == x;
          assert Untagged(x) == results[n].value[i];
        }
      }
    }
  }

  /** Every item of every fulfilled feed is in the merge, tagged with that feed's name. */
  lemma {:induction false} MergeComplete(results: seq<Option<seq<FeedItem>>>, feeds: seq<FeedSource>)
    requires |results| == |feeds|
    ensures forall j, i :: 0 <= j < |results| && results[j].Some? && 0 <= i < |results[j].value| ==>
      WithSource(results[j].value[i], feeds[j].name) in Merge(results, feeds)
    decreases |results|
  {
    if results != [] {
      var n := |results| - 1;
      MergeComplete(results[..n], feeds[..n]);
      forall j, i | 0 <= j < |results| && results[j].Some? && 0 <= i < |results[j].value|
        ensures WithSource(results[j].value[i], feeds[j].name) in Merge(results, feeds)
      {
        if j < n {
          assert results[..n][j] == results[j] && feeds[..n][j] == feeds[j];
        } else {
          assert Tag(results[n].value, feeds[n].name)[i] == WithSource(results[j].value[i], feeds[j].name);
        }
      }
    }
  }

  /** The merge is empty exactly when every feed failed or delivered no items; failures raise nothing. */
  lemma {:induction false} MergeEmptyIff(results: seq<Option<seq<FeedItem>>>, feeds: seq<FeedSource>)
    requires |results| == |feeds|
    ensures Merge(results, feeds) == [] <==>
      forall j :: 0 <= j < |results| ==> results[j].None? || results[j].value == []
    decreases |results|
  {
    if results != [] {
      var n := |results| - 1;
      var prefix := Merge(results[..n], feeds[..n]);
      var last := Contribution(results[n], feeds[n].name);
      assert Merge(results, feeds) == prefix + last;
      assert last == [] <==> results[n].None? || results[n].value == [];
      MergeEmptyIff(results[..n], feeds[..n]);
      assert forall j :: 0 <= j < n ==> results[..n][j] == results[j];
      assert prefix + last == [] <==> prefix == [] && last == [];
    }
  }

  /** When every feed failed the merged collection is empty. */
  lemma MergeAllFailed(results: seq<Option<seq<FeedItem>>>, feeds: seq<FeedSource>)
    requires |results| == |feeds|
    requires forall j :: 0 <= j < |results| ==> results[j].None?
    ensures Merge(results, feeds) == []
  {
    MergeEmptyIff(results, feeds);
  }

  /**
   * Places `x` after every item of `sorted` that is at least as new, scanning from the back: the
   * step of a stable sort by `new Date(b.pubDate) - new Date(a.pubDate)` in which `x` came last.
   */
  function Insert(sorted: seq<NewsItem>, x: NewsItem): seq<NewsItem>
    decreases |sorted|
  {
    if sorted == [] then [x]
    else
      var n := |sorted| - 1;
      if sorted[n].pubDate >= x.pubDate then sorted + [x]
      else Insert(sorted[..n], x) + [sorted[n]]
  }

  /** `allItems.sort((a, b) => new Date(b.pubDate) - new Date(a.pubDate))`, a stable sort. */
  function SortNewestFirst(s: seq<NewsItem>): seq<NewsItem>
    decreases |s|
  {
    if s == [] then [] else Insert(SortNewestFirst(s[..|s| - 1]), s[|s| - 1])
  }

  /** The items of `s` published at time `t`, in their order in `s`. */
  function AtDate(s: seq<NewsItem>, t: int): seq<NewsItem>
    decreases |s|
  {
    if s == [] then []
    else AtDate(s[..|s| - 1], t) + (if s[|s| - 1].pubDate == t then [s[|s| - 1]] else [])
  }

  lemma {:induction false} InsertPermutes(sorted: seq<NewsItem>, x: NewsItem)
    ensures multiset(Insert(sorted, x)) == multiset(sorted) + multiset{x}
    decreases |sorted|
  {
    if sorted != [] {
      var n := |sorted| - 1;
      assert sorted == sorted[..n] + [sorted[n]];
      if sorted[n].pubDate < x.pubDate {
        InsertPermutes(sorted[..n], x);
      }
    }
  }

  /** The insertion step adds no item other than the one inserted. */
  lemma InsertMembers(sorted: seq<NewsItem>, x: NewsItem)
    ensures forall y :: y in Insert(sorted, x) ==> y in sorted || y == x
  {
    InsertPermutes(sorted, x);
    forall y | y in Insert(sorted, x) ensures y in sorted || y == x {
      assert y in multiset(Insert(sorted, x));
    }
  }

  /** Appending an item no newer than any item of a newest-first list keeps it newest first. */
  lemma AppendNewestFirst(a: seq<NewsItem>, y: NewsItem)
    requires NewestFirst(a)
    requires forall i :: 0 <= i < |a| ==> a[i].pubDate >= y.pubDate
    ensures NewestFirst(a + [y])
  {
    var r := a + [y];
    forall i, j | 0 <= i < j < |r| ensures r[i].pubDate >= r[j].pubDate {
      assert r[i] == a[i];
      if j < |a| {
        assert r[j] == a[j];
      }
    }
  }

  lemma {:induction false} InsertNewestFirst(sorted: seq<NewsItem>, x: NewsItem)
    requires NewestFirst(sorted)
    ensures NewestFirst(Insert(sorted, x))
    decreases |sorted|
  {
    if sorted != [] {
      var n := |sorted| - 1;
      var last := sorted[n];
      var prefix := sorted[..n];
      if last.pubDate >= x.pubDate {
        AppendNewestFirst(sorted, x);
      } else {
        assert NewestFirst(prefix);
        InsertNewestFirst(prefix, x);
        InsertMembers(prefix, x);
        var ins := Insert(prefix, x);
        forall i | 0 <= i < |ins| ensures ins[i].pubDate >= last.pubDate {
          assert ins[i] in ins;
          if ins[i] != x {
            var k :| 0 <= k < n && prefix[k] == ins[i];
            assert sorted[k] == prefix[k];
          }
        }
        AppendNewestFirst(ins, last);
      }
    }
  }

  /** Appending an item extends the items at its date and leaves every other date alone. */
  lemma AtDateAppend(s: seq<NewsItem>, y: NewsItem, t: int)
    ensures AtDate(s + [y], t) == AtDate(s, t) + (if y.pubDate == t then [y] else [])
  {
    assert (s + [y])[..|s|] == s;
  }

  /** Inserting `x` appends it to the items published at its date and leaves every other date alone. */
  lemma {:induction false} InsertAtDate(sorted: seq<NewsItem>, x: NewsItem, t: int)
    ensures AtDate(Insert(sorted, x), t) == AtDate(sorted, t) + (if x.pubDate == t then [x] else [])
    decreases |sorted|
  {
    if sorted == [] {
      AtDateAppend([], x, t);
      assert [] + [x] == [x];
    } else {
      var n := |sorted| - 1;
      var last := sorted[n];
      var prefix := sorted[..n];
      if last.pubDate >= x.pubDate {
        AtDateAppend(sorted, x, t);
      } else {
        var ins := Insert(prefix, x);
        assert Insert(sorted, x) == ins + [last];
        InsertAtDate(prefix, x, t);
        AtDateAppend(ins, last, t);
        assert sorted == prefix + [last];
        AtDateAppend(prefix, last, t);
        var xs := if x.pubDate == t then [x] else [];
        var ls := if last.pubDate == t then [last] else [];
        assert xs == [] || ls == [];
        assert xs + ls == ls + xs;
        calc {
          AtDate(Insert(sorted, x), t);
          AtDate(ins, t) + ls;
          (AtDate(prefix, t) + xs) + ls;
          AtDate(prefix, t) + (ls + xs);
          (AtDate(prefix, t) + ls) + xs;
          AtDate(sorted, t) + xs;
        }
      }
    }
  }

  /** The sort orders its output newest first. */
  lemma {:induction false} SortIsNewestFirst(s: seq<NewsItem>)
    ensures NewestFirst(SortNewestFirst(s))
    decreases |s|
  {
    if s != [] {
      SortIsNewestFirst(s[..|s| - 1]);
      InsertNewestFirst(SortNewestFirst(s[..|s| - 1]), s[|s| - 1]);
    }
  }

  /** The sort only reorders: its output is a permutation of its input. */
  lemma {:induction false} SortPermutes(s: seq<NewsItem>)
    ensures multiset(SortNewestFirst(s)) == multiset(s)
    decreases |s|
  {
    if s != [] {
      var n := |s| - 1;
      var prefix := s[..n];
      assert SortNewestFirst(s) == Insert(SortNewestFirst(prefix), s[n]);
      SortPermutes(prefix);
      InsertPermutes(SortNewestFirst(prefix), s[n]);
      assert s == prefix + [s[n]];
    }
  }

  /** The sort is stable: items with equal dates keep their relative input order. */
  lemma {:induction false} SortStable(s: seq<NewsItem>, t: int)
    ensures AtDate(SortNewestFirst(s), t) == AtDate(s, t)
    decreases |s|
  {
    if s != [] {
      var n := |s| - 1;
      SortStable(s[..n], t);
      InsertAtDate(SortNewestFirst(s[..n]), s[n], t);
    }
  }

  /** `state.newsItems` after a successful `loadNews`: merged, sorted newest first, deduplicated. */
  function LoadedNews(results: seq<Option<seq<FeedItem>>>, feeds: seq<FeedSource>): seq<NewsItem>
    requires |results| == |feeds|
  {
    Dedup(SortNewestFirst(Merge(results, feeds)))
  }

  /** The loaded news is newest first, free of duplicate keys, and every item has a fulfilled feed as its source. */
  lemma LoadedNewsProperties(results: seq<Option<seq<FeedItem>>>, feeds: seq<FeedSource>)
    requires |results| == |feeds|
    ensures NewestFirst(LoadedNews(results, feeds))
    ensures DistinctKeys(LoadedNews(results, feeds))
    ensures forall x :: x in LoadedNews(results, feeds) ==> FromFeed(x, results, feeds)
  {
    var merged := Merge(results, feeds);
    var sorted := SortNewestFirst(merged);
    SortIsNewestFirst(merged);
    DedupNewestFirst(sorted);
    DedupDistinct(sorted);
    MergeProvenance(results, feeds);
    SortPermutes(merged);
    DedupSubsequence(sorted);
    SubsequenceMembers(Dedup(sorted), sorted);
    forall x | x in LoadedNews(results, feeds) ensures FromFeed(x, results, feeds) {
      assert x in sorted;
      assert x in multiset(merged);
    }
  }

  /** With every feed failed, nothing is loaded. */
  lemma LoadedNewsAllFailed(results: seq<Option<seq<FeedItem>>>, feeds: seq<FeedSource>)
    requires |results| == |feeds|
    requires forall j :: 0 <= j < |results| ==> results[j].None?
    ensures LoadedNews(results, feeds) == []
  {
    MergeAllFailed(results, feeds);
  }

  /**
   * The merge/sort/deduplicate block of `loadNews`: the loop over settled results, the builtin
   * stable sort, then `deduplicateNews`.
   */
  method CollectNews(results: seq<Option<seq<FeedItem>>>, feeds: seq<FeedSource>) returns (items: seq<NewsItem>)
    requires |results| == |feeds|
    ensures items == LoadedNews(results, feeds)
    ensures NewestFirst(items) && DistinctKeys(items)
  {
    var allItems := MergeSettled(results, feeds);
    allItems := SortNewestFirst(allItems);
    items := DeduplicateNews(allItems);
    LoadedNewsProperties(results, feeds);
  }
}
