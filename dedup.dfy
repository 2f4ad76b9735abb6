/**
 * `deduplicateNews`: near-duplicate headlines are collapsed by a key derived from the title
 * alone, in one pass that threads a `seen` set; the first item with a key wins.
 */
module Deduplication {
  import opened Text
  import opened Seqs
  import opened News

  /** The characters `/[^a-z0-9\s]/g` does not remove. */
  predicate IsKeyChar(c: char) {
    ('a' <= c <= 'z') || ('0' <= c <= '9') || IsJsWhitespace(c)
  }

  /** `.replace(/[^a-z0-9\s]/g, '')`. */
  function KeepKeyChars(s: string): string {
    Filter(s, IsKeyChar)
  }

  /** `.filter(w => w.length > 3)` on the words. */
  function LongWords(ws: seq<string>): seq<string> {
    Filter(ws, (w: string) => |w| > 3)
  }

  /**
   * The words of the key: lowercase, keep `[a-z0-9]` and whitespace, split on single spaces,
   * keep the words longer than three characters, take the first five.
   */
  function KeyWords(title: string): seq<string> {
    var long := LongWords(Split(KeepKeyChars(Lower(title)), ' '));
    long[..if |long| < 5 then |long| else 5]
  }

  /** The normalised key: the key words joined with single spaces. */
  function TitleKey(title: string): string {
    Join(KeyWords(title), ' ')
  }

  /**
   * The key has at most five words, each longer than three characters, free of spaces and made
   * only of `[a-z0-9]` and non-space whitespace.
   */
  lemma KeyWordsShape(title: string)
    ensures |KeyWords(title)| <= 5
    ensures forall w :: w in KeyWords(title) ==>
      |w| > 3 && ' ' !in w && forall c :: c in w ==> IsKeyChar(c)
  {
    var cleaned := KeepKeyChars(Lower(title));
    FilterMembers(Lower(title), IsKeyChar);
    var words := Split(cleaned, ' ');
    FilterMembers(words, (w: string) => |w| > 3);
    var long := LongWords(words);
    var ws := KeyWords(title);
    forall w | w in ws ensures |w| > 3 && ' ' !in w && forall c :: c in w ==> IsKeyChar(c) {
      assert w in long;
      assert w in words;
    }
  }

  /** Every character of the key is one `/[^a-z0-9\s]/g` keeps. */
  lemma TitleKeyChars(title: string)
    ensures forall c :: c in TitleKey(title) ==> IsKeyChar(c)
  {
    KeyWordsShape(title);
    JoinKeyChars(KeyWords(title));
  }

  lemma {:induction false} JoinKeyChars(ws: seq<string>)
    requires forall w :: w in ws ==> forall c :: c in w ==> IsKeyChar(c)
    ensures forall c :: c in Join(ws, ' ') ==> IsKeyChar(c)
    decreases |ws|
  {
    if |ws| > 1 {
      assert forall w :: w in ws[1..] ==> w in ws;
      JoinKeyChars(ws[1..]);
      assert ws[0] in ws;
    } else if |ws| == 1 {
      assert ws[0] in ws;
    }
  }

  /** The key splits back into its words; it is empty exactly when no word is long enough. */
  lemma TitleKeyWords(title: string)
    ensures KeyWords(title) != [] ==> Split(TitleKey(title), ' ') == KeyWords(title)
    ensures KeyWords(title) == [] <==> TitleKey(title) == []
  {
    var ws := KeyWords(title);
    KeyWordsShape(title);
    if ws != [] {
      SplitJoin(ws, ' ');
      assert ws[0] in ws;
    }
  }

  /** The key `deduplicateNews` computes for an item: it looks at the title only. */
  function ItemKey(item: NewsItem): string {
    TitleKey(item.title)
  }

  /** The keys of all the items. */
  function KeysOf(items: seq<NewsItem>): set<string>
    decreases |items|
  {
    if items == [] then {} else KeysOf(items[..|items| - 1]) + {ItemKey(items[|items| - 1])}
  }

  /** The key of every item is in `KeysOf`. */
  lemma {:induction false} KeysOfHas(items: seq<NewsItem>, j: nat)
    requires j < |items|
    ensures ItemKey(items[j]) in KeysOf(items)
    decreases |items|
  {
    var n := |items| - 1;
    if j < n {
      KeysOfHas(items[..n], j);
      assert items[..n][j] == items[j];
    }
  }

  /** A key outside `KeysOf` belongs to no item. */
  lemma KeysOfAbsent(items: seq<NewsItem>, k: string)
    requires k !in KeysOf(items)
    ensures forall i :: 0 <= i < |items| ==> ItemKey(items[i]) != k
  {
    forall i | 0 <= i < |items| ensures ItemKey(items[i]) != k {
      KeysOfHas(items, i);
    }
  }

  /** A key no item has is not in `KeysOf`. */
  lemma {:induction false} KeysOfOnly(items: seq<NewsItem>, k: string)
    requires forall i :: 0 <= i < |items| ==> ItemKey(items[i]) != k
    ensures k !in KeysOf(items)
    decreases |items|
  {
    if items != [] {
      var n := |items| - 1;
      assert forall i :: 0 <= i < n ==> items[..n][i] == items[i];
      KeysOfOnly(items[..n], k);
    }
  }

  /** `KeysOf` holds exactly the keys of the items. */
  lemma KeysOfIff(items: seq<NewsItem>, k: string)
    ensures k in KeysOf(items) <==> exists j :: 0 <= j < |items| && ItemKey(items[j]) == k
  {
    if k in KeysOf(items) {
      var j := FirstWithKey(items, k);
    } else {
      KeysOfAbsent(items, k);
    }
  }

  /** No two items share a key. */
  predicate DistinctKeys(items: seq<NewsItem>) {
    forall i, j :: 0 <= i < j < |items| ==> ItemKey(items[i]) != ItemKey(items[j])
  }

  /** What the `filter` pass keeps: each item whose key no earlier item has. */
  function Dedup(items: seq<NewsItem>): seq<NewsItem>
    decreases |items|
  {
    if items == [] then []
    else
      var n := |items| - 1;
      Dedup(items[..n]) + (if ItemKey(items[n]) in KeysOf(items[..n]) then [] else [items[n]])
  }

  /** Index of the first item whose key is `k`. */
  function FirstWithKey(items: seq<NewsItem>, k: string): (j: nat)
    requires k in KeysOf(items)
    ensures j < |items| && ItemKey(items[j]) == k
    ensures forall i :: 0 <= i < j ==> ItemKey(items[i]) != k
    decreases |items|
  {
    var n := |items| - 1;
    if k in KeysOf(items[..n]) then
      var j := FirstWithKey(items[..n], k);
      assert forall i :: 0 <= i <= j ==> items[i] == items[..n][i];
      j
    else
      KeysOfAbsent(items[..n], k);
      assert forall i :: 0 <= i < n ==> items[i] == items[..n][i];
      n
  }

  /**
   * `deduplicateNews`: a single pass over the items with a `seen` set of keys; an item is kept
   * when its key was not seen before, and its key is then recorded.
   */
  method DeduplicateNews(items: seq<NewsItem>) returns (kept: seq<NewsItem>)
    ensures kept == Dedup(items)
    ensures DistinctKeys(kept) && IsSubsequence(kept, items)
  {
    var seen: set<string> := {};
    kept := [];
    for i := 0 to |items|
      invariant seen == KeysOf(items[..i])
      invariant kept == Dedup(items[..i])
    {
      var normalized := TitleKey(items[i].title);
      DedupStep(items, i);
      if normalized !in seen {
        kept := kept + [items[i]];
        seen := seen + {normalized};
      }
    }
    assert items[..|items|] == items;
    DedupDistinct(items);
    DedupSubsequence(items);
  }

  /** One more item: its key joins the key set, and the item is kept when its key is new. */
  lemma DedupStep(items: seq<NewsItem>, i: nat)
    requires i < |items|
    ensures KeysOf(items[..i + 1]) == KeysOf(items[..i]) + {ItemKey(items[i])}
    ensures Dedup(items[..i + 1]) ==
      Dedup(items[..i]) + (if ItemKey(items[i]) in KeysOf(items[..i]) then [] else [items[i]])
  {
    assert items[..i + 1][..i] == items[..i];
    assert items[..i + 1][i] == items[i];
  }

  /** The survivors appear in the input in the same order. */
  lemma {:induction false} DedupSubsequence(items: seq<NewsItem>)
    ensures IsSubsequence(Dedup(items), items)
    decreases |items|
  {
    if items != [] {
      var n := |items| - 1;
      DedupSubsequence(items[..n]);
      var d := Dedup(items[..n]);
      SubsequenceExtend(d, items[..n], items[n]);
      assert items[..n] + [items[n]] == items;
      if ItemKey(items[n]) in KeysOf(items[..n]) {
        assert Dedup(items) == d + [] == d;
      } else {
        assert Dedup(items) == d + [items[n]];
      }
    }
  }

  /** Every key of the input survives: deduplication drops items, never keys. */
  lemma {:induction false} DedupKeys(items: seq<NewsItem>)
    ensures KeysOf(Dedup(items)) == KeysOf(items)
    decreases |items|
  {
    if items != [] {
      var n := |items| - 1;
      DedupKeys(items[..n]);
      var d := Dedup(items[..n]);
      if ItemKey(items[n]) !in KeysOf(items[..n]) {
        assert Dedup(items) == d + [items[n]];
        assert (d + [items[n]])[..|d|] == d;
      } else {
        assert Dedup(items) == d + [] == d;
      }
    }
  }

  /** No two survivors share a key. */
  lemma {:induction false} DedupDistinct(items: seq<NewsItem>)
    ensures DistinctKeys(Dedup(items))
    decreases |items|
  {
    if items != [] {
      var n := |items| - 1;
      DedupDistinct(items[..n]);
      DedupKeys(items[..n]);
      var d := Dedup(items[..n]);
      if ItemKey(items[n]) !in KeysOf(items[..n]) {
        forall i | 0 <= i < |d| ensures ItemKey(d[i]) != ItemKey(items[n]) {
          KeysOfHas(d, i);
        }
      }
    }
  }

  /** Of the items that share a key, the survivor is the first one in input order. */
  lemma {:induction false} DedupFirstWins(items: seq<NewsItem>)
    ensures forall k :: 0 <= k < |Dedup(items)| ==>
      ItemKey(Dedup(items)[k]) in KeysOf(items)
      && Dedup(items)[k] == items[FirstWithKey(items, ItemKey(Dedup(items)[k]))]
    decreases |items|
  {
    if items != [] {
      var n := |items| - 1;
      var prefix := items[..n];
      DedupFirstWins(prefix);
      var d := Dedup(prefix);
      var r := Dedup(items);
      forall k | 0 <= k < |r|
        ensures ItemKey(r[k]) in KeysOf(items) && r[k] == items[FirstWithKey(items, ItemKey(r[k]))]
      {
        if k < |d| {
          assert r[k] == d[k];
          var key := ItemKey(d[k]);
          assert key in KeysOf(prefix);
          assert FirstWithKey(items, key) == FirstWithKey(prefix, key);
          assert items[FirstWithKey(prefix, key)] == prefix[FirstWithKey(prefix, key)];
        } else {
          assert r[k] == items[n];
        }
      }
    }
  }

  /** Items whose keys are already distinct pass through unchanged. */
  lemma {:induction false} DedupDistinctNoop(items: seq<NewsItem>)
    requires DistinctKeys(items)
    ensures Dedup(items) == items
    decreases |items|
  {
    if items != [] {
      var n := |items| - 1;
      var prefix := items[..n];
      PrefixDistinct(items, n);
      DedupDistinctNoop(prefix);
      LastKeyNew(items);
      DedupAppendNew(prefix, items[n]);
      assert prefix + [items[n]] == items;
    }
  }

  /** An item whose key is new is appended to the survivors of the items before it. */
  lemma DedupAppendNew(prefix: seq<NewsItem>, x: NewsItem)
    requires ItemKey(x) !in KeysOf(prefix)
    ensures Dedup(prefix + [x]) == Dedup(prefix) + [x]
  {
    var s := prefix + [x];
    assert s[..|s| - 1] == prefix;
  }

  /** In items with distinct keys, the last item's key is not among the earlier keys. */
  lemma LastKeyNew(items: seq<NewsItem>)
    requires items != [] && DistinctKeys(items)
    ensures ItemKey(items[|items| - 1]) !in KeysOf(items[..|items| - 1])
  {
    var n := |items| - 1;
    var prefix := items[..n];
    forall i | 0 <= i < n ensures ItemKey(prefix[i]) != ItemKey(items[n]) {
      assert prefix[i] == items[i];
    }
    KeysOfOnly(prefix, ItemKey(items[n]));
  }

  /** A prefix of items with distinct keys has distinct keys. */
  lemma PrefixDistinct(items: seq<NewsItem>, n: nat)
    requires n <= |items| && DistinctKeys(items)
    ensures DistinctKeys(items[..n])
  {
    var prefix := items[..n];
    forall i, j | 0 <= i < j < n ensures ItemKey(prefix[i]) != ItemKey(prefix[j]) {
      assert prefix[i] == items[i] && prefix[j] == items[j];
    }
  }

  /**
   * Titles with no word longer than three characters all get the empty key, so of several such
   * items only the first survives.
   */
  lemma ShortTitlesCollapse(items: seq<NewsItem>)
    requires items != []
    requires forall i :: 0 <= i < |items| ==> KeyWords(items[i].title) == []
    ensures Dedup(items) == [items[0]]
  {
    forall i | 0 <= i < |items| ensures ItemKey(items[i]) == "" {
      TitleKeyWords(items[i].title);
    }
    var d := Dedup(items);
    DedupKeys(items);
    DedupDistinct(items);
    DedupFirstWins(items);
    KeysOfHas(items, 0);
    assert d != [];
    forall k | 0 <= k < |d| ensures ItemKey(d[k]) == "" {
      assert d[k] == items[FirstWithKey(items, ItemKey(d[k]))];
    }
    assert |d| == 1;
    assert d[0] == items[FirstWithKey(items, "")];
  }

  /** Deduplicating the output again changes nothing. */
  lemma DedupIdempotent(items: seq<NewsItem>)
    ensures Dedup(Dedup(items)) == Dedup(items)
  {
    DedupDistinct(items);
    DedupDistinctNoop(Dedup(items));
  }

  /** Deduplication keeps a newest-first order. */
  lemma DedupNewestFirst(items: seq<NewsItem>)
    requires NewestFirst(items)
    ensures NewestFirst(Dedup(items))
  {
    DedupSubsequence(items);
    SubsequenceNewestFirst(Dedup(items), items);
  }
}
