/**
 * The dashboard's global `state` object and the handlers that update it: theme and compact
 * mode toggles, sector selection, search, the watchlist, saved views and the news collection.
 * DOM updates, `localStorage` writes and widget reloads that follow each update are not modelled.
 */
module Dashboard {
  import opened Wrappers
  import opened Seqs
  import opened Text
  import opened News
  import opened Deduplication
  import opened Aggregator
  import opened FilterEngine
  import opened NewsView

  /** `WATCHLIST_MAX`. */
  const WatchlistMax: nat := 5

  /** The watchlist used when nothing is stored. */
  const DefaultWatchlist: seq<string> := ["AAPL", "MSFT", "GOOGL", "AMZN", "NVDA"]

  /** A saved view: the settings captured by `saveCurrentView`. */
  datatype SavedView = SavedView(
    name: string, date: string, sector: Option<string>, compact: bool, theme: string, tab: string)

  /** The modelled fields of `state`, as one value. */
  datatype DashboardState = DashboardState(
    theme: string, compactMode: bool, activeTab: string, activeSector: Option<string>,
    searchQuery: string, watchlist: seq<string>, savedViews: seq<SavedView>, newsItems: seq<NewsItem>)

  /** `state.theme === 'light' ? 'dark' : 'light'`. */
  function ToggledTheme(theme: string): string {
    if theme == "light" then "dark" else "light"
  }

  /** The active sector after `selectSector(sector)`: selecting the active sector clears it. */
  function SectorAfterSelect(current: Option<string>, sector: string): Option<string> {
    if current == Some(sector) then None else Some(sector)
  }

  /** `symbol.toUpperCase().trim()`. */
  function NormaliseSymbol(symbol: string): string {
    Trim(Upper(symbol))
  }

  /**
   * The watchlist after `addToWatchlist(symbol)`: the normalised symbol is appended unless it is
   * empty, already listed, or the list is full.
   */
  function WatchlistAfterAdd(watchlist: seq<string>, symbol: string): seq<string> {
    var s := NormaliseSymbol(symbol);
    if s == "" || s in watchlist then watchlist
    else if |watchlist| >= WatchlistMax then watchlist
    else watchlist + [s]
  }

  /** The watchlist after `removeFromWatchlist(symbol)`: every entry equal to `symbol` is dropped. */
  function WatchlistAfterRemove(watchlist: seq<string>, symbol: string): seq<string> {
    Filter(watchlist, (s: string) => s != symbol)
  }

  /** A watchlist the handlers keep: at most five symbols, none empty, none twice. */
  predicate WatchlistOk(watchlist: seq<string>) {
    |watchlist| <= WatchlistMax && NoDuplicates(watchlist) && "" !in watchlist
  }

  /** `array.splice(index, 1)`'s start position: a negative index counts from the end, clamped to the bounds. */
  function SpliceStart(length: nat, index: int): (start: nat)
    ensures start <= length
  {
    if index < 0 then (if length + index < 0 then 0 else length + index)
    else if index > length then length
    else index
  }

  /** `views.splice(index, 1)` on the saved views: the element at the start position, if any, is removed. */
  function SplicedOut(views: seq<SavedView>, index: int): seq<SavedView> {
    var start := SpliceStart(|views|, index);
    if start < |views| then views[..start] + views[start + 1..] else views
  }

  /** Toggling twice restores either theme the toggle produces; any other stored value becomes "light". */
  lemma ToggledThemeInvolution(theme: string)
    ensures ToggledTheme(theme) == "light" || ToggledTheme(theme) == "dark"
    ensures theme == "light" || theme == "dark" ==> ToggledTheme(ToggledTheme(theme)) == theme
    ensures theme != "light" && theme != "dark" ==> ToggledTheme(theme) == "light"
  {
  }

  /** Selecting a sector makes it active unless it already was; selecting it again from there clears it. */
  lemma SelectSectorToggles(current: Option<string>, sector: string)
    ensures SectorAfterSelect(current, sector) == Some(sector) <==> current != Some(sector)
    ensures current != Some(sector) ==> SectorAfterSelect(SectorAfterSelect(current, sector), sector) == None
  {
  }

  /** Adding leaves the list alone or appends the normalised symbol, exactly as the guards say. */
  lemma WatchlistAddCases(watchlist: seq<string>, symbol: string)
    ensures var s := NormaliseSymbol(symbol);
      WatchlistAfterAdd(watchlist, symbol) == watchlist + [s]
      <==> s != "" && s !in watchlist && |watchlist| < WatchlistMax
    ensures var r := WatchlistAfterAdd(watchlist, symbol);
      r == watchlist || r == watchlist + [NormaliseSymbol(symbol)]
  {
    var s := NormaliseSymbol(symbol);
    if WatchlistAfterAdd(watchlist, symbol) == watchlist + [s] {
      assert |watchlist + [s]| == |watchlist| + 1;
    }
  }

  /** Adding keeps the watchlist well formed: never more than five symbols, none empty, none twice. */
  lemma WatchlistAddKeepsOk(watchlist: seq<string>, symbol: string)
    requires WatchlistOk(watchlist)
    ensures WatchlistOk(WatchlistAfterAdd(watchlist, symbol))
  {
    var s := NormaliseSymbol(symbol);
    if WatchlistAfterAdd(watchlist, symbol) != watchlist {
      AppendNoDuplicates(watchlist, s);
    }
  }

  /** Appending a symbol not yet listed keeps the list free of duplicates. */
  lemma AppendNoDuplicates(watchlist: seq<string>, s: string)
    requires NoDuplicates(watchlist) && s !in watchlist
    ensures NoDuplicates(watchlist + [s])
  {
    var r := watchlist + [s];
    forall i, j | 0 <= i < j < |r| ensures r[i] != r[j] {
      assert r[i] == watchlist[i];
      if j < |watchlist| {
        assert r[j] == watchlist[j];
      }
    }
  }

  /** A symbol that was added can be removed again, which restores the list. */
  lemma WatchlistAddRemove(watchlist: seq<string>, symbol: string)
    requires NormaliseSymbol(symbol) !in watchlist
    ensures WatchlistAfterRemove(WatchlistAfterAdd(watchlist, symbol), NormaliseSymbol(symbol)) == watchlist
  {
    var s := NormaliseSymbol(symbol);
    var keep := (x: string) => x != s;
    FilterAll(watchlist, keep);
    if WatchlistAfterAdd(watchlist, symbol) != watchlist {
      FilterAppend(watchlist, [s], keep);
      assert Filter([s], keep) == [];
    }
  }

  /** Removing drops exactly the entries equal to the symbol and keeps the others in order. */
  lemma WatchlistRemoveMembers(watchlist: seq<string>, symbol: string)
    ensures forall x :: x in WatchlistAfterRemove(watchlist, symbol) <==> x in watchlist && x != symbol
    ensures IsSubsequence(WatchlistAfterRemove(watchlist, symbol), watchlist)
  {
    FilterMembers(watchlist, (s: string) => s != symbol);
    FilterIsSubsequence(watchlist, (s: string) => s != symbol);
  }

  /** Removing keeps the watchlist well formed. */
  lemma WatchlistRemoveKeepsOk(watchlist: seq<string>, symbol: string)
    requires WatchlistOk(watchlist)
    ensures WatchlistOk(WatchlistAfterRemove(watchlist, symbol))
  {
    var r := WatchlistAfterRemove(watchlist, symbol);
    WatchlistRemoveMembers(watchlist, symbol);
    SubsequenceNoDuplicates(r, watchlist);
  }

  lemma {:induction false} SubsequenceNoDuplicates(a: seq<string>, b: seq<string>)
    requires IsSubsequence(a, b) && NoDuplicates(b)
    ensures NoDuplicates(a)
    decreases |b|
  {
    if a != [] {
      assert NoDuplicates(b[1..]) by {
        forall i, j | 0 <= i < j < |b[1..]| ensures b[1..][i] != b[1..][j] {
          assert b[1..][i] == b[i + 1] && b[1..][j] == b[j + 1];
        }
      }
      if a[0] == b[0] && IsSubsequence(a[1..], b[1..]) {
        SubsequenceNoDuplicates(a[1..], b[1..]);
        SubsequenceMembers(a[1..], b[1..]);
        forall i, j | 0 <= i < j < |a| ensures a[i] != a[j] {
          assert a[j] == a[1..][j - 1];
          if i == 0 {
            assert a[j] in a[1..];
            var k :| 0 <= k < |b[1..]| && b[1..][k] == a[j];
            assert b[k + 1] == a[j];
          } else {
            assert a[i] == a[1..][i - 1];
          }
        }
      } else {
        SubsequenceNoDuplicates(a, b[1..]);
      }
    }
  }

  /**
   * `removeView` removes exactly one view when the list is not empty and the index is below its
   * length, and none otherwise: the view at `index`, the view `-index` places from the end for
   * a negative index, and the first view for an index far below zero. The rest keep their order.
   */
  lemma SplicedOutLength(views: seq<SavedView>, index: int)
    ensures |SplicedOut(views, index)| ==
      (if views != [] && index < |views| then |views| - 1 else |views|)
    ensures 0 <= index < |views| ==> SplicedOut(views, index) == views[..index] + views[index + 1..]
    ensures -|views| <= index < 0 ==>
      SplicedOut(views, index) == views[..|views| + index] + views[|views| + index + 1..]
    ensures index < -|views| && views != [] ==> SplicedOut(views, index) == views[1..]
    ensures index >= |views| ==> SplicedOut(views, index) == views
    ensures IsSubsequence(SplicedOut(views, index), views)
  {
    var start := SpliceStart(|views|, index);
    if start < |views| {
      DeleteIsSubsequence(views, start);
    } else {
      SubsequenceReflexive(views);
    }
  }

  lemma {:induction false} DeleteIsSubsequence(s: seq<SavedView>, k: nat)
    requires k < |s|
    ensures IsSubsequence(s[..k] + s[k + 1..], s)
    decreases k
  {
    if k == 0 {
      assert s[..0] + s[1..] == s[1..];
      SubsequenceReflexive(s[1..]);
    } else {
      DeleteIsSubsequence(s[1..], k - 1);
      var d := s[..k] + s[k + 1..];
      assert d[0] == s[0];
      assert d[1..] == s[1..][..k - 1] + s[1..][k..];
    }
  }

  /** Removing the view just saved, by its index, gives back the earlier list. */
  lemma SaveThenRemove(views: seq<SavedView>, v: SavedView)
    ensures SplicedOut(views + [v], |views|) == views
    ensures SplicedOut(views + [v], -1) == views
  {
    assert (views + [v])[..|views|] == views;
  }

  /**
   * When every feed fails, `loadNews` raises no error, and both news surfaces show the same
   * no-match message as an over-restrictive filter, with "0 articles".
   */
  lemma AllFeedsFailedPage(results: seq<Option<seq<FeedItem>>>, sector: Option<string>, query: string, now: int)
    requires |results| == |RssFeeds|
    requires forall j :: 0 <= j < |results| ==> results[j].None?
    ensures var page := NewsView.RenderNews(VisibleNews(LoadedNews(results, RssFeeds), sector, query), now);
      page.feed == NoMatchesMessage && page.overview == NoMatchesMessage
      && page.feedCount == "0 articles" && page.overviewCount == "0 articles"
  {
    LoadedNewsAllFailed(results, RssFeeds);
    assert NatToString(0) == "0";
  }

  /** The default watchlist is well formed. */
  lemma DefaultWatchlistOk()
    ensures WatchlistOk(DefaultWatchlist)
  {
  }

  /** The global `state`: the fields the handlers read and write. */
  class AppState {
    var theme: string
    var compactMode: bool
    var activeTab: string
    var activeSector: Option<string>
    var searchQuery: string
    var watchlist: seq<string>
    var savedViews: seq<SavedView>
    var newsItems: seq<NewsItem>

    function Snapshot(): DashboardState
      reads this
    {
      DashboardState(theme, compactMode, activeTab, activeSector, searchQuery, watchlist, savedViews, newsItems)
    }

    /**
     * The initial `state`, from the stored values (`None` when a key is absent): the theme and tab
     * fall back to "light" and "overview" when absent or empty, compact mode is on only for the
     * stored text "true", the watchlist and saved views are the stored lists or their defaults.
     */
    constructor(storedTheme: Option<string>, storedCompact: Option<string>, storedTab: Option<string>,
                storedWatchlist: Option<seq<string>>, storedViews: Option<seq<SavedView>>)
      ensures theme == (if storedTheme.Some? && storedTheme.value != "" then storedTheme.value else "light")
      ensures compactMode == (storedCompact == Some("true"))
      ensures activeTab == (if storedTab.Some? && storedTab.value != "" then storedTab.value else "overview")
      ensures activeSector == None && searchQuery == "" && newsItems == []
      ensures watchlist == storedWatchlist.GetOr(DefaultWatchlist)
      ensures savedViews == storedViews.GetOr([])
    {
      theme := if storedTheme.Some? && storedTheme.value != "" then storedTheme.value else "light";
      compactMode := storedCompact == Some("true");
      activeTab := if storedTab.Some? && storedTab.value != "" then storedTab.value else "overview";
      activeSector := None;
      searchQuery := "";
      watchlist := storedWatchlist.GetOr(DefaultWatchlist);
      savedViews := storedViews.GetOr([]);
      newsItems := [];
    }

    /** `toggleTheme`. */
    method ToggleTheme()
      modifies this
      ensures Snapshot() == old(Snapshot()).(theme := ToggledTheme(old(theme)))
      ensures theme == "light" || theme == "dark"
    {
      theme := if theme == "light" then "dark" else "light";
    }

    /** `toggleCompactMode`. */
    method ToggleCompactMode()
      modifies this
      ensures Snapshot() == old(Snapshot()).(compactMode := !old(compactMode))
    {
      compactMode := !compactMode;
    }

    /** The state change of `selectSector`: the active sector is set, or cleared when it was already active. */
    method SelectSector(sector: string)
      modifies this
      ensures Snapshot() == old(Snapshot()).(activeSector := SectorAfterSelect(old(activeSector), sector))
    {
      if activeSector == Some(sector) {
        ClearSectorFilter();
        return;
      }
      activeSector := Some(sector);
    }

    /** The state change of `clearSectorFilter`. */
    method ClearSectorFilter()
      modifies this
      ensures Snapshot() == old(Snapshot()).(activeSector := None)
    {
      activeSector := None;
    }

    /** `handleSearch`: the query is stored as typed. */
    method HandleSearch(query: string)
      modifies this
      ensures Snapshot() == old(Snapshot()).(searchQuery := query)
    {
      searchQuery := query;
    }

    /** `addToWatchlist`. */
    method AddToWatchlist(symbol: string)
      modifies this
      ensures Snapshot() == old(Snapshot()).(watchlist := WatchlistAfterAdd(old(watchlist), symbol))
      ensures WatchlistOk(old(watchlist)) ==> WatchlistOk(watchlist)
    {
      if WatchlistOk(watchlist) {
        WatchlistAddKeepsOk(watchlist, symbol);
      }
      var s := Trim(Upper(symbol));
      if s == "" || s in watchlist {
        return;
      }
      if |watchlist| >= WatchlistMax {
        return;
      }
      watchlist := watchlist + [s];
    }

    /** `removeFromWatchlist`. */
    method RemoveFromWatchlist(symbol: string)
      modifies this
      ensures Snapshot() == old(Snapshot()).(watchlist := WatchlistAfterRemove(old(watchlist), symbol))
      ensures WatchlistOk(old(watchlist)) ==> WatchlistOk(watchlist)
    {
      if WatchlistOk(watchlist) {
        WatchlistRemoveKeepsOk(watchlist, symbol);
      }
      watchlist := Filter(watchlist, (s: string) => s != symbol);
    }

    /** `saveCurrentView`; `date` is the date picker's value. */
    method SaveCurrentView(name: string, date: string)
      modifies this
      ensures Snapshot() == old(Snapshot()).(savedViews := old(savedViews)
        + [SavedView(name, date, old(activeSector), old(compactMode), old(theme), old(activeTab))])
    {
      var view := SavedView(name, date, activeSector, compactMode, theme, activeTab);
      savedViews := savedViews + [view];
    }

    /** `removeView`: `splice(index, 1)` on the saved views. */
    method RemoveView(index: int)
      modifies this
      ensures Snapshot() == old(Snapshot()).(savedViews := SplicedOut(old(savedViews), index))
    {
      var start := SpliceStart(|savedViews|, index);
      if start < |savedViews| {
        savedViews := savedViews[..start] + savedViews[start + 1..];
      }
    }

    /**
     * The state change of a `loadNews` run whose feeds settled as `results`, one per configured
     * feed: the merged, sorted, deduplicated items become `state.newsItems`.
     */
    method LoadNews(results: seq<Option<seq<FeedItem>>>)
      requires |results| == |RssFeeds|
      modifies this
      ensures Snapshot() == old(Snapshot()).(newsItems := LoadedNews(results, RssFeeds))
      ensures NewestFirst(newsItems) && DistinctKeys(newsItems)
    {
      var items := CollectNews(results, RssFeeds);
      newsItems := items;
    }

    /** `renderNews`: what both news surfaces show for the current filters, at time `now`. */
    method RenderNews(now: int) returns (page: NewsPage)
      ensures page == NewsView.RenderNews(VisibleNews(newsItems, activeSector, searchQuery), now)
    {
      var filteredItems := FilterNewsItems(newsItems, activeSector, searchQuery);
      page := NewsView.RenderNews(filteredItems, now);
    }
  }
}
