/**
 * `filterNewsItems`: the news collection narrowed by the active sector's keywords and by the
 * search query. Both filters keep the collection's order; an item must pass both.
 */
module FilterEngine {
  import opened Wrappers
  import opened Seqs
  import opened Text
  import opened News

  /** `CONFIG.sectorKeywords[sector] || []`: an unconfigured sector has no keywords. */
  function KeywordsFor(sector: string): seq<string> {
    if sector in SectorKeywords then SectorKeywords[sector] else []
  }

  /** `if (state.activeSector)`: the sector filter runs when a sector is set and is not empty. */
  predicate SectorActive(sector: Option<string>) {
    sector.Some? && sector.value != ""
  }

  /** `(item.title + ' ' + item.description).toLowerCase()`. */
  function SectorText(item: NewsItem): string {
    Lower(item.title + " " + item.description)
  }

  /** `keywords.some(keyword => text.includes(keyword))` for the sector's keywords. */
  predicate MatchesSector(item: NewsItem, sector: string) {
    exists k :: k in KeywordsFor(sector) && Contains(SectorText(item), k)
  }

  /** `item.title.toLowerCase().includes(query)` with `query` the lowercased search text. */
  predicate MatchesQuery(item: NewsItem, query: string) {
    Contains(Lower(item.title), Lower(query))
  }

  /** An item is shown when it passes the sector filter (if one runs) and the query filter (if one runs). */
  predicate Visible(item: NewsItem, sector: Option<string>, query: string) {
    (!SectorActive(sector) || MatchesSector(item, sector.value))
    && (query == "" || MatchesQuery(item, query))
  }

  /** The items shown under the given sector and query, in collection order. */
  function VisibleNews(items: seq<NewsItem>, sector: Option<string>, query: string): seq<NewsItem> {
    Filter(items, (x: NewsItem) => Visible(x, sector, query))
  }

  /**
   * `filterNewsItems`: copies the collection, then narrows the local `items` by the sector filter
   * and then by the query filter, each only when its state is truthy.
   */
  method FilterNewsItems(newsItems: seq<NewsItem>, activeSector: Option<string>, searchQuery: string)
    returns (items: seq<NewsItem>)
    ensures items == VisibleNews(newsItems, activeSector, searchQuery)
  {
    items := newsItems;
    var bySector := (x: NewsItem) => !SectorActive(activeSector) || MatchesSector(x, activeSector.value);
    var byQuery := (x: NewsItem) => searchQuery == "" || MatchesQuery(x, searchQuery);
    if SectorActive(activeSector) {
      var keywords := KeywordsFor(activeSector.value);
      items := Filter(items, (item: NewsItem) =>
        exists keyword :: keyword in keywords && Contains(SectorText(item), keyword));
      FilterCongruent(newsItems, (item: NewsItem) =>
        exists keyword :: keyword in keywords && Contains(SectorText(item), keyword), bySector);
    } else {
      FilterAll(newsItems, bySector);
    }
    assert items == Filter(newsItems, bySector);
    var sectorItems := items;
    if searchQuery != "" {
      var query := Lower(searchQuery);
      items := Filter(items, (item: NewsItem) => Contains(Lower(item.title), query));
      FilterCongruent(sectorItems, (item: NewsItem) => Contains(Lower(item.title), query), byQuery);
    } else {
      FilterAll(sectorItems, byQuery);
    }
    FilterFilter(newsItems, bySector, byQuery, (x: NewsItem) => Visible(x, activeSector, searchQuery));
  }

  /** An item is shown exactly when it is in the collection and passes both filters. */
  lemma VisibleNewsMembers(items: seq<NewsItem>, sector: Option<string>, query: string)
    ensures forall x :: x in VisibleNews(items, sector, query) <==>
      x in items
      && (!SectorActive(sector) || exists k :: k in KeywordsFor(sector.value) && Contains(SectorText(x), k))
      && (query == "" || Contains(Lower(x.title), Lower(query)))
  {
    FilterMembers(items, (x: NewsItem) => Visible(x, sector, query));
  }

  /** The shown items keep the collection's order. */
  lemma VisibleNewsSubsequence(items: seq<NewsItem>, sector: Option<string>, query: string)
    ensures IsSubsequence(VisibleNews(items, sector, query), items)
  {
    FilterIsSubsequence(items, (x: NewsItem) => Visible(x, sector, query));
  }

  /** With no sector selected and an empty query, every item is shown in order. */
  lemma VisibleNewsUnfiltered(items: seq<NewsItem>, sector: Option<string>)
    requires !SectorActive(sector)
    ensures VisibleNews(items, sector, "") == items
  {
    FilterAll(items, (x: NewsItem) => Visible(x, sector, ""));
  }

  /** A sector the configuration does not name has no keywords, so nothing is shown. */
  lemma VisibleNewsUnknownSector(items: seq<NewsItem>, sector: string, query: string)
    requires sector != "" && sector !in SectorKeywords
    ensures VisibleNews(items, Some(sector), query) == []
  {
    FilterNone(items, (x: NewsItem) => Visible(x, Some(sector), query));
  }

  /** The sector filter and the query filter can be applied one after the other, in either order. */
  lemma VisibleNewsComposes(items: seq<NewsItem>, sector: Option<string>, query: string)
    ensures VisibleNews(VisibleNews(items, sector, ""), None, query) == VisibleNews(items, sector, query)
    ensures VisibleNews(VisibleNews(items, None, query), sector, "") == VisibleNews(items, sector, query)
  {
    FilterFilter(items, (x: NewsItem) => Visible(x, sector, ""), (x: NewsItem) => Visible(x, None, query),
      (x: NewsItem) => Visible(x, sector, query));
    FilterFilter(items, (x: NewsItem) => Visible(x, None, query), (x: NewsItem) => Visible(x, sector, ""),
      (x: NewsItem) => Visible(x, sector, query));
  }

  /** The query filter ignores letter case on both sides. */
  lemma MatchesQueryIgnoresCase(item: NewsItem, query: string)
    ensures MatchesQuery(item, query) == MatchesQuery(item, Upper(query))
    ensures MatchesQuery(item, query) == MatchesQuery(item, Lower(query))
  {
    LowerUpper(query);
    LowerLower(query);
  }

  lemma LowerUpper(s: string)
    ensures Lower(Upper(s)) == Lower(s)
  {
    assert forall i :: 0 <= i < |s| ==> LowerChar(UpperChar(s[i])) == LowerChar(s[i]);
  }

  lemma LowerLower(s: string)
    ensures Lower(Lower(s)) == Lower(s)
  {
  }
}
