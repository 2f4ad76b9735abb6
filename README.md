# Market Pulse news pipeline and dashboard state, in Dafny

Market Pulse is a one-page financial dashboard (`app.js`). Most of the page embeds third-party
market widgets. Its own logic is the news pipeline and some preference bookkeeping, and that is
what this project models:

- **Headline cleaning.** `cleanTitle` strips tags, decodes five HTML entities in a fixed order,
  then trims.
- **Fetching one feed.** `fetchFeed` turns one feed response into normalised items, or `null` on
  any failure.
- **Merging.** `loadNews` tags each fulfilled feed's items with the feed's name, concatenates them
  in configuration order, sorts them newest first and deduplicates them.
- **Deduplication.** `deduplicateNews` keeps the first item for each title key.
- **Filtering.** `filterNewsItems` applies the sector-keyword filter and the search-query filter.
- **Rendering.** `renderNews` decides what the News tab and the Overview tab show.
  `formatTimeAgo` gives the relative time on each card.
- **Dashboard state.** The global `state` and its handlers: theme and compact-mode toggles,
  sector selection, search, the watchlist (at most five symbols) and saved views.

Modules, one per file:

| module | file | what it holds |
|---|---|---|
| `Wrappers` | `wrappers.dfy` | the `Option` type |
| `Seqs` | `seqs.dfy` | `Array.prototype.filter` and order-preserving subsequences |
| `Text` | `text.dfy` | the JavaScript string operations the code uses: `toLowerCase`/`toUpperCase` (ASCII), `trim`, `includes`, a global literal `replace`, `split`/`join` on one character, decimal printing |
| `News` | `news.dfy` | item types, `CONFIG.rssFeeds`, `CONFIG.sectorKeywords`, the newest-first order |
| `FeedClient` | `feed_client.dfy` | `cleanTitle` and `fetchFeed` |
| `Deduplication` | `dedup.dfy` | the title key and `deduplicateNews` |
| `Aggregator` | `aggregator.dfy` | the merge, sort and deduplicate block of `loadNews` |
| `FilterEngine` | `filter_engine.dfy` | `filterNewsItems` |
| `NewsView` | `news_view.dfy` | `formatTimeAgo` and `renderNews` |
| `Dashboard` | `dashboard.dfy` | the `state` object as class `AppState`, and its handlers |

Modelling choices:

- **Dates.** Publication dates are integer millisecond timestamps. The sort comparator
  `new Date(b.pubDate) - new Date(a.pubDate)` compares them directly. `formatTimeAgo` receives
  the current time as a parameter.
- **Feed results.** Each feed's settled outcome is an `Option<seq<FeedItem>>`, one per
  configured feed.
  - `None` means the feed's promise was rejected, or was fulfilled with `null`.
  - An empty list is still "fulfilled with a value", because `[]` is truthy in JavaScript.
- **Sorting.** `Array.prototype.sort` is stable (ES2019), so it is modelled by a stable
  insertion-sort function, `Aggregator.SortNewestFirst`. That function is characterised by three
  lemmas: the output is newest first, it is a permutation of the input, and items with equal
  dates keep their input order.
- **Deduplication key.** The key does not fold "Today's" into "today".
  - The key drops every character outside `[a-z0-9\s]`, so "Today's" becomes "todays", a
    different word from "today".
  - So "Fed Raises Interest Rates Again Today" and "FED RAISES INTEREST RATES AGAIN: Today's
    Report" get different keys, and both headlines are kept.
  - The key also splits on the space character only. A tab or newline inside a title therefore
    glues two words together.
- **Handler methods.** Each method of `Dashboard.AppState` states the whole new state. It does so
  by comparing `Snapshot()`, the record of all modelled fields, with the old snapshot in which
  only the updated field has changed.

## Model

| member | source | states |
|---|---|---|
| `Text.Lower` | app.js:664 | lowercasing keeps the length and maps every character through ASCII lowercase |
| `Text.Upper` | app.js:904 | uppercasing keeps the length and maps every character through ASCII uppercase |
| `Text.Trim` | app.js:657 | the result neither starts nor ends with JavaScript whitespace; it is a contiguous slice of the input, and everything cut off on either side is whitespace |
| `Text.TrimIdempotent` | app.js:657 | trimming twice equals trimming once |
| `Text.TrimNoop` | app.js:657 | a string without leading or trailing whitespace is its own trim |
| `Text.ContainsIff` | app.js:739 | `includes` holds exactly when some window of the text equals the searched string |
| `Text.ReplaceAll` | app.js:652-656 | a global replace with a replacement no longer than the pattern never lengthens the text |
| `Text.ReplaceAllAbsent` | app.js:652-656 | text without the pattern's first character is left unchanged |
| `Text.ReplaceAllSkip` | app.js:652-656 | a stretch in which no match starts is copied verbatim, and replacing resumes after it (matches do not overlap) |
| `Text.ReplaceAllAtFront` | app.js:652-656 | a text that starts with the pattern gets the replacement in front of the replaced rest |
| `Text.Split` | app.js:666 | `split(' ')` yields at least one piece; no piece contains the separator; every piece's characters come from the input |
| `Text.JoinSplit` | app.js:666-669 | joining the pieces of a split with the same separator gives back the text |
| `Text.SplitJoin` | app.js:666-669 | splitting the join of separator-free words gives back the words |
| `Text.NatToString` | app.js:718 | the printed count is a non-empty string of decimal digits, with no leading zero unless the count is 0, which prints as "0" |
| `Text.ParseNatToString` | app.js:718 | reading a printed count back gives the count |
| `Seqs.FilterMembers` | app.js:662 | `filter` keeps an element exactly when it is in the input and satisfies the predicate |
| `Seqs.FilterIsSubsequence` | app.js:662 | `filter` keeps input order |
| `Seqs.FilterFilter` | app.js:737-748 | two filters in a row keep exactly what satisfies both predicates |
| `Seqs.FilterAppend` | app.js:662 | filtering a concatenation is the concatenation of the filtered parts |
| `Seqs.FilterAll` | app.js:732-751 | a filter every element passes returns the input unchanged |
| `Seqs.FilterNone` | app.js:737-740 | a filter no element passes returns nothing |
| `Seqs.FilterCongruent` | app.js:737-748 | two predicates that agree on every element filter the same way |
| `News.SubsequenceNewestFirst` | app.js:611-614 | deleting items from a newest-first list leaves it newest first |
| `FeedClient.StripTags` | app.js:651 | tag removal never lengthens the title and only keeps characters of the title; with `StripTagsCons` and `StripTagsDropsTag` every step of the scan is fixed: a character that does not start a tag is kept, and a tag is dropped whole |
| `FeedClient.StripTagsNoTags` | app.js:651 | after tag removal, no position of the text starts a `<[^>]+>` match |
| `FeedClient.StripTagsNoop` | app.js:651 | text containing no tag is unchanged by tag removal |
| `FeedClient.StripTagsNoAngle` | app.js:651 | text with no `<` is unchanged by tag removal |
| `FeedClient.StripTagsIdempotent` | app.js:651 | removing tags twice equals removing them once |
| `FeedClient.StripTagsKeepsPlain` | app.js:651 | text before the first `<` is kept verbatim, and tag removal continues on the rest |
| `FeedClient.StripTagsDropsTag` | app.js:651 | a leading tag (`<`, a non-empty body without `>`, then `>`) is removed whole, and removal continues after it |
| `FeedClient.StripTagsAroundTag` | app.js:651 | the text around a tag survives: `a<b>c` becomes `ac` |
| `FeedClient.StripTagsCons` | app.js:651 | a character that does not start a `<[^>]+>` match, including a `<` directly followed by `>`, is kept, and removal continues after it |
| `FeedClient.StripTagsEmptyBracket` | app.js:651 | `<>` is not a tag and is kept, while a later tag is removed: `<><b>c` becomes `<>c` |
| `FeedClient.DecodeEntities` | app.js:652-656 | entity decoding never lengthens the text |
| `FeedClient.DecodeEntitiesNoop` | app.js:652-656 | text without `&` is unchanged by entity decoding |
| `FeedClient.DecodeEscapedTag` | app.js:652-656 | decoding `&lt;x&gt;` (x free of `&`) yields the literal `<x>` |
| `FeedClient.DecodeLt` | app.js:655 | the `&lt;` replacement turns a leading `&lt;` into `<` and leaves the `&gt;` after an `&`-free text alone |
| `FeedClient.DecodeGt` | app.js:656 | the `&gt;` replacement turns the trailing `&gt;` into `>` |
| `FeedClient.OtherEntityKeepsEscapedTag` | app.js:652-656 | `&amp;`, `&quot;` and `&#39;` do not occur in `&lt;x&gt;` when x has no `&`, so their replacements leave it alone |
| `FeedClient.DecodeAmpThenLt` | app.js:652-655 | `&amp;lt;` decodes to `<` because the `&amp;` replacement runs before the `&lt;` one |
| `FeedClient.CleanTitle` | app.js:648-658 | the cleaned title has no leading or trailing whitespace and is no longer than the raw title |
| `FeedClient.CleanTitlePlain` | app.js:648-658 | a trimmed title without `<` or `&` comes through unchanged |
| `FeedClient.CleanTitleStable` | app.js:648-658 | cleaning a cleaned title that has no `<` or `&` left changes nothing |
| `FeedClient.CleanTitleKeepsEscapedTags` | app.js:651-656 | because tags are stripped before entities are decoded, `&lt;x&gt;` becomes the literal text `<x>` |
| `FeedClient.CleanTitleDecodesAmpFirst` | app.js:652-655 | because `&amp;` is decoded first, `&amp;lt;` ends up as `<` |
| `FeedClient.NormaliseItem` | app.js:636-641 | an item keeps its link and date, gets the cleaned title, and its description defaults to the empty string |
| `FeedClient.FetchFeed` | app.js:627-646 | a feed yields items exactly when the response is ok, its status is "ok" and every item has a title; the items are then the normalised raw items, one for one and in order; otherwise the result is null |
| `Deduplication.KeyWordsShape` | app.js:664-668 | the key has at most five words; each is longer than three characters, contains no space and is made only of `[a-z0-9]` and other whitespace |
| `Deduplication.TitleKeyChars` | app.js:664-669 | every character of the key is one `[^a-z0-9\s]` does not remove |
| `Deduplication.TitleKeyWords` | app.js:666-669 | the key splits back into its words, and it is empty exactly when no word is longer than three characters |
| `Deduplication.KeysOfIff` | app.js:671-674 | a key is in the `seen` set exactly when some processed item has that key |
| `Deduplication.KeysOfHas` | app.js:671-674 | once an item is processed, its key is in `seen` |
| `Deduplication.KeysOfOnly` | app.js:671-674 | a key no processed item has is not in `seen` |
| `Deduplication.DedupStep` | app.js:662-675 | one step of the pass adds the item's key to `seen`, and keeps the item exactly when its key was not already there |
| `Deduplication.FirstWithKey` | app.js:662-676 | the first index with a given key has that key, and no earlier item does |
| `Deduplication.DeduplicateNews` | app.js:660-677 | the single pass with a `seen` set equals the specification `Dedup`; its output is an order-preserving subsequence of the input with pairwise distinct keys |
| `Deduplication.DedupSubsequence` | app.js:662-676 | the kept items are an order-preserving subsequence of the input |
| `Deduplication.DedupKeys` | app.js:661-676 | every key present in the input is present in the output |
| `Deduplication.DedupDistinct` | app.js:671-675 | no two kept items share a key |
| `Deduplication.DedupFirstWins` | app.js:671-675 | each kept item is the first input item with its key |
| `Deduplication.DedupDistinctNoop` | app.js:662-676 | input whose keys are already distinct passes through unchanged |
| `Deduplication.DedupAppendNew` | app.js:671-675 | an item with a key not seen before is kept after the survivors of the earlier items |
| `Deduplication.ShortTitlesCollapse` | app.js:664-675 | items whose titles have no word longer than three characters all get the empty key, so only the first of them survives |
| `Deduplication.DedupIdempotent` | app.js:660-677 | deduplicating the output again changes nothing |
| `Deduplication.DedupNewestFirst` | app.js:611-614 | deduplication keeps a newest-first order |
| `Aggregator.MergeSettled` | app.js:596-608 | the `forEach` loop builds exactly `Merge(results, feeds)`, and every item comes from a fulfilled feed and carries that feed's name |
| `Aggregator.MergeProvenance` | app.js:598-607 | every merged item is an item of a fulfilled, non-null feed, tagged with the name of the feed at the same index |
| `Aggregator.MergeComplete` | app.js:598-607 | every item of every fulfilled feed is in the merge, tagged with its feed's name |
| `Aggregator.MergeEmptyIff` | app.js:596-608 | the merge is empty exactly when every feed failed or returned no items |
| `Aggregator.MergeAllFailed` | app.js:596-608 | when all feeds fail, the merge is empty |
| `Aggregator.InsertPermutes` | app.js:611 | the insertion step adds exactly the inserted item |
| `Aggregator.InsertMembers` | app.js:611 | the insertion step brings in no item except the inserted one |
| `Aggregator.AtDateAppend` | app.js:611 | the items with a given date of a list with one more item at the end are those of the list, then that item if it has the date |
| `Aggregator.InsertNewestFirst` | app.js:611 | inserting into a newest-first list keeps it newest first |
| `Aggregator.InsertAtDate` | app.js:611 | the inserted item goes after every item with the same date |
| `Aggregator.SortIsNewestFirst` | app.js:611 | the sorted items have non-increasing dates |
| `Aggregator.SortPermutes` | app.js:611 | the sort is a permutation of its input |
| `Aggregator.SortStable` | app.js:611 | for every date, the items with that date keep their input (configuration and feed) order |
| `Aggregator.LoadedNewsProperties` | app.js:596-614 | the loaded news is newest first and has distinct keys; every item has a fulfilled feed as its source |
| `Aggregator.LoadedNewsAllFailed` | app.js:596-614 | when all feeds fail, nothing is loaded and no error is raised |
| `Aggregator.CollectNews` | app.js:596-614 | merge, stable sort, then deduplication yield `LoadedNews`, which is newest first with distinct keys |
| `FilterEngine.FilterNewsItems` | app.js:731-752 | the two conditional reassignments of `items` yield exactly the visible items |
| `FilterEngine.VisibleNewsMembers` | app.js:735-751 | an item is shown exactly when it is in the collection, passes the sector filter (no sector active, or some keyword is a substring of the lowercased title, a space and the description) and passes the query filter (empty query, or the lowercased title contains the lowercased query) |
| `FilterEngine.VisibleNewsSubsequence` | app.js:731-752 | the shown items keep collection order |
| `FilterEngine.VisibleNewsUnfiltered` | app.js:732-751 | with no sector and an empty query, every item is shown in order |
| `FilterEngine.VisibleNewsUnknownSector` | app.js:736-740 | an unconfigured sector shows nothing |
| `FilterEngine.VisibleNewsComposes` | app.js:734-749 | the sector filter and the query filter can be applied one after the other, in either order, with the same result |
| `FilterEngine.MatchesQueryIgnoresCase` | app.js:745-747 | the query filter gives the same answer for the query, its uppercase and its lowercase |
| `FilterEngine.LowerUpper` | app.js:745-747 | lowercasing an uppercased string equals lowercasing the original |
| `NewsView.FormatTimeAgo` | app.js:754-768 | the buckets are "just now" below one minute (including future dates), minutes below one hour, hours below one day, days below one week, and the absolute date otherwise; each count is the floor of the elapsed time in its unit and stays within its bucket's range |
| `NewsView.TimeAgoTextRoundTrip` | app.js:761-767 | under a minute the label is "Just now"; the "{m}m ago", "{h}h ago" and "{d}d ago" labels end in their suffix, and their number reads back as the elapsed whole minutes, hours or days; from a week on the label is the date text |
| `NewsView.CountTextRoundTrip` | app.js:718 | a count printed in front of a suffix reads back as the count |
| `NewsView.RenderNews` | app.js:679-729 | both count labels read "{n} articles" for the n filtered items; both surfaces show the no-match message exactly when n is 0; otherwise the feed has one card per item in order, and the overview has the first min(30, n) of those cards |
| `NewsView.CountLabelRoundTrip` | app.js:718 | the count label ends in " articles", and its number reads back as the item count |
| `Dashboard.ToggledThemeInvolution` | app.js:99-100 | the toggle always yields "light" or "dark"; toggling twice restores either of those themes; any other stored value becomes "light" |
| `Dashboard.SelectSectorToggles` | app.js:777-783 | selecting makes a sector active exactly when it was not already active; selecting it a second time clears it |
| `Dashboard.WatchlistAddCases` | app.js:903-908 | adding appends the normalised symbol exactly when it is non-empty, not yet listed and the list has fewer than five entries; otherwise the list is unchanged |
| `Dashboard.WatchlistAddKeepsOk` | app.js:903-908 | adding keeps the watchlist at five symbols at most, with no empty symbol and no duplicates |
| `Dashboard.AppendNoDuplicates` | app.js:906-908 | appending a symbol not yet listed keeps the list free of duplicates |
| `Dashboard.WatchlistAddRemove` | app.js:903-914 | removing a symbol just added restores the list |
| `Dashboard.WatchlistRemoveMembers` | app.js:913-914 | removing drops exactly the entries equal to the symbol and keeps the others in order |
| `Dashboard.WatchlistRemoveKeepsOk` | app.js:913-914 | removing keeps the watchlist well formed |
| `Dashboard.SubsequenceNoDuplicates` | app.js:914 | an order-preserving subsequence of a duplicate-free list is duplicate-free |
| `Dashboard.SpliceStart` | app.js:1036 | the splice start position lies within the list |
| `Dashboard.SplicedOutLength` | app.js:1035-1036 | `splice(index, 1)` removes the view at `index` for 0 <= index < n, the view at n + index for -n <= index < 0, the first view for index < -n, and nothing for index >= n or an empty list; so one view goes exactly when the list is non-empty and the index is below its length, and the rest keep their order |
| `Dashboard.DeleteIsSubsequence` | app.js:1036 | deleting one view leaves the others in their order |
| `Dashboard.SaveThenRemove` | app.js:995-1005 | removing the view just saved, by its index or by -1, restores the earlier list |
| `Dashboard.AllFeedsFailedPage` | app.js:682-700 | when every feed fails, the news is empty and both surfaces show the no-match message with "0 articles", the same page an over-restrictive filter gives |
| `Dashboard.DefaultWatchlistOk` | app.js:39 | the default watchlist of five symbols is well formed |
| `Dashboard.AppState.constructor` | app.js:33-46 | the initial state falls back to "light", "overview", the default watchlist and no saved views; compact mode is on only for the stored text "true"; no sector is active and the query and news are empty |
| `Dashboard.AppState.ToggleTheme` | app.js:99-100 | only the theme changes, to its toggle, which is "light" or "dark" |
| `Dashboard.AppState.ToggleCompactMode` | app.js:112-113 | only compact mode changes, to its negation |
| `Dashboard.AppState.SelectSector` | app.js:777-783 | only the active sector changes: it is cleared when it equals the selected sector, and set to the selected sector otherwise |
| `Dashboard.AppState.ClearSectorFilter` | app.js:797-798 | only the active sector changes, to none |
| `Dashboard.AppState.HandleSearch` | app.js:810-811 | only the search query changes, to the text typed |
| `Dashboard.AppState.AddToWatchlist` | app.js:903-908 | only the watchlist changes, as `WatchlistAfterAdd` says; a well-formed watchlist stays well formed |
| `Dashboard.AppState.RemoveFromWatchlist` | app.js:913-914 | only the watchlist changes, as `WatchlistAfterRemove` says; a well-formed watchlist stays well formed |
| `Dashboard.AppState.SaveCurrentView` | app.js:995-1005 | only the saved views change: a view capturing the current sector, compact mode, theme and tab is appended |
| `Dashboard.AppState.RemoveView` | app.js:1035-1036 | only the saved views change, by `splice(index, 1)` |
| `Dashboard.AppState.LoadNews` | app.js:596-614 | only the news collection changes, to the merged, sorted and deduplicated items, which are newest first with distinct keys |
| `Dashboard.AppState.RenderNews` | app.js:679-729 | the page shown is the rendering of the items visible under the current sector and query |

## Left out

- **Network and concurrency.** `fetch`, the rss2json proxy URL, `response.json()` and
  `Promise.allSettled` (app.js:593-594, 629-632) are not modelled. Their outcome enters as values:
  a `FeedResponse` per feed, or directly as the settled results.
- **Errors inside the pipeline.** The `catch` block of `loadNews` (app.js:617-624) is not
  modelled. With decoded feeds it cannot be reached, because `fetchFeed` already catches the
  failures it models, such as a missing title.
- **Date handling.**
  - `Date` parsing of `pubDate` is not modelled; dates are integer timestamps.
  - Invalid dates, whose comparator result is `NaN` and whose sort order is
    implementation-defined, are not modelled.
  - `toLocaleDateString` is not modelled: `formatTimeAgo`'s absolute date is the opaque
    `AbsoluteDate` outcome (app.js:767).
- **No separate total-failure state.** When every feed fails, `loadNews` raises no error: the
  merge is empty and `renderNews` shows "No news items match your current filters.", the message
  an over-restrictive filter also gives (`Dashboard.AllFeedsFailedPage`). The "Unable to load
  news" branch (app.js:617-624) is not reached in that case, so the model has no distinct
  total-failure state either.
- **Titles with only short words.** Every title with no word longer than three characters gets
  the empty key, so only the first such item survives deduplication
  (`Deduplication.ShortTitlesCollapse`). The model keeps this behaviour of the code.
- **Rendering.** HTML templating, `escapeHtml` (app.js:770-774) and the DOM writes of
  `renderNews` are not modelled. `renderNews`' `elements.*` existence checks are treated as true.
- **Other DOM side effects.**
  - The DOM effects of `selectSector`, `clearSectorFilter`, `toggleTheme` and
    `toggleCompactMode` are not modelled.
  - `selectSector` and `clearSectorFilter` use `elements.activeSectorName` and
    `elements.sectorFilterChip`, which `elements` does not define. Those calls would throw
    after the state update and before `renderNews` (app.js:790-794, 804-806). Only the state
    updates are modelled.
- **Persistence.** `localStorage` writes are not modelled. The stored values read at start-up
  are constructor parameters, already parsed from JSON. A malformed stored JSON value, which
  would throw at start-up, is not modelled.
- **Unicode.** `toLowerCase`/`toUpperCase` are ASCII-only in the model. Full Unicode case
  mapping, including characters whose case mapping changes the string's length, is not
  modelled.
- **Sector lookup edge case.** `CONFIG.sectorKeywords[sector]` for inherited property names such
  as "constructor" is not modelled; any sector outside the ten configured ones is treated as
  unknown.
- **Sorting is modelled on values.** `Aggregator.SortNewestFirst` models the built-in in-place
  `allItems.sort(...)` as a function on sequences. It is the engine's sort, not code of this
  repository.
- **`removeView`'s index.** `parseInt` of the button's index is taken to give an integer. A
  `NaN` index, which `splice` treats as 0, is not modelled.
- **Rest of the dashboard.** `loadView`, notes, the watchlist remove mode, the TradingView
  widgets and the heatmap are not modelled. They only drive the DOM and third-party scripts.
- `Dashboard.AppState.AddToWatchlist`: the watchlist bound is stated only for a watchlist that
  starts well formed. A stored watchlist can hold more than five symbols or duplicates, and the
  handler does not repair it.
