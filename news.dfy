/**
 * The news pipeline's data model and its static configuration (`CONFIG` in app.js).
 * Publication dates are integer timestamps in milliseconds; parsing the feed's date strings is
 * not part of this model.
 */
module News {
  import opened Seqs

  /** An item as one feed yields it, after normalisation and before the source tag is added. */
  datatype FeedItem = FeedItem(title: string, link: string, pubDate: int, description: string)

  /** An item of the merged news collection: a feed item tagged with its feed's display name. */
  datatype NewsItem = NewsItem(title: string, link: string, pubDate: int, description: string, source: string)

  /** One configured feed: the URL fetched and the name shown beside its items. */
  datatype FeedSource = FeedSource(url: string, name: string)

  /** The feeds `loadNews` fetches, in configuration order. */
  const RssFeeds: seq<FeedSource> := [
    FeedSource("https://www.cnbc.com/id/10001147/device/rss/rss.html", "CNBC"),
    FeedSource("https://www.cnbc.com/id/20910258/device/rss/rss.html", "CNBC Economy"),
    FeedSource("https://feeds.finance.yahoo.com/rss/2.0/headline?s=^GSPC&region=US&lang=en-US", "Yahoo Finance")
  ]

  /** Sector identifier to its lowercase keywords, matched as substrings. */
  const SectorKeywords: map<string, seq<string>> := map[
    "technology" := ["tech", "software", "apple", "microsoft", "google", "nvidia", "semiconductor", "ai", "chip", "cloud"],
    "healthcare" := ["health", "pharma", "biotech", "drug", "fda", "medical", "hospital", "vaccine"],
    "financials" := ["bank", "finance", "rate", "fed", "interest", "loan", "credit", "goldman", "jpmorgan", "morgan stanley"],
    "energy" := ["oil", "gas", "energy", "exxon", "chevron", "crude", "opec", "petroleum", "renewable"],
    "consumer" := ["retail", "consumer", "amazon", "walmart", "target", "shop", "spend", "sales"],
    "industrials" := ["industrial", "manufacturing", "boeing", "caterpillar", "construction", "aerospace"],
    "utilities" := ["utility", "utilities", "electric", "power", "grid", "water"],
    "materials" := ["material", "mining", "steel", "aluminum", "chemical", "gold", "copper"],
    "realestate" := ["real estate", "property", "housing", "mortgage", "reit", "home"],
    "communication" := ["media", "telecom", "netflix", "disney", "meta", "facebook", "communication"]
  ]

  /** Items are ordered newest first: publication dates never increase along the sequence. */
  predicate NewestFirst(s: seq<NewsItem>) {
    forall i, j :: 0 <= i < j < |s| ==> s[i].pubDate >= s[j].pubDate
  }

  /** Deleting items from a newest-first sequence leaves it newest first. */
  lemma {:induction false} SubsequenceNewestFirst(a: seq<NewsItem>, b: seq<NewsItem>)
    requires IsSubsequence(a, b) && NewestFirst(b)
    ensures NewestFirst(a)
    decreases |b|
  {
    if a != [] {
      if a[0] == b[0] && IsSubsequence(a[1..], b[1..]) {
        SubsequenceNewestFirst(a[1..], b[1..]);
        SubsequenceMembers(a[1..], b[1..]);
        forall j | 0 < j < |a| ensures a[0].pubDate >= a[j].pubDate {
          assert a[j] in a[1..];
          var k :| 0 <= k < |b[1..]| && b[1..][k] == a[j];
          assert b[k + 1] == a[j];
        }
        forall i, j | 0 <= i < j < |a| ensures a[i].pubDate >= a[j].pubDate {
          if i > 0 { assert a[1..][i - 1] == a[i] && a[1..][j - 1] == a[j]; }
        }
      } else {
        SubsequenceNewestFirst(a, b[1..]);
      }
    }
  }
}
