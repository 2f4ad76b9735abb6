/**
 * What `renderNews` puts on the page, without the HTML: the News tab's full feed, the
 * Overview tab's shortened feed, their article counts, and the relative time of each card
 * as `formatTimeAgo` computes it.
 */
module NewsView {
  import opened Text
  import opened News

  const MinuteMs: int := 60000
  const HourMs: int := 60 * MinuteMs
  const DayMs: int := 24 * HourMs
  const WeekMs: int := 7 * DayMs

  /** How many cards the Overview tab shows: `filteredItems.slice(0, 30)`. */
  const OverviewLimit: nat := 30

  /**
   * The outcome of `formatTimeAgo`. `AbsoluteDate` stands for the
   * `toLocaleDateString('en-US', { month: 'short', day: 'numeric' })` text of `pubDate`, which is
   * not modelled.
   */
  datatype TimeAgo =
    | JustNow
    | MinutesAgo(minutes: nat)
    | HoursAgo(hours: nat)
    | DaysAgo(days: nat)
    | AbsoluteDate(pubDate: int)

  /**
   * `formatTimeAgo` with the current time `now` given: whole minutes, hours and days elapsed,
   * each the floor of the previous one divided again, checked from the smallest bucket up.
   */
  function FormatTimeAgo(pubDate: int, now: int): (r: TimeAgo)
    ensures r == JustNow <==> now - pubDate < MinuteMs
    ensures r.MinutesAgo? <==> MinuteMs <= now - pubDate < HourMs
    ensures r.HoursAgo? <==> HourMs <= now - pubDate < DayMs
    ensures r.DaysAgo? <==> DayMs <= now - pubDate < WeekMs
    ensures r.AbsoluteDate? <==> WeekMs <= now - pubDate
    ensures r.MinutesAgo? ==> 1 <= r.minutes < 60 && r.minutes == (now - pubDate) / MinuteMs
    ensures r.HoursAgo? ==> 1 <= r.hours < 24 && r.hours == (now - pubDate) / HourMs
    ensures r.DaysAgo? ==> 1 <= r.days < 7 && r.days == (now - pubDate) / DayMs
    ensures r.AbsoluteDate? ==> r.pubDate == pubDate
  {
    var diffMs := now - pubDate;
    var diffMins := diffMs / 60000;
    var diffHours := diffMins / 60;
    var diffDays := diffHours / 24;
    if diffMins < 1 then JustNow
    else if diffMins < 60 then MinutesAgo(diffMins)
    else if diffHours < 24 then HoursAgo(diffHours)
    else if diffDays < 7 then DaysAgo(diffDays)
    else AbsoluteDate(pubDate)
  }

  /** The text shown for a relative time; `absolute` is the locale date text for `AbsoluteDate`. */
  function TimeAgoText(t: TimeAgo, absolute: string): string {
    match t
    case JustNow => "Just now"
    case MinutesAgo(m) => NatToString(m) + "m ago"
    case HoursAgo(h) => NatToString(h) + "h ago"
    case DaysAgo(d) => NatToString(d) + "d ago"
    case AbsoluteDate(_) => absolute
  }

  /**
   * Each relative label ends in its unit suffix, and the number in front of it reads back as
   * the elapsed whole minutes, hours or days; under a minute the label is "Just now".
   */
  lemma TimeAgoTextRoundTrip(pubDate: int, now: int, absolute: string)
    ensures var t := FormatTimeAgo(pubDate, now);
      var text := TimeAgoText(t, absolute);
      (t.JustNow? ==> text == "Just now")
      && (t.MinutesAgo? ==>
          (|text| > 5 && text[|text| - 5..] == "m ago"
           && ParseNat(text[..|text| - 5]) == (now - pubDate) / MinuteMs))
      && (t.HoursAgo? ==>
          (|text| > 5 && text[|text| - 5..] == "h ago"
           && ParseNat(text[..|text| - 5]) == (now - pubDate) / HourMs))
      && (t.DaysAgo? ==>
          (|text| > 5 && text[|text| - 5..] == "d ago"
           && ParseNat(text[..|text| - 5]) == (now - pubDate) / DayMs))
      && (t.AbsoluteDate? ==> text == absolute)
  {
    var t := FormatTimeAgo(pubDate, now);
    match t
    case MinutesAgo(m) => CountTextRoundTrip(m, "m ago");
    case HoursAgo(h) => CountTextRoundTrip(h, "h ago");
    case DaysAgo(d) => CountTextRoundTrip(d, "d ago");
    case _ =>
  }

  /** A count printed in front of a suffix reads back as the count. */
  lemma CountTextRoundTrip(n: nat, suffix: string)
    ensures var text := NatToString(n) + suffix;
      |text| > |suffix| && text[|text| - |suffix|..] == suffix
      && ParseNat(text[..|text| - |suffix|]) == n
  {
    var text := NatToString(n) + suffix;
    assert text[..|text| - |suffix|] == NatToString(n);
    assert text[|text| - |suffix|..] == suffix;
    ParseNatToString(n);
  }

  /** One news card: the link, headline, source and relative time of an item. */
  datatype Card = Card(link: string, title: string, source: string, time: TimeAgo)

  /** A news surface shows either the no-match message or a list of cards. */
  datatype Surface = NoMatchesMessage | Cards(cards: seq<Card>)

  /** Both surfaces and their count labels. */
  datatype NewsPage = NewsPage(feed: Surface, feedCount: string, overview: Surface, overviewCount: string)

  function CardFor(item: NewsItem, now: int): Card {
    Card(item.link, item.title, item.source, FormatTimeAgo(item.pubDate, now))
  }

  /** `newsHTML(items)`: one card per item, in order. */
  function CardsFor(items: seq<NewsItem>, now: int): seq<Card> {
    seq(|items|, i requires 0 <= i < |items| => CardFor(items[i], now))
  }

  /** `${n} articles`. */
  function CountLabel(n: nat): string {
    NatToString(n) + " articles"
  }

  /**
   * `renderNews` on the filtered items: with none, both surfaces show the no-match message and
   * "0 articles"; otherwise the full feed shows every item, the overview the first 30, and both
   * counts give the number of filtered items.
   */
  function RenderNews(filtered: seq<NewsItem>, now: int): (page: NewsPage)
    ensures page.feedCount == page.overviewCount == CountLabel(|filtered|)
    ensures filtered == [] <==> page.feed == NoMatchesMessage
    ensures filtered == [] <==> page.overview == NoMatchesMessage
    ensures page.feed.Cards? ==> |page.feed.cards| == |filtered|
    ensures page.feed.Cards? ==>
      (forall i :: 0 <= i < |filtered| ==> page.feed.cards[i] == CardFor(filtered[i], now))
    ensures page.overview.Cards? && page.feed.Cards? ==>
      (|page.overview.cards| == (if |filtered| < OverviewLimit then |filtered| else OverviewLimit)
       && page.overview.cards == page.feed.cards[..|page.overview.cards|])
  {
    if |filtered| == 0 then
      assert NatToString(0) == "0";
      NewsPage(NoMatchesMessage, "0 articles", NoMatchesMessage, "0 articles")
    else
      var overviewItems := filtered[..if |filtered| < 30 then |filtered| else 30];
      NewsPage(Cards(CardsFor(filtered, now)), CountLabel(|filtered|),
               Cards(CardsFor(overviewItems, now)), CountLabel(|filtered|))
  }

  /** The count label names the number of filtered items, and reading it back gives that number. */
  lemma CountLabelRoundTrip(n: nat)
    ensures var shown := CountLabel(n);
      |shown| > 9 && shown[|shown| - 9..] == " articles" && ParseNat(shown[..|shown| - 9]) == n
  {
    CountTextRoundTrip(n, " articles");
  }
}
