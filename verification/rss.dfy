/** The feed adapter of scripts/tech-watch-bot/src/rss.py: every entry of the
    parsed Hacker News feed becomes one article record with fixed defaults.
    The feed library's parse is a parameter (its outcome), not modelled. */
module Rss {
  import opened Outcomes

  /** One parsed feed entry; a field the entry lacks is `None`. */
  datatype FeedEntry = FeedEntry(
    id: Option<string>,
    title: Option<string>,
    link: Option<string>,
    comments: Option<string>,
    published: Option<string>)

  /** What the feed parser hands back: the `bozo` flag and the entries. */
  datatype ParsedFeed = ParsedFeed(bozo: bool, entries: seq<FeedEntry>)

  /** The article dictionary, with exactly the keys `id`, `title`, `link`,
      `comments_link` and `published`. */
  datatype Article = Article(
    id: string,
    title: string,
    link: string,
    commentsLink: string,
    published: string)

  /** The feed this adapter reads when it is given no URL. */
  const RssUrl: string := "https://hnrss.org/newest?points=100"

  /** The title given to an entry that has none. */
  const NoTitle: string := "No Title"

  /** The record built for one entry: each field the entry has is copied,
      a missing title becomes `No Title` and any other missing field `""`. */
  function Normalize(e: FeedEntry): (r: Article)
    ensures e.title.Some? ==> r.title == e.title.value
    ensures e.title.None? ==> r.title == "No Title"
    ensures e.id.Some? ==> r.id == e.id.value
    ensures e.id.None? ==> r.id == ""
    ensures e.link.Some? ==> r.link == e.link.value
    ensures e.link.None? ==> r.link == ""
    ensures e.comments.Some? ==> r.commentsLink == e.comments.value
    ensures e.comments.None? ==> r.commentsLink == ""
    ensures e.published.Some? ==> r.published == e.published.value
    ensures e.published.None? ==> r.published == ""
  {
    Article(e.id.GetOr(""), e.title.GetOr(NoTitle), e.link.GetOr(""),
            e.comments.GetOr(""), e.published.GetOr(""))
  }

  /** What the adapter returns for a parse outcome: one record per entry, in
      entry order, or nothing when the parse raised. */
  function FeedArticles(parsed: Call<ParsedFeed>): (articles: seq<Article>)
    ensures parsed.Raised? ==> articles == []
    ensures parsed.Returned? ==> |articles| == |parsed.value.entries|
  {
    match parsed
    case Raised(_) => []
    case Returned(feed) => seq(|feed.entries|, i requires 0 <= i < |feed.entries| => Normalize(feed.entries[i]))
  }

  /** `fetch_hn_feed`: the loop over `feed.entries` that appends one record
      per entry. A set `bozo` flag is only logged; any exception gives `[]`. */
  method FetchHnFeed(parsed: Call<ParsedFeed>) returns (articles: seq<Article>)
    ensures parsed.Raised? ==> articles == []
    ensures parsed.Returned? ==> |articles| == |parsed.value.entries|
    ensures parsed.Returned? ==> forall i :: 0 <= i < |articles| ==>
      var e := parsed.value.entries[i];
      && articles[i].id == e.id.GetOr("")
      && articles[i].title == e.title.GetOr(NoTitle)
      && articles[i].link == e.link.GetOr("")
      && articles[i].commentsLink == e.comments.GetOr("")
      && articles[i].published == e.published.GetOr("")
    ensures articles == FeedArticles(parsed)
  {
    if parsed.Raised? {
      return [];
    }
    var feed := parsed.value;
    articles := [];
    for k := 0 to |feed.entries|
      invariant |articles| == k
      invariant forall i :: 0 <= i < k ==> articles[i] == Normalize(feed.entries[i])
    {
      var entry := feed.entries[k];
      var article := Article(
        entry.id.GetOr(""),
        entry.title.GetOr(NoTitle),
        entry.link.GetOr(""),
        entry.comments.GetOr(""),
        entry.published.GetOr(""));
      articles := articles + [article];
    }
  }

  /** The `bozo` flag has no effect on the records returned. */
  lemma BozoIgnored(entries: seq<FeedEntry>)
    ensures FeedArticles(Returned(ParsedFeed(true, entries)))
         == FeedArticles(Returned(ParsedFeed(false, entries)))
  {
  }
}
