/**
 * The feed-based, lexicon-scored script (pro1.py), collection part:
 * `fetch_articles` (lines 43-63) reads the first `max_articles` feed entries
 * and extracts each one's page with a newspaper `Article`, whose parsed
 * `text` becomes the article text; the main loop (lines 66-75) tags every
 * returned article with its source. Both loops are `Feeds.FetchArticles`
 * and `Feeds.CollectRecords` with this script's text step and bound.
 */
module NewspaperFeed {
  import opened Basics
  import opened Batch
  import opened Feeds

  /** `fetch_articles`'s default, and the bound the main loop passes (line 69). */
  const DefaultMaxArticles: int := 20

  /** Line 58: `art.text` after `download()` and `parse()`, kept as the parser gives it. */
  function ArticleText(parsed: string): string
  {
    parsed
  }

  /** `records` after the loop of lines 66-75. */
  function Collected(feeds: seq<Feed<string>>): seq<Record>
    requires AllWellFormed(feeds)
  {
    Records(feeds, DefaultMaxArticles, ArticleText)
  }

  /** What line 69's `fetch_articles(url, max_articles=20)` returns for one feed. */
  function Articles(feed: Feed<string>): seq<FeedArticle>
    requires WellFormed(feed)
  {
    Fetched(feed, DefaultMaxArticles, ArticleText)
  }

  /**
   * The records tagged with a configured source are exactly the rows built
   * from that source's own articles, in feed order, each with the text the
   * parser extracted, and there are at most 20 of them.
   */
  lemma RecordsSpec(feeds: seq<Feed<string>>, f: nat)
    requires AllWellFormed(feeds) && Distinct(Sources(feeds)) && f < |feeds|
    ensures OfSource(Collected(feeds), feeds[f].source) == Tagged(feeds[f].source, Articles(feeds[f]))
    ensures |OfSource(Collected(feeds), feeds[f].source)| <= DefaultMaxArticles
    ensures forall r :: r in OfSource(Collected(feeds), feeds[f].source) ==>
      exists i :: 0 <= i < |feeds[f].entries| && i < DefaultMaxArticles && feeds[f].fetches[i] == Ok(r.text)
  {
    var fed := feeds[f];
    Feeds.RecordsSpec(feeds, DefaultMaxArticles, ArticleText, f);
    FetchedSpec(fed, DefaultMaxArticles, ArticleText);
    var articles := Articles(fed);
    var rows := Tagged(fed.source, articles);
    var entries := Take(fed.entries, DefaultMaxArticles);
    var fetches := Take(fed.fetches, DefaultMaxArticles);
    var idx := Successes(EntryTries(entries, fetches, ArticleText));
    forall r | r in rows
      ensures exists i :: 0 <= i < |fed.entries| && i < DefaultMaxArticles && fed.fetches[i] == Ok(r.text)
    {
      var k :| 0 <= k < |rows| && rows[k] == r;
      var i := idx[k];
      assert fetches[i] == fed.fetches[i];
    }
  }
}
