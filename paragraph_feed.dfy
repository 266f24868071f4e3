/**
 * The feed-based script that extracts text itself (ProjectCodeTest2.py):
 * `fetch_articles` (lines 30-47) reads the first `max_articles` feed
 * entries, fetches each page and joins the text of all its paragraphs with
 * single spaces; the main loop (lines 50-59) tags every returned article
 * with its source. Both loops are `Feeds.FetchArticles` and
 * `Feeds.CollectRecords` with this script's text step and bound.
 */
module ParagraphFeed {
  import opened Basics
  import opened Strings
  import opened Batch
  import opened Feeds

  /** `fetch_articles`'s default, and the bound the main loop passes (line 53). */
  const DefaultMaxArticles: int := 10

  /** Line 39: the paragraph texts, in document order, joined with single spaces. */
  function ArticleText(paragraphs: seq<string>): string
  {
    Join(" ", paragraphs)
  }

  /**
   * The article text is as long as the paragraphs plus one space between
   * each pair of neighbours; a page without paragraphs gives the empty text.
   * Where each paragraph and each space sits is `JoinPart` and
   * `JoinSeparator` with the separator " ".
   */
  lemma ArticleTextSpec(paragraphs: seq<string>)
    ensures paragraphs == [] ==> ArticleText(paragraphs) == ""
    ensures paragraphs != [] ==> |ArticleText(paragraphs)| == SumLengths(paragraphs) + |paragraphs| - 1
  {
    JoinLength(" ", paragraphs);
  }

  /** Paragraph `k` of the page sits at `JoinOffset(" ", paragraphs, k)`, followed by one space unless it is the last. */
  lemma ArticleTextLayout(paragraphs: seq<string>, k: nat)
    requires k < |paragraphs|
    ensures JoinOffset(" ", paragraphs, k) + |paragraphs[k]| <= |ArticleText(paragraphs)|
    ensures ArticleText(paragraphs)[JoinOffset(" ", paragraphs, k)..JoinOffset(" ", paragraphs, k) + |paragraphs[k]|] == paragraphs[k]
    ensures k + 1 < |paragraphs| ==>
      JoinOffset(" ", paragraphs, k) + |paragraphs[k]| < |ArticleText(paragraphs)| &&
      ArticleText(paragraphs)[JoinOffset(" ", paragraphs, k) + |paragraphs[k]|] == ' '
  {
    JoinPart(" ", paragraphs, k);
    if k + 1 < |paragraphs| {
      JoinSeparator(" ", paragraphs, k);
      var at := JoinOffset(" ", paragraphs, k) + |paragraphs[k]|;
      assert ArticleText(paragraphs)[at..at + 1] == " ";
    }
  }

  /** `records` after the loop of lines 50-59. */
  function Collected(feeds: seq<Feed<seq<string>>>): seq<Record>
    requires AllWellFormed(feeds)
  {
    Records(feeds, DefaultMaxArticles, ArticleText)
  }

  /** What line 53's `fetch_articles(url, max_articles=10)` returns for one feed. */
  function Articles(feed: Feed<seq<string>>): seq<FeedArticle>
    requires WellFormed(feed)
  {
    Fetched(feed, DefaultMaxArticles, ArticleText)
  }

  /**
   * The records tagged with a configured source are exactly the rows built
   * from that source's own articles, in feed order, and there are at most 10
   * of them; each one's text is the paragraphs of one of the first 10 pages
   * of that feed that were fetched, joined with spaces.
   */
  lemma RecordsSpec(feeds: seq<Feed<seq<string>>>, f: nat)
    requires AllWellFormed(feeds) && Distinct(Sources(feeds)) && f < |feeds|
    ensures OfSource(Collected(feeds), feeds[f].source) == Tagged(feeds[f].source, Articles(feeds[f]))
    ensures |OfSource(Collected(feeds), feeds[f].source)| <= DefaultMaxArticles
    ensures forall r :: r in OfSource(Collected(feeds), feeds[f].source) ==>
      exists i :: 0 <= i < |feeds[f].entries| && i < DefaultMaxArticles &&
        feeds[f].fetches[i].Ok? && r.text == ArticleText(feeds[f].fetches[i].value)
  {
    var fed := feeds[f];
    Feeds.RecordsSpec(feeds, DefaultMaxArticles, ArticleText, f);
    FetchedSpec(fed, DefaultMaxArticles, ArticleText);
    var articles := Articles(fed);
    var rows := Tagged(fed.source, articles);
    var entries := Take(fed.entries, DefaultMaxArticles);
    var fetches := Take(fed.fetches, DefaultMaxArticles);
    var idx := Successes(EntryTries(entries, fetches, ArticleText));
    forall r | r in rows
      ensures exists i :: (0 <= i < |fed.entries| && i < DefaultMaxArticles &&
        fed.fetches[i].Ok? && r.text == ArticleText(fed.fetches[i].value))
    {
      var k :| 0 <= k < |rows| && rows[k] == r;
      var i := idx[k];
      assert fetches[i] == fed.fetches[i];
    }
  }
}
