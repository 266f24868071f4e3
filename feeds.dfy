/**
 * What the two feed-reading scripts (pro1.py and ProjectCodeTest2.py) share:
 * feed entries, `fetch_articles` with its skip-on-exception loop, the
 * article dicts it returns, the `records` rows tagged with their source, and
 * the loop that assembles `records` source by source. The scripts differ
 * only in how a fetched page becomes text (`textOf`) and in the bound.
 */
module Feeds {
  import opened Basics
  import opened Batch

  /**
   * One item of `feed.entries`. Reading a `title` or `published` the entry
   * lacks raises AttributeError, so both are optional here.
   */
  datatype Entry = Entry(link: string, title: Option<string>, published: Option<string>)

  /** One dict returned by `fetch_articles`: keys title, text, published. */
  datatype FeedArticle = FeedArticle(title: string, text: string, published: string)

  /** One dict appended to `records`: the article's fields and the source it came from. */
  datatype Record = Record(source: string, title: string, text: string, published: string)

  /**
   * One entry of `feeds` together with what the network yields for it: the
   * parsed entries in feed order, and for each entry the outcome of fetching
   * and extracting its page (the extracted data, or an exception).
   */
  datatype Feed<D> = Feed(source: string, entries: seq<Entry>, fetches: seq<Outcome<D>>)

  ghost predicate WellFormed<D>(feed: Feed<D>)
  {
    |feed.fetches| == |feed.entries|
  }

  /**
   * The dict built inside the try block once the page text is known: title
   * and published are copied from the entry, and reading either when it is
   * missing raises, which skips the entry.
   */
  function ArticleOf(entry: Entry, text: string): Option<FeedArticle>
  {
    if entry.title.Some? && entry.published.Some? then
      Some(FeedArticle(entry.title.value, text, entry.published.value))
    else None
  }

  /** The rows the inner loop appends for one source. */
  function Tagged(source: string, articles: seq<FeedArticle>): seq<Record>
  {
    seq(|articles|, i requires 0 <= i < |articles| =>
      Record(source, articles[i].title, articles[i].text, articles[i].published))
  }

  lemma TaggedStep(source: string, articles: seq<FeedArticle>, j: nat)
    requires j < |articles|
    ensures Tagged(source, articles[..j + 1]) ==
      Tagged(source, articles[..j]) + [Record(source, articles[j].title, articles[j].text, articles[j].published)]
  {
  }

  /**
   * `records` after the outer loop has visited the sources in dictionary
   * order, `fetched[f]` being what `fetch_articles` returned for `sources[f]`.
   * The total count is the sum of the per-source counts.
   */
  function Assembled(sources: seq<string>, fetched: seq<seq<FeedArticle>>): (records: seq<Record>)
    requires |sources| == |fetched|
    ensures |records| == SumLengths(fetched)
  {
    if sources == [] then []
    else
      var n := |sources|;
      Assembled(sources[..n - 1], fetched[..n - 1]) + Tagged(sources[n - 1], fetched[n - 1])
  }

  lemma AssembledStep(sources: seq<string>, fetched: seq<seq<FeedArticle>>, f: nat)
    requires |sources| == |fetched| && f < |sources|
    ensures Assembled(sources[..f + 1], fetched[..f + 1]) ==
      Assembled(sources[..f], fetched[..f]) + Tagged(sources[f], fetched[f])
  {
    assert sources[..f + 1][..f] == sources[..f];
    assert fetched[..f + 1][..f] == fetched[..f];
  }

  /** Visiting more sources only appends to `records`. */
  lemma {:induction false} AssembledPrefix(sources: seq<string>, fetched: seq<seq<FeedArticle>>, m: nat)
    requires |sources| == |fetched| && m <= |sources|
    ensures Assembled(sources[..m], fetched[..m]) <= Assembled(sources, fetched)
  {
    var n := |sources|;
    if m == n {
      assert sources[..m] == sources && fetched[..m] == fetched;
    } else {
      var initS, initF := sources[..n - 1], fetched[..n - 1];
      AssembledPrefix(initS, initF, m);
      assert initS[..m] == sources[..m] && initF[..m] == fetched[..m];
    }
  }

  /**
   * Records are appended source by source in dictionary order: source `f`'s
   * rows come right after those of the sources before it.
   */
  lemma AssembledInOrder(sources: seq<string>, fetched: seq<seq<FeedArticle>>, f: nat)
    requires |sources| == |fetched| && f < |sources|
    ensures Assembled(sources[..f], fetched[..f]) + Tagged(sources[f], fetched[f]) <= Assembled(sources, fetched)
  {
    AssembledStep(sources, fetched, f);
    AssembledPrefix(sources, fetched, f + 1);
  }

  /** The records whose source is `source`, in order. */
  function OfSource(records: seq<Record>, source: string): seq<Record>
  {
    if records == [] then []
    else
      var last := records[|records| - 1];
      OfSource(records[..|records| - 1], source) + (if last.source == source then [last] else [])
  }

  lemma {:induction false} OfSourceAppend(a: seq<Record>, b: seq<Record>, source: string)
    ensures OfSource(a + b, source) == OfSource(a, source) + OfSource(b, source)
  {
    if b != [] {
      var n := |b|;
      assert (a + b)[..|a + b| - 1] == a + b[..n - 1];
      OfSourceAppend(a, b[..n - 1], source);
    } else {
      assert a + b == a;
    }
  }

  lemma {:induction false} OfSourceTagged(tag: string, articles: seq<FeedArticle>, source: string)
    ensures OfSource(Tagged(tag, articles), source) == if tag == source then Tagged(tag, articles) else []
  {
    if articles != [] {
      var n := |articles|;
      TaggedStep(tag, articles, n - 1);
      assert articles[..n] == articles;
      OfSourceTagged(tag, articles[..n - 1], source);
      var rows := Tagged(tag, articles);
      assert rows[..|rows| - 1] == Tagged(tag, articles[..n - 1]);
    }
  }

  /** A name that is not a configured source tags no record. */
  lemma {:induction false} RecordsOfOtherSource(sources: seq<string>, fetched: seq<seq<FeedArticle>>, source: string)
    requires |sources| == |fetched| && source !in sources
    ensures OfSource(Assembled(sources, fetched), source) == []
  {
    if sources != [] {
      var n := |sources|;
      var initS, initF := sources[..n - 1], fetched[..n - 1];
      assert Assembled(sources, fetched) == Assembled(initS, initF) + Tagged(sources[n - 1], fetched[n - 1]);
      assert source !in initS && source != sources[n - 1] by { assert sources == initS + [sources[n - 1]]; }
      RecordsOfOtherSource(initS, initF, source);
      OfSourceAppend(Assembled(initS, initF), Tagged(sources[n - 1], fetched[n - 1]), source);
      OfSourceTagged(sources[n - 1], fetched[n - 1], source);
    }
  }

  /**
   * With source names unique (they are the keys of a dictionary), the records
   * carrying source `f`'s name are exactly the rows built from that source's
   * own articles, in order: every record is tagged with the feed it came from.
   */
  lemma {:induction false} RecordsOfSource(sources: seq<string>, fetched: seq<seq<FeedArticle>>, f: nat)
    requires |sources| == |fetched| && Distinct(sources) && f < |sources|
    ensures OfSource(Assembled(sources, fetched), sources[f]) == Tagged(sources[f], fetched[f])
  {
    var n := |sources|;
    var source := sources[f];
    var initS, initF := sources[..n - 1], fetched[..n - 1];
    OfSourceAppend(Assembled(initS, initF), Tagged(sources[n - 1], fetched[n - 1]), source);
    OfSourceTagged(sources[n - 1], fetched[n - 1], source);
    if f == n - 1 {
      assert source !in initS;
      RecordsOfOtherSource(initS, initF, source);
    } else {
      assert initS[f] == source && initF[f] == fetched[f];
      RecordsOfSource(initS, initF, f);
    }
  }

  /**
   * The try block of `fetch_articles` for one entry: `fetch` is what the
   * page download and parse yield (or an exception), `textOf` turns it into
   * the article text; the text is kept as it is, empty or not.
   */
  function TryEntry<D>(entry: Entry, fetch: Outcome<D>, textOf: D -> string): Option<FeedArticle>
  {
    match fetch
    case Ok(page) => ArticleOf(entry, textOf(page))
    case Fail => None
  }

  function EntryTries<D>(entries: seq<Entry>, fetches: seq<Outcome<D>>, textOf: D -> string): seq<Option<FeedArticle>>
    requires |entries| == |fetches|
  {
    seq(|entries|, i requires 0 <= i < |entries| => TryEntry(entries[i], fetches[i], textOf))
  }

  /** The list `fetch_articles(feed_url, max_articles)` returns for `feed`. */
  function Fetched<D>(feed: Feed<D>, maxArticles: int, textOf: D -> string): seq<FeedArticle>
    requires WellFormed(feed)
  {
    Kept(EntryTries(Take(feed.entries, maxArticles), Take(feed.fetches, maxArticles), textOf))
  }

  /** `fetch_articles`: the loop over `feed.entries[:max_articles]`. */
  method FetchArticles<D>(feed: Feed<D>, maxArticles: int, textOf: D -> string) returns (articles: seq<FeedArticle>)
    requires WellFormed(feed)
    ensures articles == Fetched(feed, maxArticles, textOf)
  {
    var entries := Take(feed.entries, maxArticles);
    var fetches := Take(feed.fetches, maxArticles);
    ghost var tries := EntryTries(entries, fetches, textOf);
    articles := [];
    for i := 0 to |entries|
      invariant articles == Kept(tries[..i])
    {
      var entry := entries[i];
      match fetches[i] {
        case Ok(page) =>
          var text := textOf(page);
          if entry.title.Some? && entry.published.Some? {
            articles := articles + [FeedArticle(entry.title.value, text, entry.published.value)];
          }
        case Fail =>
      }
      KeptStep(tries, i);
    }
    assert tries[..|entries|] == tries;
  }

  /**
   * `fetch_articles` returns at most `max_articles` items: in feed order,
   * exactly the entries among the first `max_articles` whose fetch succeeded
   * and that have a title and a publication date; a failing entry skips only
   * itself. Each item's title and date are the entry's and its text is the
   * fetched page's text.
   */
  lemma FetchedSpec<D>(feed: Feed<D>, maxArticles: int, textOf: D -> string)
    requires WellFormed(feed)
    ensures var articles := Fetched(feed, maxArticles, textOf);
      var entries := Take(feed.entries, maxArticles);
      var fetches := Take(feed.fetches, maxArticles);
      var idx := Successes(EntryTries(entries, fetches, textOf));
      (0 <= maxArticles ==> |articles| <= maxArticles) &&
      |articles| == |idx| && Increasing(idx) &&
      (forall k :: 0 <= k < |articles| ==>
        idx[k] < |entries| && fetches[idx[k]].Ok? &&
        entries[idx[k]].title == Some(articles[k].title) &&
        entries[idx[k]].published == Some(articles[k].published) &&
        articles[k].text == textOf(fetches[idx[k]].value)) &&
      (forall i :: 0 <= i < |entries| && fetches[i].Ok? && entries[i].title.Some? && entries[i].published.Some? ==>
        i in idx)
  {
    var entries := Take(feed.entries, maxArticles);
    var fetches := Take(feed.fetches, maxArticles);
    var tries := EntryTries(entries, fetches, textOf);
    KeptExactly(tries);
    var idx := Successes(tries);
    forall k | 0 <= k < |idx| ensures fetches[idx[k]].Ok? {
      assert tries[idx[k]].Some?;
    }
  }

  /** The feeds' source names, in dictionary order. */
  function Sources<D>(feeds: seq<Feed<D>>): seq<string>
  {
    seq(|feeds|, i requires 0 <= i < |feeds| => feeds[i].source)
  }

  ghost predicate AllWellFormed<D>(feeds: seq<Feed<D>>)
  {
    forall i :: 0 <= i < |feeds| ==> WellFormed(feeds[i])
  }

  /** What `fetch_articles(url, max_articles)` returns for each feed. */
  function FetchedAll<D>(feeds: seq<Feed<D>>, maxArticles: int, textOf: D -> string): seq<seq<FeedArticle>>
    requires AllWellFormed(feeds)
  {
    seq(|feeds|, i requires 0 <= i < |feeds| => Fetched(feeds[i], maxArticles, textOf))
  }

  /** `records` after the main loop has visited every feed. */
  function Records<D>(feeds: seq<Feed<D>>, maxArticles: int, textOf: D -> string): seq<Record>
    requires AllWellFormed(feeds)
  {
    Assembled(Sources(feeds), FetchedAll(feeds, maxArticles, textOf))
  }

  /** The main loop: fetch each feed's articles and append one record per article. */
  method CollectRecords<D>(feeds: seq<Feed<D>>, maxArticles: int, textOf: D -> string) returns (records: seq<Record>)
    requires AllWellFormed(feeds)
    ensures records == Records(feeds, maxArticles, textOf)
  {
    ghost var sources := Sources(feeds);
    ghost var fetched := FetchedAll(feeds, maxArticles, textOf);
    records := [];
    for f := 0 to |feeds|
      invariant records == Assembled(sources[..f], fetched[..f])
    {
      var source := feeds[f].source;
      var articles := FetchArticles(feeds[f], maxArticles, textOf);
      ghost var before := records;
      for j := 0 to |articles|
        invariant records == before + Tagged(source, articles[..j])
      {
        var art := articles[j];
        records := records + [Record(source, art.title, art.text, art.published)];
        TaggedStep(source, articles, j);
      }
      assert articles[..|articles|] == articles;
      AssembledStep(sources, fetched, f);
    }
    assert sources[..|feeds|] == sources && fetched[..|feeds|] == fetched;
  }

  /**
   * Every record of a configured source comes from that source's own feed:
   * the records tagged with it are exactly the rows built from what
   * `fetch_articles` returned for it, in order, and there are at most
   * `max_articles` of them.
   */
  lemma RecordsSpec<D>(feeds: seq<Feed<D>>, maxArticles: int, textOf: D -> string, f: nat)
    requires AllWellFormed(feeds) && Distinct(Sources(feeds)) && f < |feeds|
    ensures OfSource(Records(feeds, maxArticles, textOf), feeds[f].source) ==
      Tagged(feeds[f].source, Fetched(feeds[f], maxArticles, textOf))
    ensures 0 <= maxArticles ==> |OfSource(Records(feeds, maxArticles, textOf), feeds[f].source)| <= maxArticles
  {
    RecordsOfSource(Sources(feeds), FetchedAll(feeds, maxArticles, textOf), f);
    FetchedSpec(feeds[f], maxArticles, textOf);
  }
}
