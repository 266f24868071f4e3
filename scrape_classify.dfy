/**
 * The page-scraping, classifier-scored script (ProjectCodeTest1.py): for each
 * outlet, `extract_articles` selects links on the outlet's politics listing
 * page, downloads each article and keeps its first 1000 characters; the main
 * loop then classifies the first 512 characters of each kept text and records
 * the outlet, the text, the label and the score.
 */
module ScrapeClassify {
  import opened Basics
  import opened Batch
  import opened LinkSelection

  /** `article.text[:1000]` (line 36). */
  const StoredTextLimit: int := 1000

  /** `classifier(text[:512])` (line 47). */
  const ClassifierInputLimit: int := 512

  /**
   * What the network yields for one listing page. `Unreachable` is
   * `requests.get` raising, which nothing in the script catches. Otherwise
   * `hrefs` are the `href`s of the page's anchors in document order, `order`
   * is the order in which `list(set(...))` lists the selected ones, and
   * `downloads[i]` is the outcome of `Article(link).download()` and
   * `.parse()` for the link made from `order[i]`: the article text, or an
   * exception.
   */
  datatype Listing =
    | Unreachable
    | Page(hrefs: seq<string>, order: seq<string>, downloads: seq<Outcome<string>>)

  ghost predicate WellFormed(listing: Listing)
  {
    listing.Page? ==>
      Enumerates(listing.order, PoliticsLinks(listing.hrefs)) && |listing.downloads| == |listing.order|
  }

  /** One entry of `news_sites`: outlet name, listing URL, and what fetching it yields. */
  datatype Site = Site(outlet: string, url: string, listing: Listing)

  ghost predicate AllWellFormed(sites: seq<Site>)
  {
    forall i :: 0 <= i < |sites| ==> WellFormed(sites[i].listing)
  }

  /** The try block of lines 32-36 for one link: the text cut to 1000 characters, or nothing. */
  function StoredText(download: Outcome<string>): Option<string>
  {
    match download
    case Ok(text) => Some(Take(text, StoredTextLimit))
    case Fail => None
  }

  function StoredTries(downloads: seq<Outcome<string>>): seq<Option<string>>
  {
    seq(|downloads|, i requires 0 <= i < |downloads| => StoredText(downloads[i]))
  }

  /** The list `extract_articles` returns; None when it raises (listing unreachable, or no host for a relative link). */
  function ExtractedTexts(url: string, listing: Listing, maxArticles: int): Option<seq<string>>
    requires WellFormed(listing)
  {
    match listing
    case Unreachable => None
    case Page(hrefs, order, downloads) =>
      match SelectLinks(url, hrefs, order, maxArticles)
      case None => None
      case Some(_) => Some(Kept(StoredTries(Take(downloads, maxArticles))))
  }

  /** `extract_articles(url, max_articles)`, lines 19-39. */
  method ExtractArticles(url: string, listing: Listing, maxArticles: int) returns (articles: Option<seq<string>>)
    requires WellFormed(listing)
    ensures articles == ExtractedTexts(url, listing, maxArticles)
  {
    if listing.Unreachable? {
      return None;
    }
    var links := SelectLinks(url, listing.hrefs, listing.order, maxArticles);
    if links.None? {
      return None;
    }
    SelectLinksSpec(url, listing.hrefs, listing.order, maxArticles);
    var downloads := Take(listing.downloads, maxArticles);
    ghost var tries := StoredTries(downloads);
    var texts: seq<string> := [];
    for i := 0 to |links.value|
      invariant texts == Kept(tries[..i])
    {
      match downloads[i] {
        case Ok(text) => texts := texts + [Take(text, StoredTextLimit)];
        case Fail =>
      }
      KeptStep(tries, i);
    }
    assert tries[..|tries|] == tries;
    return Some(texts);
  }

  /**
   * `extract_articles` raises exactly when the listing cannot be fetched or a
   * relative link needs a host the listing URL lacks. Otherwise it returns at
   * most `max_articles` texts: one per successful download among the selected
   * links, in link order, each the first `min(len, 1000)` characters of the
   * extracted text; a failed download adds nothing.
   */
  lemma ExtractedTextsSpec(url: string, listing: Listing, maxArticles: int)
    requires WellFormed(listing)
    ensures ExtractedTexts(url, listing, maxArticles).None? <==>
      listing.Unreachable? || SelectLinks(url, listing.hrefs, listing.order, maxArticles).None?
    ensures ExtractedTexts(url, listing, maxArticles).Some? ==>
      var texts := ExtractedTexts(url, listing, maxArticles).value;
      var links := SelectLinks(url, listing.hrefs, listing.order, maxArticles).value;
      var downloads := Take(listing.downloads, maxArticles);
      var idx := Successes(StoredTries(downloads));
      |downloads| == |links| && (0 <= maxArticles ==> |texts| <= maxArticles) &&
      |texts| == |idx| && Increasing(idx) &&
      (forall k :: 0 <= k < |texts| ==>
        idx[k] < |downloads| && downloads[idx[k]].Ok? &&
        texts[k] <= downloads[idx[k]].value &&
        |texts[k]| == Min(|downloads[idx[k]].value|, StoredTextLimit)) &&
      (forall i :: 0 <= i < |downloads| && downloads[i].Ok? ==> i in idx)
  {
    if ExtractedTexts(url, listing, maxArticles).Some? {
      SelectLinksSpec(url, listing.hrefs, listing.order, maxArticles);
      var downloads := Take(listing.downloads, maxArticles);
      var tries := StoredTries(downloads);
      KeptExactly(tries);
      var idx := Successes(tries);
      forall k | 0 <= k < |idx| ensures downloads[idx[k]].Ok? {
        assert tries[idx[k]].Some?;
      }
    }
  }

  /** The classifier's verdict on one text. */
  datatype Classification = Classification(sentimentLabel: string, score: real)

  /** One row of `data` (lines 48-53). */
  datatype LabeledText = LabeledText(outlet: string, text: string, sentimentLabel: string, score: real)

  /** What the classifier is given for a text (line 47). */
  function ClassifierInput(text: string): string
  {
    Take(text, ClassifierInputLimit)
  }

  /**
   * The classifier receives a prefix of at most 512 characters; for a text
   * stored by `extract_articles` that is the first 512 characters of the
   * downloaded article text.
   */
  lemma ClassifierInputSpec(download: string)
    ensures var stored := Take(download, StoredTextLimit);
      ClassifierInput(stored) <= stored &&
      |ClassifierInput(stored)| == Min(|stored|, ClassifierInputLimit) &&
      |ClassifierInput(stored)| <= ClassifierInputLimit &&
      ClassifierInput(stored) == Take(download, ClassifierInputLimit)
  {
    TakeTake(download, 1000, 512);
  }

  /** The try block of lines 46-53 for one text; the stored text is the whole text, not the classifier's prefix. */
  function LabelOf(outlet: string, text: string, classify: string -> Outcome<Classification>): Option<LabeledText>
  {
    match classify(ClassifierInput(text))
    case Ok(c) => Some(LabeledText(outlet, text, c.sentimentLabel, c.score))
    case Fail => None
  }

  function LabelTries(outlet: string, texts: seq<string>, classify: string -> Outcome<Classification>): seq<Option<LabeledText>>
  {
    seq(|texts|, i requires 0 <= i < |texts| => LabelOf(outlet, texts[i], classify))
  }

  /**
   * For one outlet's texts: a text whose classification raises is dropped,
   * every other text gets one row, in text order, tagged with the outlet,
   * holding the full text and the classifier's label and score for that
   * text's first 512 characters.
   */
  lemma LabeledSpec(outlet: string, texts: seq<string>, classify: string -> Outcome<Classification>)
    ensures var rows := Kept(LabelTries(outlet, texts, classify));
      var idx := Successes(LabelTries(outlet, texts, classify));
      |rows| == |idx| && Increasing(idx) && |rows| <= |texts| &&
      (forall k :: 0 <= k < |rows| ==>
        idx[k] < |texts| && rows[k].outlet == outlet && rows[k].text == texts[idx[k]] &&
        classify(ClassifierInput(rows[k].text)) == Ok(Classification(rows[k].sentimentLabel, rows[k].score))) &&
      (forall i :: 0 <= i < |texts| && classify(ClassifierInput(texts[i])).Ok? ==> i in idx)
  {
    var tries := LabelTries(outlet, texts, classify);
    KeptExactly(tries);
  }

  /** What `extract_articles(url)` gives for one configured outlet, with the default bound of 10. */
  function SiteTexts(site: Site): Option<seq<string>>
    requires WellFormed(site.listing)
  {
    ExtractedTexts(site.url, site.listing, DefaultMaxArticles)
  }

  /**
   * `data` after the loop of lines 43-55 has visited `sites` (the entries of
   * `news_sites` in dictionary order); None when `extract_articles` raised for
   * one of them, which ends the script.
   */
  function Classified(sites: seq<Site>, classify: string -> Outcome<Classification>): Option<seq<LabeledText>>
    requires AllWellFormed(sites)
  {
    if sites == [] then Some([])
    else
      var last := sites[|sites| - 1];
      match Classified(sites[..|sites| - 1], classify)
      case None => None
      case Some(data) =>
        match SiteTexts(last)
        case None => None
        case Some(texts) => Some(data + Kept(LabelTries(last.outlet, texts, classify)))
  }

  /** Once an outlet's `extract_articles` has raised, the run has no result whatever follows. */
  lemma {:induction false} AbortPersists(sites: seq<Site>, classify: string -> Outcome<Classification>, n: nat)
    requires AllWellFormed(sites)
    requires n <= |sites|
    requires Classified(sites[..n], classify).None?
    ensures Classified(sites, classify).None?
  {
    if n < |sites| {
      var init := sites[..|sites| - 1];
      assert init[..n] == sites[..n];
      AbortPersists(init, classify, n);
    } else {
      assert sites[..n] == sites;
    }
  }

  /** Visiting one more outlet: the run aborts if its `extract_articles` raises, otherwise gains its rows. */
  lemma ClassifiedStep(sites: seq<Site>, classify: string -> Outcome<Classification>, s: nat)
    requires AllWellFormed(sites) && s < |sites|
    ensures AllWellFormed(sites[..s]) && AllWellFormed(sites[..s + 1])
    ensures SiteTexts(sites[s]).None? ==> Classified(sites[..s + 1], classify).None?
    ensures Classified(sites[..s], classify).None? ==> Classified(sites[..s + 1], classify).None?
    ensures Classified(sites[..s], classify).Some? && SiteTexts(sites[s]).Some? ==>
      Classified(sites[..s + 1], classify) ==
        Some(Classified(sites[..s], classify).value + Kept(LabelTries(sites[s].outlet, SiteTexts(sites[s]).value, classify)))
  {
    assert sites[..s + 1][..s] == sites[..s];
  }

  /** The inner loop of lines 45-55: classify each text of one outlet, dropping those whose classification raises. */
  method ClassifyTexts(outlet: string, texts: seq<string>, classify: string -> Outcome<Classification>)
    returns (rows: seq<LabeledText>)
    ensures rows == Kept(LabelTries(outlet, texts, classify))
  {
    ghost var tries := LabelTries(outlet, texts, classify);
    rows := [];
    for j := 0 to |texts|
      invariant rows == Kept(tries[..j])
    {
      match classify(ClassifierInput(texts[j])) {
        case Ok(c) => rows := rows + [LabeledText(outlet, texts[j], c.sentimentLabel, c.score)];
        case Fail =>
      }
      KeptStep(tries, j);
    }
    assert tries[..|texts|] == tries;
  }

  /** The loop of lines 42-55 over the outlets. */
  method CollectAndClassify(sites: seq<Site>, classify: string -> Outcome<Classification>)
    returns (data: Option<seq<LabeledText>>)
    requires AllWellFormed(sites)
    ensures data == Classified(sites, classify)
  {
    var rows: seq<LabeledText> := [];
    for s := 0 to |sites|
      invariant AllWellFormed(sites[..s])
      invariant Classified(sites[..s], classify) == Some(rows)
    {
      ClassifiedStep(sites, classify, s);
      var site := sites[s];
      var texts := ExtractArticles(site.url, site.listing, DefaultMaxArticles);
      assert texts == SiteTexts(site);
      if texts.None? {
        AbortPersists(sites, classify, s + 1);
        return None;
      }
      var added := ClassifyTexts(site.outlet, texts.value, classify);
      rows := rows + added;
    }
    assert sites[..|sites|] == sites;
    return Some(rows);
  }

  /** When every outlet's `extract_articles` succeeds the run yields rows. */
  lemma {:induction false} ClassifiedCompletes(sites: seq<Site>, classify: string -> Outcome<Classification>)
    requires AllWellFormed(sites)
    requires forall i :: 0 <= i < |sites| ==> SiteTexts(sites[i]).Some?
    ensures Classified(sites, classify).Some?
  {
    if sites != [] {
      var n := |sites|;
      var init := sites[..n - 1];
      assert forall i :: 0 <= i < n - 1 ==> init[i] == sites[i];
      ClassifiedCompletes(init, classify);
      assert SiteTexts(sites[n - 1]).Some?;
    }
  }

  /** The run yields rows exactly when `extract_articles` succeeds for every outlet. */
  lemma ClassifiedAborts(sites: seq<Site>, classify: string -> Outcome<Classification>)
    requires AllWellFormed(sites)
    ensures Classified(sites, classify).None? <==> exists i :: 0 <= i < |sites| && SiteTexts(sites[i]).None?
  {
    if i :| 0 <= i < |sites| && SiteTexts(sites[i]).None? {
      ClassifiedStep(sites, classify, i);
      AbortPersists(sites, classify, i + 1);
    } else {
      ClassifiedCompletes(sites, classify);
    }
  }

  /** `row` was recorded for `site`: it names the outlet, holds one of its texts and that text's classification. */
  ghost predicate RowOf(row: LabeledText, site: Site, classify: string -> Outcome<Classification>)
    requires WellFormed(site.listing)
  {
    row.outlet == site.outlet && SiteTexts(site).Some? && row.text in SiteTexts(site).value &&
    classify(ClassifierInput(row.text)) == Ok(Classification(row.sentimentLabel, row.score))
  }

  /** Each row kept for one outlet was recorded for that outlet. */
  lemma SiteRows(site: Site, classify: string -> Outcome<Classification>, row: LabeledText)
    requires WellFormed(site.listing) && SiteTexts(site).Some?
    requires row in Kept(LabelTries(site.outlet, SiteTexts(site).value, classify))
    ensures RowOf(row, site, classify)
  {
    var texts := SiteTexts(site).value;
    var added := Kept(LabelTries(site.outlet, texts, classify));
    LabeledSpec(site.outlet, texts, classify);
    var k :| 0 <= k < |added| && added[k] == row;
  }

  /**
   * Every row carries the name of a configured outlet, holds a text that
   * outlet's `extract_articles` returned, and carries the classifier's label
   * and score for that text's first 512 characters.
   */
  lemma {:induction false} ClassifiedRows(sites: seq<Site>, classify: string -> Outcome<Classification>)
    requires AllWellFormed(sites)
    ensures Classified(sites, classify).Some? ==>
      forall row :: row in Classified(sites, classify).value ==>
        exists i :: 0 <= i < |sites| && RowOf(row, sites[i], classify)
  {
    if sites != [] && Classified(sites, classify).Some? {
      var n := |sites|;
      ClassifiedStep(sites, classify, n - 1);
      assert sites[..n] == sites;
      var init := sites[..n - 1];
      ClassifiedRows(init, classify);
      var last := sites[n - 1];
      var added := Kept(LabelTries(last.outlet, SiteTexts(last).value, classify));
      assert Classified(sites, classify).value == Classified(init, classify).value + added;
      forall row | row in Classified(sites, classify).value
        ensures exists i :: 0 <= i < n && RowOf(row, sites[i], classify)
      {
        if row in Classified(init, classify).value {
          var i :| 0 <= i < n - 1 && RowOf(row, init[i], classify);
          assert init[i] == sites[i];
        } else {
          SiteRows(last, classify, row);
        }
      }
    }
  }
}
