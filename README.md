# Political news sentiment pipeline — a Dafny model

The repository holds three scripts. Each collects political news articles
from CNN, Fox News and The New York Times and scores their sentiment:

- `ProjectCodeTest1.py` is the page-scrape variant. `extract_articles`
  - reads an outlet's politics listing page;
  - keeps the distinct `href`s that contain `/politics/`;
  - bounds them to `max_articles` (10);
  - makes relative links absolute on the listing page's host;
  - downloads each article and keeps its first 1000 characters.

  The main loop gives the first 512 characters of each text to a sentiment
  classifier. It records the outlet, the text, the label and the score.
- `pro1.py` is the feed variant with a lexicon scorer. `fetch_articles`
  reads an RSS feed's first 20 entries and extracts each article's text.
  Entries whose fetch, parse or fields raise are skipped. The main loop tags
  every article with its source in `records`. Each record then gets a VADER
  compound score. The scores are grouped by source and compared with a
  one-way ANOVA, and the verdict is "significant" when `p < 0.05`.
- `ProjectCodeTest2.py` is the feed variant with paragraph extraction. It
  reads the first 10 entries. An article's text is the text of all its
  `<p>` elements joined with single spaces.

The model keeps the scripts' structure:

- Each collection loop becomes a method with a `for` loop. Each method is
  proved equal to a recursive specification function.
- Properties of those functions are proved as lemmas.
- The two feed scripts share one `fetch_articles` loop and one records loop
  (`Feeds.FetchArticles`, `Feeds.CollectRecords`). Each script supplies only
  its text step (`ArticleText`) and its bound (`DefaultMaxArticles`).
- Every try/append/except-skip loop is an instance of `Batch.Kept`. It
  takes one `Option` per item: `Some(v)` when the try block produced `v`,
  `None` when it raised.
- The network is an input:
  - a listing page is `Page(...)`, or `Unreachable` when `requests.get`
    raises;
  - a feed is its parsed entries, plus one outcome per entry for fetching
    that entry's page;
  - each download is `Ok(content)`, or `Fail` when it raises.
- The classifier and the compound scorer are function parameters.
- The p-value that `f_oneway` reports is an input of type `PValue`.
- Python leaves the iteration order of `set(...)` unspecified. That order
  is an input: `order` must list the set, each member exactly once.

### Behaviour of the scripts worth noting

- In `ProjectCodeTest1.py`, nothing catches these errors, so they end the
  whole run (`ExtractedTexts` and `Classified` are `None`):
  - an unreachable listing page (line 24);
  - a listing URL without "//" when a relative link needs its host
    (line 28, IndexError).
- Duplicate links are removed on the raw `href` text (line 27), before
  resolution. They are not removed on the absolute URL, so one article can
  be downloaded twice (`LinkSelection.DedupIsOnRawHrefs`).
- Texts are not dropped when empty. An article whose download succeeds with
  empty text is kept, in all three scripts.
- `df.groupby('source')` (`pro1.py:95`) forms groups only for sources that
  have rows. An outlet with no articles has no group at all, not an empty
  one (`Comparison.OutletGroups`).
- With fewer than two groups, `f_oneway` raises and the script stops. No
  verdict is reported, and nothing recovers (`Comparison.Conclude`).

## Model

| member | source | states |
|---|---|---|
| Basics.Take | ProjectCodeTest1.py:36 | Python's `s[:n]` is a prefix of `s`. Its length is `min(n, len(s))` for `n >= 0`; a negative `n` drops that many items from the end. |
| Basics.TakeTake | ProjectCodeTest1.py:36-47 | Cutting to 1000 and then to 512 characters is the same as cutting to 512. |
| Basics.DistinctTake | ProjectCodeTest1.py:27-28 | A slice of a list without repetitions has no repetitions. |
| Basics.DistinctCardinality | ProjectCodeTest1.py:27 | A list without repetitions has as many elements as the set of its elements. |
| Strings.ContainsIffOccurs | ProjectCodeTest1.py:27 | The substring test `p in s` holds exactly when `p` occurs at some offset of `s`. |
| Strings.JoinLength | ProjectCodeTest2.py:39 | `sep.join(parts)` is empty for no parts. Otherwise its length is the sum of the part lengths plus one separator between each two parts. |
| Strings.JoinPrefix | ProjectCodeTest2.py:39 | Joining the first parts gives a prefix of joining them all. |
| Strings.JoinOffsetStep | ProjectCodeTest2.py:39 | The next part starts one part and one separator after the previous one. |
| Strings.JoinUpTo | ProjectCodeTest2.py:39 | The join of the first `k+1` parts ends with part `k` at its offset. |
| Strings.JoinPart | ProjectCodeTest2.py:39 | Part `k` sits unchanged in the joined text at the offset of the parts and separators before it. |
| Strings.JoinSeparator | ProjectCodeTest2.py:39 | A separator follows every part except the last. |
| Batch.Kept | ProjectCodeTest1.py:30-39 | A try/append/except-skip loop appends no more items than it visits, and only values of successful items. |
| Batch.Successes | pro1.py:51-62 | The successful positions are positions of visited items. |
| Batch.SuccessesIncreasing | pro1.py:51-62 | Successes are listed in visiting order. |
| Batch.KeptAligned | pro1.py:51-62 | The loop keeps one value per success, and the k-th kept value is the k-th success's value. |
| Batch.SuccessesComplete | pro1.py:51-62 | No successful item is left out. |
| Batch.KeptExactly | ProjectCodeTest2.py:33-46 | The loop keeps exactly the successful items' values, in their original order. |
| Batch.KeptExtremes | ProjectCodeTest1.py:45-55 | If every item raises, nothing is kept. If none raises, every item is kept. |
| Batch.KeptStep | ProjectCodeTest1.py:31-38 | One more visited item extends the kept list by its value when it succeeds, and leaves it unchanged when it raises. |
| LinkSelection.UpToSlash | ProjectCodeTest1.py:28 | `s.split("/")[0]` is a prefix of `s` without "/", ending at the first "/" or at the end. |
| LinkSelection.AfterDoubleSlashSpec | ProjectCodeTest1.py:28 | `url.split("//")[1]` starts right after the first "//". No result means the URL has no "//". |
| LinkSelection.HostSpec | ProjectCodeTest1.py:28 | The host exists exactly when the URL contains "//" (otherwise IndexError). It is the text after the first "//" up to the next "/" or the end, and holds no "/". |
| LinkSelection.ResolveSpec | ProjectCodeTest1.py:28 | A link starting with "http" is kept as is. Any other link becomes "https://" + host + link, and fails exactly when the listing URL has no "//". Resolving twice changes nothing. |
| LinkSelection.ResolveAll | ProjectCodeTest1.py:28 | The comprehension yields one resolved link per candidate, in order. It raises exactly when some candidate fails to resolve. |
| LinkSelection.CandidatesSpec | ProjectCodeTest1.py:27-28 | Candidates are page hrefs containing "/politics/", none twice. When `max_articles >= 0` there are `min(max_articles, number of distinct such hrefs)` of them, so never more than `max_articles`. |
| LinkSelection.SelectLinksSpec | ProjectCodeTest1.py:27-28 | Selection fails exactly when a candidate needs the host and the URL has no "//". Otherwise link i resolves candidate i, with at most `max_articles` links. |
| LinkSelection.HostOf | ProjectCodeTest1.py:28 | The host of `scheme//host/path` is `host`. |
| LinkSelection.UpToSlashOf | ProjectCodeTest1.py:28 | Cutting `host + "/path"` at its first "/" gives `host`. |
| LinkSelection.DedupIsOnRawHrefs | ProjectCodeTest1.py:27-28 | A page linking one article by both its absolute URL and its relative path keeps both hrefs. Both resolve to the same URL. |
| LinkSelection.ContainsSuffix | ProjectCodeTest1.py:27-28 | A link that contains "/politics/" still contains it after a prefix is added. |
| LinkSelection.ProtocolRelativeIsPrefixed | ProjectCodeTest1.py:28 | A protocol-relative "//static..." link on the Fox News listing becomes "https://www.foxnews.com//static...". |
| ScrapeClassify.ExtractArticles | ProjectCodeTest1.py:19-39 | `extract_articles` returns the value `ExtractedTexts` specifies. Its loop keeps each downloaded text cut to 1000 characters. |
| ScrapeClassify.ExtractedTextsSpec | ProjectCodeTest1.py:24-39 | It raises exactly when the listing is unreachable or link selection fails. Otherwise, at most `max_articles` texts, one per successful download in link order, each the first `min(len, 1000)` characters; failures add nothing. |
| ScrapeClassify.ClassifierInputSpec | ProjectCodeTest1.py:47 | The classifier gets a prefix of at most 512 characters. For a stored text that is the first 512 characters of the downloaded article. |
| ScrapeClassify.LabeledSpec | ProjectCodeTest1.py:45-55 | One row per text whose classification succeeds, in text order. Each row holds the outlet, the full text, and the label and score for its first 512 characters. Failures are dropped. |
| ScrapeClassify.AbortPersists | ProjectCodeTest1.py:43-44 | Once an outlet's `extract_articles` raises, the run has no result, whatever the later outlets do. |
| ScrapeClassify.ClassifiedStep | ProjectCodeTest1.py:43-55 | One more outlet aborts the run if its extraction raises. Otherwise it appends its classified rows. |
| ScrapeClassify.ClassifyTexts | ProjectCodeTest1.py:45-55 | The inner loop's rows are the kept classifications of the outlet's texts. |
| ScrapeClassify.CollectAndClassify | ProjectCodeTest1.py:42-55 | The outer loop's `data` is the value `Classified` specifies, or nothing when an extraction raises. |
| ScrapeClassify.ClassifiedCompletes | ProjectCodeTest1.py:42-55 | When every outlet's extraction succeeds, the run yields rows. |
| ScrapeClassify.ClassifiedAborts | ProjectCodeTest1.py:42-55 | The run yields rows exactly when `extract_articles` succeeds for every outlet. |
| ScrapeClassify.SiteRows | ProjectCodeTest1.py:45-53 | Each row added for an outlet names it, holds one of its extracted texts, and carries that text's classification. |
| ScrapeClassify.ClassifiedRows | ProjectCodeTest1.py:42-55 | Every row comes from a configured outlet: its name, one of its extracted texts, and the classifier's label and score for the text's first 512 characters. |
| Feeds.TaggedStep | pro1.py:69-75 | Tagging one more article appends one record carrying the source and the article's fields. |
| Feeds.Assembled | pro1.py:66-75 | `records` holds as many rows as all sources' articles together. |
| Feeds.AssembledStep | pro1.py:67-75 | Visiting one more source appends that source's tagged articles. |
| Feeds.AssembledPrefix | pro1.py:66-75 | Visiting more sources only appends to `records`. |
| Feeds.AssembledInOrder | pro1.py:66-75 | A source's rows come right after those of the sources before it, in dictionary order. |
| Feeds.OfSourceAppend | pro1.py:66-75 | Filtering records by source commutes with concatenation. |
| Feeds.OfSourceTagged | pro1.py:69-75 | A source's own tagged rows all pass its filter; no other source's do. |
| Feeds.RecordsOfOtherSource | pro1.py:66-75 | A name that is not a configured source tags no record. |
| Feeds.RecordsOfSource | pro1.py:66-75 | With unique source names, the records of source f are exactly its own articles, tagged, in order. |
| Feeds.FetchArticles | pro1.py:43-63 | The loop of `fetch_articles` returns the list `Fetched` specifies. `ProjectCodeTest2.py:30-47` is the same loop, with the joined paragraphs as the text step. |
| Feeds.FetchedSpec | pro1.py:43-63 | At most `max_articles` articles, in feed order. There is one per entry among the first `max_articles` whose fetch succeeds and that has a title and a date; no other entry gives one. Title and date are copied from the entry, and the text is the text step applied to the fetched page. |
| Feeds.CollectRecords | pro1.py:66-75 | The nested collection loops build the `records` that `Records` specifies. `ProjectCodeTest2.py:50-59` is the same loop. |
| Feeds.RecordsSpec | pro1.py:66-75 | With unique source names, the records tagged with a source are exactly that source's fetched articles, in feed order. There are at most `max_articles` of them when the bound is not negative. |
| NewspaperFeed.RecordsSpec | pro1.py:43-75 | With this script's bound, a source has at most 20 records, exactly its fetched articles in feed order. Each record's text is the parsed text of one of the first 20 entries of that source's feed. |
| ParagraphFeed.ArticleTextSpec | ProjectCodeTest2.py:38-39 | The text of no paragraphs is "". Otherwise its length is the sum of the paragraph lengths plus one space between each two. |
| ParagraphFeed.ArticleTextLayout | ProjectCodeTest2.py:38-39 | Each paragraph appears whole at its offset, followed by a single space unless it is the last. |
| ParagraphFeed.RecordsSpec | ProjectCodeTest2.py:30-59 | With this script's bound, a source has at most 10 records, exactly its fetched articles in feed order. Each record's text is the paragraphs of one of the first 10 pages of that source's feed, joined by single spaces. |
| Comparison.ScoreRecords | pro1.py:83 | One scored row per record. |
| Comparison.Scores | pro1.py:83 | One compound score per record. |
| Comparison.GroupOfNonEmpty | pro1.py:95 | A source's group is non-empty exactly when some row carries that source. |
| Comparison.GroupsSpec | pro1.py:95 | `groupby('source')` is keyed by exactly the sources present, and no group is empty. |
| Comparison.GroupSizesStep | pro1.py:95 | One more row adds one to the group size of its own source. |
| Comparison.GroupsPartition | pro1.py:95 | The group sizes add up to the number of rows, so each row lands in exactly one group. |
| Comparison.GroupsPartitionOver | pro1.py:95 | The partition count also holds over keys that cover the sources and may include others. |
| Comparison.GroupOfScored | pro1.py:83-95 | The group of a source holds the compound scores of that source's records, in record order. |
| Comparison.OutletGroups | pro1.py:66-95 | A configured outlet forms a group exactly when `fetch_articles` returned articles for it. Its group is those articles' scores, in feed order. |
| Comparison.NoStrayGroups | pro1.py:66-95 | No group is formed for a name that is not a configured source. |
| Comparison.DecideSpec | pro1.py:98-101 | The verdict is "significant" exactly when `p < 0.05`. 0.05 itself and NaN give "no significant difference", and the verdict is monotone in p. |
| Comparison.ConcludeSpec | pro1.py:95-101 | A verdict is reached exactly when the rows carry at least two different sources; it is then the decision on the p-value. |

Proof helpers with no row of their own: `Strings.SumLengthsStep`,
`Comparison.OccursOnce`, `Comparison.GroupsEmpty` and `Comparison.SubsetCardinality`.
They serve the lemmas above and state no promise of the scripts themselves.

## Left out

- Networking and I/O are left out. These are `requests.get`, `feedparser.parse`, `Article.download`/`parse`, BeautifulSoup parsing and the request timeout. Their results are inputs: a listing's hrefs, a feed's entries, and one outcome per download.
- The classifier's score (`ProjectCodeTest1.py:52`), the VADER compound score (`pro1.py:83`) and the p-value (`pro1.py:96`) are Python floats; the model takes each as the exact `real` value of that float. Nothing is computed from the scores, and `p_value < 0.05` on a float gives the same answer as `<` on its exact value.
- The sentiment classifier and VADER are parameters (`classify`, `compound`). `f_oneway` is not computed: its p-value is an input, and only its TypeError for fewer than two groups is modelled.
- Printing, the DataFrame's printed length, and the seaborn/matplotlib plots are left out. They do not influence any value the scripts compute.
- Each download is modelled per position. Two candidates that resolve to the same URL get independent outcomes, although the network might answer both alike. The classifier, by contrast, is a total function of its input: two equal texts always get the same label and score, or both raise.
- A failure of `feedparser.parse` itself is not modelled. feedparser reports a feed it cannot fetch or parse by returning the entries it did read, possibly none, so a feed is given as its entries.
- An entry without a `link` is not modelled. Reading `entry.link` raises inside the try block, and the handler reads it again and raises once more. Feed entries always carry a link here.
- A character is a Dafny `char`, a Unicode scalar value. That is a Python code point other than a lone surrogate, so texts holding lone surrogates are not modelled. There is no byte encoding, and slicing counts the same units throughout.
- The iteration order of the politics-link set is an input. `pd.DataFrame(records)` with no records has no `text` column; that KeyError in `pro1.py:83` is not modelled.
- Groups are a map, so `groupby`'s sorted key order is not modelled. Only membership and contents are.
- The page-scrape script's label counts are drawn by `sns.countplot` only and are not modelled as a value.
- `ProjectCodeTest2.py:67` scores its records as `Comparison.ScoreRecords` does. That script runs no test, so no group lemma is stated for it.
