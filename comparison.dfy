/**
 * The comparison step of pro1.py: every record gets a compound sentiment
 * score (line 83), the scores are grouped by source (line 95), a one-way
 * ANOVA turns the groups into a p-value (line 96), and the p-value is
 * compared with 0.05 (lines 98-101). The lexicon scorer and the ANOVA are
 * external; the scorer is a parameter and the p-value an input.
 */
module Comparison {
  import opened Basics
  import opened Feeds
  import NewspaperFeed

  /** One DataFrame row after line 83, reduced to the two columns the test uses. */
  datatype ScoredRow = ScoredRow(source: string, sentiment: real)

  /** Line 83: each record's compound score of its text, `compound` standing for the lexicon scorer. */
  function ScoreRecords(records: seq<Record>, compound: string -> real): (rows: seq<ScoredRow>)
    ensures |rows| == |records|
  {
    seq(|records|, i requires 0 <= i < |records| => ScoredRow(records[i].source, compound(records[i].text)))
  }

  /** The compound scores of some records' texts, in order. */
  function Scores(records: seq<Record>, compound: string -> real): (scores: seq<real>)
    ensures |scores| == |records|
  {
    seq(|records|, i requires 0 <= i < |records| => compound(records[i].text))
  }

  /** The sources that occur in the rows. */
  function SourcesOf(rows: seq<ScoredRow>): set<string>
  {
    set r | r in rows :: r.source
  }

  /** One group of line 95: the sentiments of the rows of `source`, in row order. */
  function GroupOf(rows: seq<ScoredRow>, source: string): seq<real>
  {
    if rows == [] then []
    else
      var last := rows[|rows| - 1];
      GroupOf(rows[..|rows| - 1], source) + (if last.source == source then [last.sentiment] else [])
  }

  /** Line 95, `df.groupby('source')`: one group per source that has at least one row. */
  function Groups(rows: seq<ScoredRow>): map<string, seq<real>>
  {
    map s | s in SourcesOf(rows) :: GroupOf(rows, s)
  }

  /** A source has a non-empty group exactly when some row carries it. */
  lemma {:induction false} GroupOfNonEmpty(rows: seq<ScoredRow>, source: string)
    ensures GroupOf(rows, source) != [] <==> source in SourcesOf(rows)
  {
    if rows != [] {
      var init := rows[..|rows| - 1];
      GroupOfNonEmpty(init, source);
      assert SourcesOf(rows) == SourcesOf(init) + {rows[|rows| - 1].source};
    }
  }

  /**
   * The groups are keyed by exactly the sources present in the rows, and
   * none of them is empty: a source without rows forms no group.
   */
  lemma GroupsSpec(rows: seq<ScoredRow>)
    ensures Groups(rows).Keys == SourcesOf(rows)
    ensures forall s :: s in Groups(rows) ==> Groups(rows)[s] != []
  {
    forall s | s in Groups(rows) ensures Groups(rows)[s] != [] {
      GroupOfNonEmpty(rows, s);
    }
  }

  /** The total size of the groups of `keys`. */
  function GroupSizes(rows: seq<ScoredRow>, keys: seq<string>): nat
  {
    if keys == [] then 0 else GroupSizes(rows, keys[..|keys| - 1]) + |GroupOf(rows, keys[|keys| - 1])|
  }

  /** How often `s` occurs in `keys`. */
  function Occurrences(keys: seq<string>, s: string): nat
  {
    if keys == [] then 0 else Occurrences(keys[..|keys| - 1], s) + (if keys[|keys| - 1] == s then 1 else 0)
  }

  lemma {:induction false} OccursOnce(keys: seq<string>, s: string)
    requires Distinct(keys)
    ensures Occurrences(keys, s) == if s in keys then 1 else 0
  {
    if keys != [] {
      var init := keys[..|keys| - 1];
      OccursOnce(init, s);
      assert keys == init + [keys[|keys| - 1]];
    }
  }

  lemma {:induction false} GroupSizesStep(init: seq<ScoredRow>, row: ScoredRow, keys: seq<string>)
    ensures GroupSizes(init + [row], keys) == GroupSizes(init, keys) + Occurrences(keys, row.source)
  {
    assert (init + [row])[..|init|] == init;
    if keys != [] {
      GroupSizesStep(init, row, keys[..|keys| - 1]);
    }
  }

  /**
   * Grouping partitions the rows: for any listing of the group keys without
   * repetition, the group sizes add up to the number of rows, so each row
   * lands in exactly one group (the one of its own source).
   */
  lemma GroupsPartition(rows: seq<ScoredRow>, keys: seq<string>)
    requires Distinct(keys) && forall s :: s in keys <==> s in Groups(rows)
    ensures GroupSizes(rows, keys) == |rows|
  {
    GroupsSpec(rows);
    GroupsPartitionOver(rows, keys);
  }

  /** Without rows every group is empty. */
  lemma {:induction false} GroupsEmpty(keys: seq<string>)
    ensures GroupSizes([], keys) == 0
  {
    if keys != [] {
      GroupsEmpty(keys[..|keys| - 1]);
    }
  }

  /** The partition count also holds for keys that cover the sources and may include others. */
  lemma {:induction false} GroupsPartitionOver(rows: seq<ScoredRow>, keys: seq<string>)
    requires Distinct(keys) && SourcesOf(rows) <= set k | k in keys
    ensures GroupSizes(rows, keys) == |rows|
  {
    if rows == [] {
      GroupsEmpty(keys);
    } else {
      var init := rows[..|rows| - 1];
      var last := rows[|rows| - 1];
      assert rows == init + [last];
      assert SourcesOf(rows) == SourcesOf(init) + {last.source};
      GroupSizesStep(init, last, keys);
      OccursOnce(keys, last.source);
      GroupsPartitionOver(init, keys);
    }
  }

  /** The group of `source` holds the scores of that source's records, in record order. */
  lemma {:induction false} GroupOfScored(records: seq<Record>, compound: string -> real, source: string)
    ensures GroupOf(ScoreRecords(records, compound), source) == Scores(OfSource(records, source), compound)
  {
    if records != [] {
      var n := |records|;
      var init := records[..n - 1];
      GroupOfScored(init, compound, source);
      var rows := ScoreRecords(records, compound);
      assert rows[..n - 1] == ScoreRecords(init, compound);
      var before := OfSource(init, source);
      if records[n - 1].source == source {
        assert Scores(before + [records[n - 1]], compound) == Scores(before, compound) + [compound(records[n - 1].text)];
      }
    }
  }

  /**
   * Line 95 applied to the records of lines 66-75: the group of a configured
   * source holds the compound scores of that source's fetched articles, in
   * feed order, and the sources forming a group are exactly those whose
   * `fetch_articles` returned at least one article; an outlet with no
   * articles is absent from the test.
   */
  lemma OutletGroups(feeds: seq<Feed<string>>, compound: string -> real, f: nat)
    requires AllWellFormed(feeds) && Distinct(Sources(feeds)) && f < |feeds|
    ensures var groups := Groups(ScoreRecords(NewspaperFeed.Collected(feeds), compound));
      var source := feeds[f].source;
      var articles := NewspaperFeed.Articles(feeds[f]);
      (source in groups <==> articles != []) &&
      (source in groups ==> groups[source] == Scores(Tagged(source, articles), compound))
  {
    var records := NewspaperFeed.Collected(feeds);
    var rows := ScoreRecords(records, compound);
    var source := feeds[f].source;
    NewspaperFeed.RecordsSpec(feeds, f);
    GroupOfScored(records, compound, source);
    GroupOfNonEmpty(rows, source);
  }

  /** A name that is not a configured source never forms a group. */
  lemma NoStrayGroups(feeds: seq<Feed<string>>, compound: string -> real, source: string)
    requires AllWellFormed(feeds) && Distinct(Sources(feeds))
    requires source !in Sources(feeds)
    ensures source !in Groups(ScoreRecords(NewspaperFeed.Collected(feeds), compound))
  {
    var records := NewspaperFeed.Collected(feeds);
    RecordsOfOtherSource(Sources(feeds), FetchedAll(feeds, NewspaperFeed.DefaultMaxArticles, NewspaperFeed.ArticleText), source);
    GroupOfScored(records, compound, source);
    GroupOfNonEmpty(ScoreRecords(records, compound), source);
  }

  /**
   * The p-value `f_oneway` reports: a number, or NaN (which it reports for
   * degenerate groups, such as groups that each hold one value).
   */
  datatype PValue = Finite(p: real) | NaN

  /** The fixed significance level of line 98. */
  const SignificanceLevel: real := 0.05

  /** The two messages of lines 99 and 101. */
  datatype Verdict = SignificantDifference | NoSignificantDifference

  /** Lines 98-101: significant when `p_value < 0.05`; a NaN compares false and reads as no difference. */
  function Decide(p: PValue): Verdict
  {
    if p.Finite? && p.p < SignificanceLevel then SignificantDifference else NoSignificantDifference
  }

  /**
   * The verdict is "significant" exactly below 0.05: 0.05 itself and NaN are
   * "no significant difference", and a smaller p-value never turns a
   * significant verdict into its opposite.
   */
  lemma DecideSpec(p: real, q: real)
    ensures Decide(Finite(p)) == SignificantDifference <==> p < 0.05
    ensures Decide(Finite(0.05)) == NoSignificantDifference
    ensures Decide(NaN) == NoSignificantDifference
    ensures q <= p && Decide(Finite(p)) == SignificantDifference ==> Decide(Finite(q)) == SignificantDifference
  {
  }

  /**
   * Lines 95-101 as a whole: `f_oneway` raises TypeError when given fewer
   * than two groups, which ends the script before any verdict (None);
   * otherwise the verdict is `Decide` of the p-value it reports.
   */
  function Conclude(rows: seq<ScoredRow>, p: PValue): Option<Verdict>
  {
    if |Groups(rows)| < 2 then None else Some(Decide(p))
  }

  /** A verdict is reached exactly when the rows carry at least two different sources. */
  lemma ConcludeSpec(rows: seq<ScoredRow>, p: PValue)
    ensures Conclude(rows, p).Some? <==>
      exists i, j :: 0 <= i < |rows| && 0 <= j < |rows| && rows[i].source != rows[j].source
    ensures Conclude(rows, p).Some? ==> Conclude(rows, p) == Some(Decide(p))
  {
    GroupsSpec(rows);
    var keys := Groups(rows).Keys;
    if exists i, j :: 0 <= i < |rows| && 0 <= j < |rows| && rows[i].source != rows[j].source {
      var i, j :| 0 <= i < |rows| && 0 <= j < |rows| && rows[i].source != rows[j].source;
      assert rows[i] in rows && rows[j] in rows;
      assert {rows[i].source, rows[j].source} <= keys;
      assert |{rows[i].source, rows[j].source}| == 2;
      SubsetCardinality({rows[i].source, rows[j].source}, keys);
    } else if rows != [] {
      forall s | s in keys ensures s == rows[0].source {
        var r :| r in rows && r.source == s;
        var i :| 0 <= i < |rows| && rows[i] == r;
      }
      assert keys <= {rows[0].source};
      SubsetCardinality(keys, {rows[0].source});
    }
  }

  lemma SubsetCardinality(a: set<string>, b: set<string>)
    requires a <= b
    ensures |a| <= |b|
  {
    assert b == a + (b - a);
  }
}
