/** Small value types and sequence helpers shared by the three collection scripts. */
module Basics {

  /** A value that may be absent. */
  datatype Option<+T> = None | Some(value: T)

  function Min(a: int, b: int): int { if a <= b then a else b }

  function Max(a: int, b: int): int { if a <= b then b else a }

  /**
   * Python's prefix slice `s[:n]`. A non-negative `n` keeps the first `n`
   * elements (all of them when `s` is shorter); a negative `n` drops the
   * last `-n` elements, as Python does.
   */
  function Take<T>(s: seq<T>, n: int): (r: seq<T>)
    ensures r <= s
    ensures 0 <= n ==> |r| == Min(n, |s|)
    ensures n < 0 ==> |r| == Max(|s| + n, 0)
  {
    if 0 <= n then s[..Min(n, |s|)] else s[..Max(|s| + n, 0)]
  }

  /** Sum of the lengths of the parts, left to right. */
  function SumLengths<T>(parts: seq<seq<T>>): nat
  {
    if parts == [] then 0 else SumLengths(parts[..|parts| - 1]) + |parts[|parts| - 1]|
  }

  /** No element occurs twice. */
  ghost predicate Distinct<T>(s: seq<T>)
  {
    forall i, j :: 0 <= i < j < |s| ==> s[i] != s[j]
  }

  /**
   * Truncating an already truncated text to a shorter bound is the same as
   * truncating the original text to that bound.
   */
  lemma TakeTake<T>(s: seq<T>, n: nat, m: nat)
    requires m <= n
    ensures Take(Take(s, n), m) == Take(s, m)
  {
  }

  /** A prefix of a duplicate-free sequence is duplicate-free. */
  lemma DistinctTake<T>(s: seq<T>, n: int)
    requires Distinct(s)
    ensures Distinct(Take(s, n))
  {
  }

  /** A duplicate-free sequence has as many elements as the set of its elements. */
  lemma {:induction false} DistinctCardinality<T>(s: seq<T>)
    requires Distinct(s)
    ensures |set x | x in s| == |s|
  {
    if s != [] {
      var init := s[..|s| - 1];
      var last := s[|s| - 1];
      DistinctCardinality(init);
      assert (set x | x in s) == (set x | x in init) + {last};
      assert last !in init;
    }
  }
}
