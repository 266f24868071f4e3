/** Python string operations used by the scripts, on `seq<char>`. */
module Strings {
  import opened Basics

  /** `s.startswith(p)`. */
  predicate StartsWith(s: string, p: string)
  {
    p <= s
  }

  /** `p in s`: `p` occurs somewhere in `s` as a contiguous substring. */
  predicate Contains(s: string, p: string)
    decreases |s|
  {
    p <= s || (s != [] && Contains(s[1..], p))
  }

  /** `p` occurs in `s` exactly at offset `i`. */
  ghost predicate OccursAt(s: string, p: string, i: int)
  {
    0 <= i <= |s| && p <= s[i..]
  }

  /** `Contains` holds exactly when `p` occurs at some offset. */
  lemma {:induction false} ContainsIffOccurs(s: string, p: string)
    ensures Contains(s, p) <==> exists i :: OccursAt(s, p, i)
    decreases |s|
  {
    if p <= s {
      assert OccursAt(s, p, 0);
    } else if s == [] {
    } else {
      ContainsIffOccurs(s[1..], p);
      if Contains(s[1..], p) {
        var i :| OccursAt(s[1..], p, i);
        assert s[1..][i..] == s[i + 1..];
        assert OccursAt(s, p, i + 1);
      } else {
        forall i | OccursAt(s, p, i) ensures false {
          assert i != 0;
          assert s[1..][i - 1..] == s[i..];
          assert OccursAt(s[1..], p, i - 1);
        }
      }
    }
  }

  /** `sep.join(parts)`: the parts in order with `sep` between neighbours. */
  function Join(sep: string, parts: seq<string>): (r: string)
  {
    if |parts| == 0 then ""
    else if |parts| == 1 then parts[0]
    else Join(sep, parts[..|parts| - 1]) + sep + parts[|parts| - 1]
  }

  /** Where part `k` starts in `Join(sep, parts)`: after the earlier parts and one separator each. */
  function JoinOffset(sep: string, parts: seq<string>, k: nat): nat
    requires k <= |parts|
  {
    SumLengths(parts[..k]) + k * |sep|
  }

  /** The joined text is as long as the parts plus one separator between each pair of neighbours. */
  lemma {:induction false} JoinLength(sep: string, parts: seq<string>)
    ensures parts == [] ==> Join(sep, parts) == ""
    ensures parts != [] ==> |Join(sep, parts)| == SumLengths(parts) + (|parts| - 1) * |sep|
  {
    if |parts| == 1 {
      assert parts[..0] == [];
    } else if |parts| > 1 {
      JoinLength(sep, parts[..|parts| - 1]);
    }
  }

  lemma SumLengthsStep<T>(parts: seq<seq<T>>, k: nat)
    requires k < |parts|
    ensures SumLengths(parts[..k + 1]) == SumLengths(parts[..k]) + |parts[k]|
  {
    assert parts[..k + 1][..k] == parts[..k];
  }

  /** Joining the first `k` parts gives a prefix of joining them all. */
  lemma {:induction false} JoinPrefix(sep: string, parts: seq<string>, k: nat)
    requires 1 <= k <= |parts|
    ensures Join(sep, parts[..k]) <= Join(sep, parts)
  {
    var n := |parts|;
    if k == n {
      assert parts[..k] == parts;
    } else {
      var init := parts[..n - 1];
      JoinPrefix(sep, init, k);
      assert init[..k] == parts[..k];
    }
  }

  /** Each part moves the next part's offset by its own length and one separator. */
  lemma JoinOffsetStep(sep: string, parts: seq<string>, k: nat)
    requires k < |parts|
    ensures JoinOffset(sep, parts, k + 1) == JoinOffset(sep, parts, k) + |parts[k]| + |sep|
  {
    SumLengthsStep(parts, k);
    assert (k + 1) * |sep| == k * |sep| + |sep|;
  }

  /** Joining the first `k + 1` parts ends with part `k`, which starts at `JoinOffset(sep, parts, k)`. */
  lemma JoinUpTo(sep: string, parts: seq<string>, k: nat)
    requires k < |parts|
    ensures |Join(sep, parts[..k + 1])| == JoinOffset(sep, parts, k) + |parts[k]|
    ensures Join(sep, parts[..k + 1])[JoinOffset(sep, parts, k)..] == parts[k]
  {
    var upto := Join(sep, parts[..k + 1]);
    if k == 0 {
      assert parts[..0] == [];
      assert upto == parts[0];
    } else {
      assert parts[..k + 1][..k] == parts[..k];
      assert upto == Join(sep, parts[..k]) + sep + parts[k];
      JoinLength(sep, parts[..k]);
      JoinOffsetStep(sep, parts, k - 1);
      SumLengthsStep(parts, k - 1);
      assert k * |sep| == (k - 1) * |sep| + |sep|;
    }
  }

  /**
   * Layout of the joined text: part `k` sits at `JoinOffset(sep, parts, k)`.
   * With `JoinSeparator` and `JoinLength` this determines the joined text.
   */
  lemma JoinPart(sep: string, parts: seq<string>, k: nat)
    requires k < |parts|
    ensures JoinOffset(sep, parts, k) + |parts[k]| <= |Join(sep, parts)|
    ensures Join(sep, parts)[JoinOffset(sep, parts, k)..JoinOffset(sep, parts, k) + |parts[k]|] == parts[k]
  {
    JoinPrefix(sep, parts, k + 1);
    JoinUpTo(sep, parts, k);
  }

  /** Every part but the last is followed by exactly one separator. */
  lemma JoinSeparator(sep: string, parts: seq<string>, k: nat)
    requires k + 1 < |parts|
    ensures JoinOffset(sep, parts, k + 1) == JoinOffset(sep, parts, k) + |parts[k]| + |sep|
    ensures JoinOffset(sep, parts, k + 1) <= |Join(sep, parts)|
    ensures Join(sep, parts)[JoinOffset(sep, parts, k) + |parts[k]|..JoinOffset(sep, parts, k + 1)] == sep
  {
    JoinOffsetStep(sep, parts, k);
    JoinUpTo(sep, parts, k);
    var upto := Join(sep, parts[..k + 1]);
    var next := Join(sep, parts[..k + 2]);
    JoinPrefix(sep, parts, k + 2);
    assert parts[..k + 2][..k + 1] == parts[..k + 1];
    assert next == upto + sep + parts[k + 1];
    assert next[|upto|..|upto| + |sep|] == sep;
  }
}
