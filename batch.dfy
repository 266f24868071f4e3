/**
 * The shape shared by every collection loop in the scripts: walk the items in
 * order, run a step that may raise, append its result on success and skip the
 * item on an exception.
 */
module Batch {
  import opened Basics

  /** The result of an external step (download, parse, classification) that may raise. */
  datatype Outcome<+T> = Ok(value: T) | Fail

  /**
   * What a try-append-except-skip loop has appended after visiting `tries`,
   * where `tries[i]` is `Some(v)` when the try block for item `i` produced `v`
   * and `None` when it raised.
   */
  function Kept<T>(tries: seq<Option<T>>): (r: seq<T>)
    ensures |r| <= |tries|
    ensures forall x :: x in r ==> Some(x) in tries
  {
    if tries == [] then []
    else
      var last := tries[|tries| - 1];
      Kept(tries[..|tries| - 1]) + (if last.Some? then [last.value] else [])
  }

  /** The positions of the successful items, in visiting order. */
  function Successes<T>(tries: seq<Option<T>>): (idx: seq<nat>)
    ensures forall k :: 0 <= k < |idx| ==> idx[k] < |tries|
  {
    if tries == [] then []
    else Successes(tries[..|tries| - 1]) + (if tries[|tries| - 1].Some? then [|tries| - 1] else [])
  }

  ghost predicate Increasing(idx: seq<nat>)
  {
    forall a, b :: 0 <= a < b < |idx| ==> idx[a] < idx[b]
  }

  /** Successes are listed in increasing position. */
  lemma {:induction false} SuccessesIncreasing<T>(tries: seq<Option<T>>)
    ensures Increasing(Successes(tries))
  {
    if tries != [] {
      var init := tries[..|tries| - 1];
      SuccessesIncreasing(init);
    }
  }

  /** The k-th kept value is the value of the k-th success. */
  lemma {:induction false} KeptAligned<T>(tries: seq<Option<T>>)
    ensures |Kept(tries)| == |Successes(tries)|
    ensures forall k :: 0 <= k < |Successes(tries)| ==>
      tries[Successes(tries)[k]] == Some(Kept(tries)[k])
  {
    if tries != [] {
      var init := tries[..|tries| - 1];
      KeptAligned(init);
      var m := |Successes(init)|;
      forall k | 0 <= k < |Successes(tries)|
        ensures tries[Successes(tries)[k]] == Some(Kept(tries)[k])
      {
        if k < m {
          assert Successes(tries)[k] == Successes(init)[k];
          assert Kept(tries)[k] == Kept(init)[k];
          assert init[Successes(init)[k]] == tries[Successes(init)[k]];
        }
      }
    }
  }

  /** No success is missing from the list of successes. */
  lemma {:induction false} SuccessesComplete<T>(tries: seq<Option<T>>)
    ensures forall i :: 0 <= i < |tries| && tries[i].Some? ==> i in Successes(tries)
  {
    if tries != [] {
      var init := tries[..|tries| - 1];
      SuccessesComplete(init);
      assert forall i :: 0 <= i < |init| ==> init[i] == tries[i];
    }
  }

  /**
   * The loop keeps exactly the successful items, in their original order:
   * the k-th kept value is the value of the k-th success, the successes are
   * listed in increasing position, and no success is missing.
   */
  lemma KeptExactly<T>(tries: seq<Option<T>>)
    ensures |Kept(tries)| == |Successes(tries)|
    ensures Increasing(Successes(tries))
    ensures forall k :: 0 <= k < |Successes(tries)| ==>
      tries[Successes(tries)[k]] == Some(Kept(tries)[k])
    ensures forall i :: 0 <= i < |tries| && tries[i].Some? ==> i in Successes(tries)
  {
    KeptAligned(tries);
    SuccessesIncreasing(tries);
    SuccessesComplete(tries);
  }

  /** Every item's try block raising leaves nothing; every one succeeding keeps them all. */
  lemma {:induction false} KeptExtremes<T>(tries: seq<Option<T>>)
    ensures (forall i :: 0 <= i < |tries| ==> tries[i].None?) ==> Kept(tries) == []
    ensures (forall i :: 0 <= i < |tries| ==> tries[i].Some?) ==> |Kept(tries)| == |tries|
  {
    if tries != [] {
      var init := tries[..|tries| - 1];
      KeptExtremes(init);
      assert forall i :: 0 <= i < |init| ==> init[i] == tries[i];
    }
  }

  /** Visiting one more item extends what was kept by that item's value, if it succeeded. */
  lemma KeptStep<T>(tries: seq<Option<T>>, i: nat)
    requires i < |tries|
    ensures Kept(tries[..i + 1]) == Kept(tries[..i]) + (if tries[i].Some? then [tries[i].value] else [])
  {
    assert tries[..i + 1][..i] == tries[..i];
  }
}
