/** Positions in a sequence: the increasing list of the indices whose
    element passes a test. The model uses it to say that a loop which
    filters its input keeps the surviving elements in order and each
    exactly once. */
module Seqs {

  predicate Increasing(idx: seq<nat>) {
    forall k, k' :: 0 <= k < k' < |idx| ==> idx[k] < idx[k']
  }

  /** Every index moved one place on. */
  function Shift(idx: seq<nat>): (r: seq<nat>)
    ensures |r| == |idx| && forall k :: 0 <= k < |idx| ==> r[k] == idx[k] + 1
  {
    seq(|idx|, k requires 0 <= k < |idx| => idx[k] + 1)
  }

  /** The indices of the elements of `xs` that pass `keep`, in order. */
  function Positions<T>(xs: seq<T>, keep: T -> bool): seq<nat>
    decreases |xs|
  {
    if xs == [] then []
    else
      var rest := Shift(Positions(xs[1..], keep));
      if keep(xs[0]) then [0] + rest else rest
  }

  /** `idx` lists, in increasing order, exactly the indices of the elements
      of `xs` that pass `keep`. */
  predicate PositionsOf<T>(xs: seq<T>, keep: T -> bool, idx: seq<nat>) {
    && (forall k :: 0 <= k < |idx| ==> idx[k] < |xs| && keep(xs[idx[k]]))
    && Increasing(idx)
    && (forall i :: 0 <= i < |xs| && keep(xs[i]) ==> i in idx)
  }

  lemma PositionsCorrect<T>(xs: seq<T>, keep: T -> bool)
    ensures PositionsOf(xs, keep, Positions(xs, keep))
  {
    PositionsPass(xs, keep);
    PositionsIncrease(xs, keep);
    PositionsComplete(xs, keep);
  }

  lemma {:induction false} PositionsPass<T>(xs: seq<T>, keep: T -> bool)
    ensures forall k :: 0 <= k < |Positions(xs, keep)| ==>
              Positions(xs, keep)[k] < |xs| && keep(xs[Positions(xs, keep)[k]])
    decreases |xs|
  {
    if xs != [] {
      var tail := Positions(xs[1..], keep);
      PositionsPass(xs[1..], keep);
      var rest := Shift(tail);
      forall k | 0 <= k < |rest|
        ensures rest[k] < |xs| && keep(xs[rest[k]])
      {
        assert xs[rest[k]] == xs[1..][tail[k]];
      }
      if keep(xs[0]) {
        var idx := [0] + rest;
        assert forall k :: 0 < k < |idx| ==> idx[k] == rest[k - 1];
      }
    }
  }

  lemma {:induction false} PositionsIncrease<T>(xs: seq<T>, keep: T -> bool)
    ensures Increasing(Positions(xs, keep))
    decreases |xs|
  {
    if xs != [] {
      PositionsIncrease(xs[1..], keep);
      var rest := Shift(Positions(xs[1..], keep));
      if keep(xs[0]) {
        var idx := [0] + rest;
        assert forall k :: 0 < k < |idx| ==> idx[k] == rest[k - 1];
      }
    }
  }

  lemma {:induction false} PositionsComplete<T>(xs: seq<T>, keep: T -> bool)
    ensures forall i :: 0 <= i < |xs| && keep(xs[i]) ==> i in Positions(xs, keep)
    decreases |xs|
  {
    if xs != [] {
      var tail := Positions(xs[1..], keep);
      PositionsComplete(xs[1..], keep);
      var rest := Shift(tail);
      forall i | 1 <= i < |xs| && keep(xs[i])
        ensures i in rest
      {
        assert xs[1..][i - 1] == xs[i];
        var k :| 0 <= k < |tail| && tail[k] == i - 1;
        assert rest[k] == i;
      }
    }
  }
}
