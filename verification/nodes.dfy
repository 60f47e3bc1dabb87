/** Interpolation nodes: the x-coordinates of the control points, kept in
    insertion order. This module says when a node sequence is well formed
    (no x-coordinate twice) and how a query value is located among the nodes. */
module Nodes {

  datatype Option<+T> = None | Some(value: T)

  /** No two nodes share an x-coordinate. */
  predicate Distinct(xs: seq<real>) {
    forall i, k :: 0 <= i < k < |xs| ==> xs[i] != xs[k]
  }

  /** The index of the first node equal to `x`, scanning in index order. */
  function FirstIndex(xs: seq<real>, x: real): (r: Option<nat>)
    ensures r.None? <==> x !in xs
    ensures r.Some? ==> r.value < |xs| && xs[r.value] == x
    ensures r.Some? ==> forall k :: 0 <= k < r.value ==> xs[k] != x
  {
    if |xs| == 0 then None
    else if xs[0] == x then Some(0)
    else
      match FirstIndex(xs[1..], x)
      case None => None
      case Some(k) => Some(k + 1)
  }

  /** Any index holding `x` with no earlier copy of `x` is the one FirstIndex finds. */
  lemma FirstIndexIsEarliest(xs: seq<real>, x: real, j: nat)
    requires j < |xs| && xs[j] == x
    requires forall k :: 0 <= k < j ==> xs[k] != x
    ensures FirstIndex(xs, x) == Some(j)
  {
  }

  /** With distinct nodes every node is found at its own index. */
  lemma FirstIndexOfNode(xs: seq<real>, j: nat)
    requires Distinct(xs)
    requires j < |xs|
    ensures FirstIndex(xs, xs[j]) == Some(j)
  {
    FirstIndexIsEarliest(xs, xs[j], j);
  }

  /** Appending a fresh x-coordinate keeps the nodes distinct. */
  lemma DistinctAppend(xs: seq<real>, x: real)
    requires Distinct(xs)
    requires x !in xs
    ensures Distinct(xs + [x])
  {
    var ys := xs + [x];
    forall i, k | 0 <= i < k < |ys|
      ensures ys[i] != ys[k]
    {
      if k == |xs| {
        assert ys[i] == xs[i];
      }
    }
  }

  /** In a distinct sequence `p + (q + [x] + rest)`, the element `x` is fresh
      for `p + q`. */
  lemma DistinctSplit(p: seq<real>, q: seq<real>, x: real, rest: seq<real>)
    requires Distinct(p + (q + [x] + rest))
    ensures x !in p + q
  {
    var s := p + (q + [x] + rest);
    assert s[|p| + |q|] == x;
    forall i | 0 <= i < |p| + |q|
      ensures (p + q)[i] != x
    {
      assert s[i] == (p + q)[i];
    }
  }
}
