/** Barycentric weights. The weight of node j is the reciprocal of the product
    of its distances to every other node, taken in index order. */
module Weights {
  import opened Nodes

  /** The product over i < n, i != j, of (xs[j] - xs[i]), multiplied in the
      order the interpolator's inner loop visits the nodes. */
  function ProdExcept(xs: seq<real>, j: nat, n: nat): real
    requires j < |xs| && n <= |xs|
  {
    if n == 0 then 1.0
    else if n - 1 == j then ProdExcept(xs, j, n - 1)
    else ProdExcept(xs, j, n - 1) * (xs[j] - xs[n - 1])
  }

  /** With distinct nodes no factor vanishes, so the product is non-zero. */
  lemma {:induction false} ProdExceptNonZero(xs: seq<real>, j: nat, n: nat)
    requires Distinct(xs)
    requires j < |xs| && n <= |xs|
    ensures ProdExcept(xs, j, n) != 0.0
  {
    if n > 0 {
      ProdExceptNonZero(xs, j, n - 1);
      if n - 1 != j {
        assert xs[j] != xs[n - 1];
      }
    }
  }

  /** The product vanishes exactly when some other node among the first n
      coincides with node j. */
  lemma {:induction false} ProdExceptZero(xs: seq<real>, j: nat, n: nat)
    requires j < |xs| && n <= |xs|
    ensures ProdExcept(xs, j, n) == 0.0 <==> exists i :: 0 <= i < n && i != j && xs[i] == xs[j]
  {
    if n > 0 {
      ProdExceptZero(xs, j, n - 1);
      if n - 1 != j && xs[n - 1] == xs[j] {
        assert ProdExcept(xs, j, n) == 0.0;
      }
    }
  }

  /** The barycentric weight of node j. */
  function Weight(xs: seq<real>, j: nat): (w: real)
    requires Distinct(xs)
    requires j < |xs|
    ensures w != 0.0
    ensures w * ProdExcept(xs, j, |xs|) == 1.0
  {
    ProdExceptNonZero(xs, j, |xs|);
    1.0 / ProdExcept(xs, j, |xs|)
  }

  /** The weight of every node, in node order: what the weights must be
      after every recomputation. */
  function WeightsOf(xs: seq<real>): (ws: seq<real>)
    requires Distinct(xs)
    ensures |ws| == |xs|
    ensures forall j :: 0 <= j < |xs| ==> ws[j] * ProdExcept(xs, j, |xs|) == 1.0
  {
    seq(|xs|, j requires 0 <= j < |xs| => Weight(xs, j))
  }

  /** Recomputes the weights in place: `ws0` is the weight array before the
      call, and entry j is overwritten (or, at the end of the array, appended)
      for every node j. Entries past the last node are left as they were. */
  method UpdateWeights(xs: seq<real>, ws0: seq<real>) returns (ws: seq<real>)
    requires Distinct(xs)
    ensures |ws| == if |ws0| <= |xs| then |xs| else |ws0|
    ensures ws[..|xs|] == WeightsOf(xs)
    ensures forall k :: |xs| <= k < |ws| ==> ws[k] == ws0[k]
  {
    var len := |xs|;
    ws := ws0;
    var j := 0;
    while j < len
      invariant 0 <= j <= len
      invariant |ws| == if |ws0| <= j then j else |ws0|
      invariant forall k :: 0 <= k < j ==> ws[k] == Weight(xs, k)
      invariant forall k :: j <= k < |ws| ==> ws[k] == ws0[k]
    {
      var weight := 1.0;
      var i := 0;
      while i < len
        invariant 0 <= i <= len
        invariant weight == ProdExcept(xs, j, i)
      {
        if i != j {
          weight := weight * (xs[j] - xs[i]);
        }
        i := i + 1;
      }
      ProdExceptNonZero(xs, j, len);
      if j < |ws| {
        ws := ws[j := 1.0 / weight];
      } else {
        ws := ws + [1.0 / weight];
      }
      j := j + 1;
    }
  }

  /** The weights depend only on the nodes: recomputing them a second time,
      with nothing changed in between, reproduces them exactly. */
  method UpdateWeightsTwice(xs: seq<real>, ws0: seq<real>) returns (first: seq<real>, second: seq<real>)
    requires Distinct(xs)
    ensures first == second
    ensures |first| >= |xs| && first[..|xs|] == WeightsOf(xs)
  {
    first := UpdateWeights(xs, ws0);
    second := UpdateWeights(xs, first);
  }
}
