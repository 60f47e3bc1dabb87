/** The Lagrange interpolator: three parallel sequences (nodes, values at the
    nodes, barycentric weights) and the operations that build, grow and
    evaluate them. The object the JavaScript class mutates in place is modelled
    as a value; every mutating operation returns the new state. */
module Interpolation {
  import opened Nodes
  import opened Weights

  /** Interpolator state: `xs` the nodes, `ys` the values at the nodes,
      `ws` the barycentric weights derived from `xs`. */
  datatype Lagrange = Lagrange(xs: seq<real>, ys: seq<real>, ws: seq<real>)

  /** The three sequences run in parallel. */
  predicate Shaped(l: Lagrange) {
    |l.ys| == |l.xs| && |l.ws| == |l.xs|
  }

  /** The class invariant: at least the two construction points, distinct
      nodes, and weights recomputed for the current nodes. */
  predicate Valid(l: Lagrange) {
    && Shaped(l)
    && |l.xs| >= 2
    && Distinct(l.xs)
    && l.ws == WeightsOf(l.xs)
  }

  /** Outcome of an evaluation. `Value(y)` is L(x); `ZeroDenominator(b)` is
      the case where the barycentric denominator summed to zero, on which the
      JavaScript division `b / c` yields an infinity or NaN. */
  datatype Eval = Value(y: real) | ZeroDenominator(numerator: real)

  /** Builds the interpolator through (x1, y1) and (x2, y2). */
  method New(x1: real, y1: real, x2: real, y2: real) returns (l: Lagrange)
    requires x1 != x2
    ensures l.xs == [x1, x2] && l.ys == [y1, y2]
    ensures l.ws == [1.0 / (x1 - x2), 1.0 / (x2 - x1)]
    ensures Valid(l)
  {
    var xs := [x1, x2];
    assert Distinct(xs);
    var ws := UpdateWeights(xs, []);
    assert ProdExcept(xs, 0, 1) == 1.0;
    assert ProdExcept(xs, 0, 2) == x1 - x2;
    assert ProdExcept(xs, 1, 1) == x2 - x1;
    assert ProdExcept(xs, 1, 2) == x2 - x1;
    assert ws == ws[..2];
    l := Lagrange(xs, [y1, y2], ws);
  }

  /** Appends the point (x, y), recomputes the weights and returns the index
      of the new point. */
  method AddPoint(l: Lagrange, x: real, y: real) returns (l': Lagrange, index: nat)
    requires Valid(l)
    requires x !in l.xs
    ensures l'.xs == l.xs + [x] && l'.ys == l.ys + [y]
    ensures index == |l.xs| && l'.xs[index] == x && l'.ys[index] == y
    ensures l'.xs[..|l.xs|] == l.xs && l'.ys[..|l.ys|] == l.ys
    ensures Valid(l')
    ensures Interpolate(l', x) == Value(y)
  {
    var xs := l.xs + [x];
    var ys := l.ys + [y];
    DistinctAppend(l.xs, x);
    var ws := UpdateWeights(xs, l.ws);
    l' := Lagrange(xs, ys, ws);
    index := |xs| - 1;
    InterpolatesNodes(l', index);
  }

  /** Numerator of the barycentric formula over the first n nodes:
      the sum of ws[j] / (x - xs[j]) * ys[j], accumulated in index order. */
  function BSum(l: Lagrange, x: real, n: nat): real
    requires Shaped(l) && n <= |l.xs|
    requires forall k :: 0 <= k < n ==> l.xs[k] != x
  {
    if n == 0 then 0.0
    else BSum(l, x, n - 1) + l.ws[n - 1] / (x - l.xs[n - 1]) * l.ys[n - 1]
  }

  /** Denominator of the barycentric formula over the first n nodes:
      the sum of ws[j] / (x - xs[j]), accumulated in index order. */
  function CSum(l: Lagrange, x: real, n: nat): real
    requires Shaped(l) && n <= |l.xs|
    requires forall k :: 0 <= k < n ==> l.xs[k] != x
  {
    if n == 0 then 0.0
    else CSum(l, x, n - 1) + l.ws[n - 1] / (x - l.xs[n - 1])
  }

  /** L(x) by the barycentric formula: the stored value of the first node
      equal to x, otherwise the quotient of the two sums. */
  function Interpolate(l: Lagrange, x: real): Eval
    requires Shaped(l)
  {
    match FirstIndex(l.xs, x)
    case Some(j) => Value(l.ys[j])
    case None =>
      var c := CSum(l, x, |l.xs|);
      if c == 0.0 then ZeroDenominator(BSum(l, x, |l.xs|))
      else Value(BSum(l, x, |l.xs|) / c)
  }

  /** When every value is v, the numerator is v times the denominator. */
  lemma {:induction false} ConstantSums(l: Lagrange, x: real, n: nat, v: real)
    requires Shaped(l) && n <= |l.xs|
    requires forall k :: 0 <= k < n ==> l.xs[k] != x
    requires forall k :: 0 <= k < n ==> l.ys[k] == v
    ensures BSum(l, x, n) == v * CSum(l, x, n)
  {
    if n > 0 {
      ConstantSums(l, x, n - 1, v);
    }
  }

  /** The barycentric formula reproduces constants: when every stored value
      is v, any value L(x) evaluates to is v, and a zero denominator comes
      with a zero numerator. */
  lemma ReproducesConstants(l: Lagrange, x: real, v: real)
    requires Shaped(l)
    requires forall k :: 0 <= k < |l.ys| ==> l.ys[k] == v
    ensures Interpolate(l, x).Value? ==> Interpolate(l, x) == Value(v)
    ensures Interpolate(l, x).ZeroDenominator? ==> Interpolate(l, x).numerator == 0.0
  {
    if FirstIndex(l.xs, x).None? {
      ConstantSums(l, x, |l.xs|, v);
    }
  }

  /** Evaluates L(x) with the interpolator's single left-to-right scan. The
      interpolator is a value, so the call leaves xs, ys and ws as they were. */
  method ValueOf(l: Lagrange, x: real) returns (r: Eval)
    requires Shaped(l)
    ensures r == Interpolate(l, x)
    ensures x in l.xs ==> r == Value(l.ys[FirstIndex(l.xs, x).value])
    ensures x !in l.xs && CSum(l, x, |l.xs|) != 0.0 ==> r == Value(BSum(l, x, |l.xs|) / CSum(l, x, |l.xs|))
    ensures x !in l.xs && CSum(l, x, |l.xs|) == 0.0 ==> r == ZeroDenominator(BSum(l, x, |l.xs|))
  {
    var a := 0.0;
    var b := 0.0;
    var c := 0.0;
    var len := |l.xs|;
    var j := 0;
    while j < len
      invariant 0 <= j <= len
      invariant forall k :: 0 <= k < j ==> l.xs[k] != x
      invariant b == BSum(l, x, j) && c == CSum(l, x, j)
    {
      if x != l.xs[j] {
        a := l.ws[j] / (x - l.xs[j]);
        b := b + a * l.ys[j];
        c := c + a;
      } else {
        FirstIndexIsEarliest(l.xs, x, j);
        return Value(l.ys[j]);
      }
      j := j + 1;
    }
    if c == 0.0 {
      r := ZeroDenominator(b);
    } else {
      r := Value(b / c);
    }
  }

  /** Interpolation property: with distinct nodes, evaluating at a node gives
      back exactly the value stored for it. */
  lemma InterpolatesNodes(l: Lagrange, j: nat)
    requires Shaped(l) && Distinct(l.xs)
    requires j < |l.xs|
    ensures Interpolate(l, l.xs[j]) == Value(l.ys[j])
  {
    FirstIndexOfNode(l.xs, j);
  }

  /** Without distinctness, a query equal to several nodes returns the value
      of the earliest of them. */
  lemma FirstNodeWins(l: Lagrange, x: real, j: nat)
    requires Shaped(l)
    requires j < |l.xs| && l.xs[j] == x
    requires forall k :: 0 <= k < j ==> l.xs[k] != x
    ensures Interpolate(l, x) == Value(l.ys[j])
  {
    FirstIndexIsEarliest(l.xs, x, j);
  }

  /** An entry of the array handed to addMultiPoints: a flag, then a point. */
  datatype Triple = Triple(flag: real, x: real, y: real)

  /** addMultiPoints adds a triple's point unless its flag is 0 or 1. */
  predicate Selected(t: Triple) {
    t.flag != 0.0 && t.flag != 1.0
  }

  /** The triples whose points get added, in array order. */
  function Chosen(arr: seq<Triple>): seq<Triple> {
    if |arr| == 0 then []
    else (if Selected(arr[0]) then [arr[0]] else []) + Chosen(arr[1..])
  }

  /** The x-coordinates of the given triples, in order. */
  function XsOf(ts: seq<Triple>): seq<real> {
    seq(|ts|, i requires 0 <= i < |ts| => ts[i].x)
  }

  /** The values of the given triples, in order. */
  function YsOf(ts: seq<Triple>): seq<real> {
    seq(|ts|, i requires 0 <= i < |ts| => ts[i].y)
  }

  /** Filtering a concatenation filters each part. */
  lemma {:induction false} ChosenAppend(a: seq<Triple>, b: seq<Triple>)
    ensures Chosen(a + b) == Chosen(a) + Chosen(b)
  {
    if |a| > 0 {
      assert (a + b)[1..] == a[1..] + b;
      ChosenAppend(a[1..], b);
    } else {
      assert a + b == b;
    }
  }

  /** Exactly the triples whose flag is neither 0 nor 1 are kept, in order,
      and nothing else appears. */
  lemma {:induction false} ChosenMembers(arr: seq<Triple>)
    ensures forall t :: t in Chosen(arr) <==> t in arr && Selected(t)
    ensures |Chosen(arr)| <= |arr|
  {
    if |arr| > 0 {
      ChosenMembers(arr[1..]);
      assert arr == [arr[0]] + arr[1..];
    }
  }

  /** The positions of the selected triples among the first n. */
  function SelectedIndices(arr: seq<Triple>, n: nat): set<nat>
    requires n <= |arr|
  {
    set i: nat | i < n && Selected(arr[i])
  }

  /** The number of points added is the number of selected triples. */
  lemma {:induction false} ChosenCount(arr: seq<Triple>)
    ensures |Chosen(arr)| == |SelectedIndices(arr, |arr|)|
  {
    if |arr| > 0 {
      var n := |arr| - 1;
      var front := arr[..n];
      assert arr == front + [arr[n]];
      ChosenAppend(front, [arr[n]]);
      assert Chosen([arr[n]]) == (if Selected(arr[n]) then [arr[n]] else []) + Chosen([]);
      ChosenCount(front);
      assert SelectedIndices(front, n) == SelectedIndices(arr, n);
      if Selected(arr[n]) {
        assert SelectedIndices(arr, n + 1) == SelectedIndices(arr, n) + {n};
      } else {
        assert SelectedIndices(arr, n + 1) == SelectedIndices(arr, n);
      }
    }
  }

  /** The filtered prefix grows by at most the next triple. */
  lemma ChosenStep(arr: seq<Triple>, i: nat)
    requires i < |arr|
    ensures Chosen(arr[..i + 1]) == Chosen(arr[..i]) + (if Selected(arr[i]) then [arr[i]] else [])
    ensures XsOf(Chosen(arr[..i + 1])) == XsOf(Chosen(arr[..i])) + (if Selected(arr[i]) then [arr[i].x] else [])
    ensures YsOf(Chosen(arr[..i + 1])) == YsOf(Chosen(arr[..i])) + (if Selected(arr[i]) then [arr[i].y] else [])
  {
    assert arr[..i + 1] == arr[..i] + [arr[i]];
    ChosenAppend(arr[..i], [arr[i]]);
    assert Chosen([arr[i]]) == (if Selected(arr[i]) then [arr[i]] else []) + Chosen([]);
    XsOfAppend(Chosen(arr[..i]), Chosen([arr[i]]));
    YsOfAppend(Chosen(arr[..i]), Chosen([arr[i]]));
  }

  lemma XsOfAppend(a: seq<Triple>, b: seq<Triple>)
    ensures XsOf(a + b) == XsOf(a) + XsOf(b)
  {
  }

  lemma YsOfAppend(a: seq<Triple>, b: seq<Triple>)
    ensures YsOf(a + b) == YsOf(a) + YsOf(b)
  {
  }

  /** The x-coordinates of a selected triple's point sit between those of the
      points chosen before it and those chosen after it. */
  lemma ChosenXsSplit(arr: seq<Triple>, i: nat)
    requires i < |arr| && Selected(arr[i])
    ensures XsOf(Chosen(arr)) == XsOf(Chosen(arr[..i])) + [arr[i].x] + XsOf(Chosen(arr[i + 1..]))
  {
    ChosenStep(arr, i);
    assert arr == arr[..i + 1] + arr[i + 1..];
    ChosenAppend(arr[..i + 1], arr[i + 1..]);
    XsOfAppend(Chosen(arr[..i + 1]), Chosen(arr[i + 1..]));
  }

  /** If all points to be added are distinct from each other and from the
      existing nodes, each one is fresh when its turn comes. */
  lemma NextIsFresh(xs: seq<real>, arr: seq<Triple>, i: nat)
    requires i < |arr| && Selected(arr[i])
    requires Distinct(xs + XsOf(Chosen(arr)))
    ensures arr[i].x !in xs + XsOf(Chosen(arr[..i]))
  {
    ChosenXsSplit(arr, i);
    DistinctSplit(xs, XsOf(Chosen(arr[..i])), arr[i].x, XsOf(Chosen(arr[i + 1..])));
  }

  /** Adds the point of every triple whose flag is neither 0 nor 1, in array
      order. The points added must be fresh and distinct from each other. */
  method AddMultiPoints(l: Lagrange, arr: seq<Triple>) returns (l': Lagrange)
    requires Valid(l)
    requires Distinct(l.xs + XsOf(Chosen(arr)))
    ensures l'.xs == l.xs + XsOf(Chosen(arr))
    ensures l'.ys == l.ys + YsOf(Chosen(arr))
    ensures Valid(l')
  {
    var len := |arr|;
    l' := l;
    var i := 0;
    while i < len
      invariant 0 <= i <= len
      invariant Valid(l')
      invariant l'.xs == l.xs + XsOf(Chosen(arr[..i]))
      invariant l'.ys == l.ys + YsOf(Chosen(arr[..i]))
    {
      var t := arr[i];
      ChosenStep(arr, i);
      if t.flag != 0.0 && t.flag != 1.0 {
        NextIsFresh(l.xs, arr, i);
        assert (l.xs + XsOf(Chosen(arr[..i]))) + [t.x] == l.xs + (XsOf(Chosen(arr[..i])) + [t.x]);
        assert (l.ys + YsOf(Chosen(arr[..i]))) + [t.y] == l.ys + (YsOf(Chosen(arr[..i])) + [t.y]);
        var index;
        l', index := AddPoint(l', t.x, t.y);
      }
      i := i + 1;
    }
    assert arr[..len] == arr;
  }
}
