/** What the interpolator computes in small, fixed cases: the two-point
    interpolant is the straight line through its points, the usage example in
    the class's doc comment evaluates to an exact value, and addMultiPoints
    skips the triples flagged 0 or 1. */
module WorkedCases {
  import opened Nodes
  import opened Weights
  import opened Interpolation

  /** The weights of two nodes are the reciprocals of their two differences. */
  lemma TwoPointWeights(x1: real, x2: real)
    requires x1 != x2
    ensures Distinct([x1, x2])
    ensures WeightsOf([x1, x2]) == [1.0 / (x1 - x2), 1.0 / (x2 - x1)]
  {
    var xs := [x1, x2];
    assert ProdExcept(xs, 0, 1) == 1.0;
    assert ProdExcept(xs, 0, 2) == x1 - x2;
    assert ProdExcept(xs, 1, 1) == x2 - x1;
    assert ProdExcept(xs, 1, 2) == x2 - x1;
  }

  /** The algebra behind the two-point denominator: with weights
      w0 = 1 / (x1 - x2) and w1 = 1 / (x2 - x1), the sum of
      w0 / (x - x1) and w1 / (x - x2) is 1 / ((x - x1) * (x - x2)). */
  lemma DenominatorAlgebra(x1: real, x2: real, x: real, w0: real, w1: real)
    requires x1 != x2 && x != x1 && x != x2
    requires w0 == 1.0 / (x1 - x2) && w1 == 1.0 / (x2 - x1)
    ensures (0.0 + w0 / (x - x1) + w1 / (x - x2)) * (x - x1) * (x - x2) == 1.0
    ensures 0.0 + w0 / (x - x1) + w1 / (x - x2) != 0.0
  {
    var d1 := x - x1;
    var d2 := x - x2;
    assert w1 == -w0;
    calc {
      (0.0 + w0 / d1 + w1 / d2) * d1 * d2;
      (w0 / d1) * d1 * d2 - (w0 / d2) * d1 * d2;
      { assert (w0 / d1) * d1 == w0; assert (w0 / d2) * d2 == w0; }
      w0 * d2 - w0 * d1;
      w0 * (x1 - x2);
      1.0;
    }
  }

  /** The algebra behind the two-point quotient: dividing the numerator sum
      by the denominator sum gives the line through (x1, y1) and (x2, y2). */
  lemma QuotientAlgebra(x1: real, x2: real, y1: real, y2: real, x: real, w0: real, w1: real, c: real)
    requires x1 != x2 && x != x1 && x != x2
    requires w0 == 1.0 / (x1 - x2) && w1 == 1.0 / (x2 - x1)
    requires c * (x - x1) * (x - x2) == 1.0
    ensures (0.0 + w0 / (x - x1) * y1 + w1 / (x - x2) * y2) / c
         == y1 + (y2 - y1) * (x - x1) / (x2 - x1)
  {
    var d1 := x - x1;
    var d2 := x - x2;
    var b := 0.0 + w0 / d1 * y1 + w1 / d2 * y2;
    assert w1 == -w0;
    assert b / c == b * (d1 * d2);
    calc {
      b * (d1 * d2);
      (w0 / d1) * d1 * d2 * y1 - (w0 / d2) * d2 * d1 * y2;
      { assert (w0 / d1) * d1 == w0; assert (w0 / d2) * d2 == w0; }
      w0 * (y1 * d2 - y2 * d1);
      { assert w0 * d2 == 1.0 + w0 * d1; }
      y1 * (1.0 + w0 * d1) - w0 * y2 * d1;
      y1 + (y2 - y1) * d1 * w1;
      y1 + (y2 - y1) * d1 / (x2 - x1);
    }
  }

  /** The two barycentric sums over two nodes, written out. */
  lemma TwoPointSums(l: Lagrange, x: real)
    requires Shaped(l) && |l.xs| == 2
    requires x !in l.xs
    ensures FirstIndex(l.xs, x) == None
    ensures CSum(l, x, 2) == 0.0 + l.ws[0] / (x - l.xs[0]) + l.ws[1] / (x - l.xs[1])
    ensures BSum(l, x, 2) == 0.0 + l.ws[0] / (x - l.xs[0]) * l.ys[0] + l.ws[1] / (x - l.xs[1]) * l.ys[1]
  {
    assert CSum(l, x, 1) == 0.0 + l.ws[0] / (x - l.xs[0]);
    assert BSum(l, x, 1) == 0.0 + l.ws[0] / (x - l.xs[0]) * l.ys[0];
  }

  /** With two nodes the denominator never vanishes off the nodes (it is the
      reciprocal of (x - x1) * (x - x2)), and the interpolant is the straight
      line through the two points. */
  lemma TwoPointIsLine(l: Lagrange, x: real)
    requires Valid(l) && |l.xs| == 2
    requires x !in l.xs
    ensures CSum(l, x, 2) * (x - l.xs[0]) * (x - l.xs[1]) == 1.0
    ensures Interpolate(l, x)
         == Value(l.ys[0] + (l.ys[1] - l.ys[0]) * (x - l.xs[0]) / (l.xs[1] - l.xs[0]))
  {
    var x1, x2, y1, y2 := l.xs[0], l.xs[1], l.ys[0], l.ys[1];
    var w0, w1 := l.ws[0], l.ws[1];
    TwoPointSums(l, x);
    assert l.xs == [x1, x2];
    TwoPointWeights(x1, x2);
    assert w0 == 1.0 / (x1 - x2) && w1 == 1.0 / (x2 - x1);
    var c := CSum(l, x, 2);
    DenominatorAlgebra(x1, x2, x, w0, w1);
    QuotientAlgebra(x1, x2, y1, y2, x, w0, w1, c);
  }

  /** The interpolator through (0, 0) and (1, 1) is the identity line:
      at 0.5 it gives exactly 0.5. */
  lemma UnitLineMidpoint(l: Lagrange)
    requires Valid(l)
    requires l.xs == [0.0, 1.0] && l.ys == [0.0, 1.0]
    ensures l.ws == [-1.0, 1.0]
    ensures Interpolate(l, 0.5) == Value(0.5)
  {
    TwoPointWeights(0.0, 1.0);
    TwoPointIsLine(l, 0.5);
  }

  /** The example of the class's doc comment: after adding (0.5, 0.8) to the
      interpolator through (0, 0) and (1, 1), the weights are 2, 2 and -4 and
      L(0.1) is exactly 0.208, the value at 0.1 of the parabola
      -1.2 x^2 + 2.2 x through the three points. */
  lemma DocExample(l: Lagrange)
    requires Valid(l)
    requires l.xs == [0.0, 1.0, 0.5] && l.ys == [0.0, 1.0, 0.8]
    ensures l.ws == [2.0, 2.0, -4.0]
    ensures Interpolate(l, 0.1) == Value(0.208)
  {
    var xs := l.xs;
    assert ProdExcept(xs, 0, 1) == 1.0;
    assert ProdExcept(xs, 0, 2) == -1.0;
    assert ProdExcept(xs, 0, 3) == 0.5;
    assert ProdExcept(xs, 1, 1) == 1.0;
    assert ProdExcept(xs, 1, 2) == 1.0;
    assert ProdExcept(xs, 1, 3) == 0.5;
    assert ProdExcept(xs, 2, 1) == 0.5;
    assert ProdExcept(xs, 2, 2) == -0.25;
    assert ProdExcept(xs, 2, 3) == -0.25;
    assert l.ws[0] == 2.0 && l.ws[1] == 2.0 && l.ws[2] == -4.0;
    assert FirstIndex(xs, 0.1) == None;
    assert CSum(l, 0.1, 1) == 20.0;
    assert CSum(l, 0.1, 2) == 20.0 - 20.0 / 9.0;
    assert CSum(l, 0.1, 3) == 250.0 / 9.0;
    assert BSum(l, 0.1, 1) == 0.0;
    assert BSum(l, 0.1, 2) == -20.0 / 9.0;
    assert BSum(l, 0.1, 3) == 52.0 / 9.0;
  }

  /** Four triples flagged 0, 1, 2 and 3, with points (1, 1) to (4, 4). */
  const FlaggedTriples: seq<Triple> :=
    [Triple(0.0, 1.0, 1.0), Triple(1.0, 2.0, 2.0), Triple(2.0, 3.0, 3.0), Triple(3.0, 4.0, 4.0)]

  /** Of the triples flagged 0, 1, 2 and 3, only the last two have their
      points added, and they can be added to the interpolator through
      (0, 0) and (1, 1). */
  lemma FilterExample()
    ensures Chosen(FlaggedTriples) == [Triple(2.0, 3.0, 3.0), Triple(3.0, 4.0, 4.0)]
    ensures Distinct([0.0, 1.0] + XsOf(Chosen(FlaggedTriples)))
  {
  }
}
