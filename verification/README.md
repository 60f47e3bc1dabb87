# Barycentric Lagrange interpolator — a Dafny model

The repository contains a Lagrange polynomial interpolator
(`src/effects/lagrange.js`, class `Lagrange`) that uses the barycentric form.
The interpolator keeps three parallel arrays: the nodes `xs`,
the values `ys` at the nodes, and the barycentric weights `ws`, which are
derived from `xs`. It is built from two points. `addPoint` appends a point and
recomputes every weight. `valueOf` evaluates L(x) with the barycentric
formula and returns a node's stored value directly when `x` hits that node.
`addMultiPoints` appends the point of every `(flag, x, y)` triple whose flag
is neither 0 nor 1.

This project models that class in Dafny and proves properties of the model.

- `nodes.dfy` (module `Nodes`) defines when nodes are distinct and finds the
  first node equal to a query value.
- `weights.dfy` (module `Weights`) defines the weight product and the weights.
  It models `updateWeights` as a loop that overwrites or appends one entry
  per node.
- `lagrange.dfy` (module `Interpolation`) holds the interpolator state, the
  class invariant, construction, `addPoint`, `valueOf` and `addMultiPoints`.
  It also gives a functional reference definition, `Interpolate`, for the
  evaluation.
- `worked_cases.dfy` (module `WorkedCases`) works through fixed cases. With
  two nodes, the interpolant is the line through the two points. The doc
  comment's example evaluates to exactly 0.208 at 0.1, which is the value of
  the parabola -1.2x² + 2.2x through (0, 0), (1, 1) and (0.5, 0.8). Of the
  triples flagged 0, 1, 2 and 3, only the last two are added.

Modelling decisions:

- Numbers are Dafny `real`. That is exact arithmetic, not IEEE-754 doubles.
- The JavaScript object is mutated in place. Here it is a value: every
  mutating operation returns the new state. `valueOf` returns only its
  result, so it cannot change `xs`, `ys` or `ws`.
- The class never checks that nodes are distinct. With a repeated node,
  `updateWeights` silently computes `1 / 0`. The model therefore makes
  distinct nodes part of the class invariant `Valid` and a precondition of
  every operation that adds nodes. Under that invariant every weight
  division is well defined (`Weights.ProdExceptNonZero`).
- The division inside the `valueOf` loop never divides by zero: the
  exact-match branch returns before it.
- The final `b / c` of `valueOf` is not claimed to be safe. The result type
  `Eval` is either `Value(y)` or `ZeroDenominator(b)`. The second case stands
  for the Infinity or NaN that JavaScript produces when `c` is 0. For two
  nodes, `c` is proved non-zero off the nodes (`WorkedCases.TwoPointIsLine`).

## Model

| member | source | states |
|---|---|---|
| `Interpolation.Valid` | src/effects/lagrange.js:18-51 | Defines the class invariant: the three arrays have the same length, there are at least the two construction points, the nodes are distinct, and `ws` is `WeightsOf(xs)`. `New`, `AddPoint` and `AddMultiPoints` establish it. |
| `Interpolation.New` | src/effects/lagrange.js:18-23 | Construction from two points with distinct x gives `xs == [x1, x2]` and `ys == [y1, y2]`. Its two weights are `1/(x1-x2)` and `1/(x2-x1)`, and the class invariant holds. |
| `Interpolation.AddPoint` | src/effects/lagrange.js:29-34 | Appends `x` and `y`, so the old points stay an unchanged prefix. Returns the old length, which is the index of the new point. Keeps the class invariant, including recomputed weights. Evaluating at the new `x` then gives exactly `y`. |
| `Weights.UpdateWeights` | src/effects/lagrange.js:39-51 | Overwrites, or appends at the end, entry `j` for every node `j`. Afterwards the first entries are exactly `WeightsOf(xs)`, so `ws[j] * Π_{i≠j}(xs[j]-xs[i]) == 1` for every node, and the length is the larger of the old length and the node count. Entries past the last node are left as they were. |
| `Weights.UpdateWeightsTwice` | src/effects/lagrange.js:39-51 | Recomputing the weights a second time, with the nodes unchanged, yields the same weights. |
| `Weights.ProdExcept` | src/effects/lagrange.js:43-48 | Defines the inner loop's product over `i < n`, `i != j`, of `xs[j] - xs[i]`, multiplied in index order. |
| `Weights.ProdExceptZero` | src/effects/lagrange.js:43-48 | The product is zero if and only if another of the first `n` nodes equals node `j`. |
| `Weights.ProdExceptNonZero` | src/effects/lagrange.js:42-49 | With distinct nodes, the product over the other nodes is non-zero, so `1 / weight` is defined. |
| `Weights.Weight` | src/effects/lagrange.js:49 | A node's weight is non-zero and is the multiplicative inverse of its product of differences. |
| `Weights.WeightsOf` | src/effects/lagrange.js:39-51 | There is one weight per node, and each is the inverse of that node's product of differences. |
| `Nodes.FirstIndex` | src/effects/lagrange.js:61-68 | The scan finds nothing exactly when `x` is not a node. Otherwise it returns the smallest index holding `x`. |
| `Interpolation.BSum` | src/effects/lagrange.js:61-65 | Defines the numerator `b` after the first `n` nodes: the sum of `ws[j] / (x - xs[j]) * ys[j]`, added in index order. |
| `Interpolation.CSum` | src/effects/lagrange.js:61-65 | Defines the denominator `c` after the first `n` nodes: the sum of `ws[j] / (x - xs[j])`, added in index order. |
| `Interpolation.Interpolate` | src/effects/lagrange.js:56-71 | Defines L(x) functionally: the value of the first node equal to `x`, otherwise `b / c` over all nodes, or `ZeroDenominator(b)` when `c` is 0. |
| `Interpolation.ConstantSums` | src/effects/lagrange.js:62-65 | When every value is `v`, the numerator is `v` times the denominator. |
| `Interpolation.ReproducesConstants` | src/effects/lagrange.js:56-71 | The barycentric formula reproduces constants. When every stored value is `v`, any value L(x) takes is exactly `v`, and a zero denominator comes with a zero numerator. |
| `Interpolation.ValueOf` | src/effects/lagrange.js:56-71 | The left-to-right scan returns the `y` of the first node equal to `x`. Otherwise it returns `Value(b / c)`, where `b` and `c` are the barycentric sums accumulated in index order. If `c == 0` it reports `ZeroDenominator(b)`. The result agrees with the reference `Interpolate`. |
| `Interpolation.InterpolatesNodes` | src/effects/lagrange.js:62-67 | With distinct nodes, evaluating at node `j` gives exactly `ys[j]`. |
| `Interpolation.FirstNodeWins` | src/effects/lagrange.js:61-68 | Without distinctness, a query equal to several nodes gives the value of the earliest one. |
| `Interpolation.AddMultiPoints` | src/effects/lagrange.js:73-80 | Appends, in order, the points of exactly those triples whose flag is neither 0 nor 1. The old points stay a prefix, and the class invariant is kept. Combined with `ChosenCount`, the number of new points is the number of such triples. |
| `Interpolation.Selected` | src/effects/lagrange.js:76 | Defines the selection test: a triple's point is added when its flag is neither 0 nor 1. |
| `Interpolation.Chosen` | src/effects/lagrange.js:75-78 | Defines the selected triples, in array order. |
| `Interpolation.ChosenMembers` | src/effects/lagrange.js:76-77 | A triple is added if and only if it occurs in the input and its flag is neither 0 nor 1. |
| `Interpolation.ChosenCount` | src/effects/lagrange.js:74-79 | The number of triples added equals the number of positions whose flag is neither 0 nor 1. |
| `Interpolation.ChosenAppend` | src/effects/lagrange.js:75-79 | The filter processes the array one triple at a time: filtering a concatenation gives the concatenation of the filtered parts. |
| `WorkedCases.TwoPointWeights` | src/effects/lagrange.js:18-23 | The two weights of a two-point interpolator are `1/(x1-x2)` and `1/(x2-x1)`. |
| `WorkedCases.TwoPointIsLine` | src/effects/lagrange.js:56-71 | With two nodes and `x` off the nodes, `c` is `1/((x-x1)(x-x2))`, which is non-zero. `valueOf` then equals the straight line through the two points. |
| `WorkedCases.UnitLineMidpoint` | src/effects/lagrange.js:18-23 | For the interpolator through (0, 0) and (1, 1), the weights are -1 and 1, and L(0.5) is exactly 0.5. |
| `WorkedCases.DocExample` | src/effects/lagrange.js:6-8 | After (0.5, 0.8) is added to the interpolator through (0, 0) and (1, 1), the weights are 2, 2 and -4, and L(0.1) is exactly 0.208. |
| `WorkedCases.FilterExample` | src/effects/lagrange.js:73-80 | For triples flagged 0, 1, 2 and 3, only the two triples flagged 2 and 3 are added. Their x values are fresh for the unit interpolator. |

## Left out

- `src/image_processor.jsx` is not modelled. It is React lifecycle code and canvas and DOM calls, that is, browser I/O.
- `changePoint` appears only in the class's doc comment (src/effects/lagrange.js:10). The class does not define it, so it is not modelled.
- IEEE-754 behaviour is not modelled: rounding, NaN and Infinity, and the exact rounding of left-to-right summation. The model uses exact reals. The summation order is still kept, as recursive sums over the first `n` nodes.
- Interpolation.New: requires `x1 != x2`. The source accepts equal x values and silently produces infinite weights.
- Interpolation.AddPoint: requires a fresh `x`. The source accepts a repeated node and silently divides by zero in `updateWeights`.
- Interpolation.AddMultiPoints: requires the added x values to be fresh and pairwise distinct, for the same reason as `AddPoint`. Flags are modelled as numbers. The source compares with `!==`, so a non-numeric flag such as the string "0" would be selected there. Triples with missing entries are not modelled.
- Weights.UpdateWeights: requires distinct nodes. The source divides by zero otherwise.
- Interpolation.ValueOf: requires the three arrays to have equal lengths, which the class invariant guarantees. When `c` is 0 the model reports `ZeroDenominator(b)` instead of the IEEE Infinity or NaN. It is not proved that `c` is non-zero for more than two distinct nodes.
- The model does not prove that `valueOf` equals the degree-(n-1) polynomial through the nodes. That is proved for two nodes (`WorkedCases.TwoPointIsLine`). For the three-point doc example only the value at 0.1 is proved (`WorkedCases.DocExample`).
