# Numerical integration engine

A Dafny model of the integration engine in `project.py`, a small
interactive numerical-integration tool. The model covers:

- **The equal-interval path.** The engine turns a requested range
  `[x0, xn]` and step `h` into an interval count `n = int((xn - x0) / h)`.
  It picks a rule by the parity and divisibility of `n`:
  - odd `n` takes the trapezoidal rule;
  - even `n` divisible by 3 takes Simpson's 3/8 rule, which is checked first;
  - any other even `n` takes Simpson's 1/3 rule.

  The chosen rule samples the integrand on `numpy.linspace(x0, xn, n + 1)`.
  It combines the samples with Python slices of the sample list and scales
  the result by the step `(xn - x0) / n`.
- **The unequal-interval path.** A fold adds one trapezoid per pair of
  neighbouring points. Before the fold runs, its caller rejects x and y
  lists of different lengths.
- **Failures.** An exception raised inside a computation is caught and shown
  as an error message. In the model it is a `Failure` value.

Samples are exact reals and the integrand is a total function `f`. Python's
slicing with a positive step is modelled in general, including negative
bounds and clamping, and so is its built-in `sum`. For each rule the model
gives two forms, both written in Dafny:

- the slice-based combinator, which follows the code;
- a reference form with one weight per sample.

Proofs show that:

- each slice selects exactly its class of positions;
- combinator and reference agree;
- every rule integrates constants exactly;
- the trapezoidal rules are exact on straight lines;
- Simpson's 1/3 rule is exact on cubics;
- the unequal-interval fold equals the equal-interval trapezoidal rule on a
  uniform grid.

Modules:

- `PySeq`: Python indexing, slicing and `sum`.
- `Weights`: weighted sums.
- `Rules`: slices, combinators and reference weights.
- `Quadrature`: the grid and the three rules.
- `Exactness`: Simpson's 1/3 rule on cubics.
- `Unequal`: the unequal-interval fold.
- `Outcomes`: errors.
- `Dispatch`: the interval count and rule selection.
- `WorkedExamples`: worked examples.

## Model

| member | source | states |
|---|---|---|
| Dispatch.Truncate | project.py:84 | `int()` truncates toward zero: for a non-negative quotient the result is the largest integer not above it, for a negative one the smallest integer not below it |
| Dispatch.IntervalCount | project.py:84 | `n >= 1` exactly when the range holds at least one step `h`; `n == 0` exactly when the range is shorter than one step in either direction; on a forward range `n` whole steps fit and `n + 1` do not |
| Dispatch.SelectRule | project.py:86-95 | the trapezoidal rule is chosen exactly for odd `n`, the 3/8 rule exactly for multiples of 6, the 1/3 rule exactly for even `n` not divisible by 3 |
| Dispatch.SelectedRuleFits | project.py:86-95 | for `n >= 1` the chosen Simpson rule always gets a count its grouping divides: pairs for the 1/3 rule (`n >= 2`), triples for the 3/8 rule (`n >= 6`) |
| Dispatch.SelectRuleEdgeCases | project.py:86-95 | `n == 3` is odd and takes the trapezoidal rule although 3 divides it; `n == 0` passes both tests and lands in the 3/8 branch |
| Dispatch.RunRule | project.py:86-95 | given a count that fits the chosen rule (even for the 1/3 rule, a multiple of 3 for the 3/8 rule), running the rule gives that rule's weighted sum of the samples scaled by its factor of the step: `h / 3`, `3 h / 8` or `h` |
| Dispatch.WeightedRuleOnConstant | project.py:86-95 | for every rule and every count that fits it, the weighted sum of a constant integrand is `(b - a)` times the constant |
| Dispatch.EqualIntervals | project.py:84-99 | the equal-interval run succeeds exactly when the range holds at least one step; it fails with a division by zero exactly when the range is shorter than one step; on success it reports the rule the selection picks for `n = int((xn - x0) / h)` and that rule's weighted sum of the samples on `n` intervals (Dispatch.WeightedRule), and a constant integrand yields `(xn - x0)` times the constant |
| PySeq.ClampBound | project.py:17 | a slice bound inside `-len..len-1` names the same element that indexing with it names, so a negative bound counts from the end; a bound at or past the end clamps to `len`, one at or before `-len` clamps to 0 |
| PySeq.SliceIndices | project.py:17 | the positions a slice with a positive step picks are its clamped start plus whole steps, all of them valid positions, as many as fit below the clamped stop |
| PySeq.StrideCountFormula | project.py:17 | the number of positions picked from `start` below `stop` is CPython's slice length `(stop - start - 1) / step + 1` when `start < stop`, and 0 otherwise |
| PySeq.Slice | project.py:17 | `s[start:stop:step]` has one element per picked position, and element `k` is the sample at the clamped start plus `k` steps |
| PySeq.SumIsLeftFold | project.py:17 | Python's `sum` adds from the left, starting at 0: it equals the fold `((0 + s[0]) + s[1]) + ...` |
| PySeq.SliceMembers | project.py:17 | a slice with a positive step selects exactly the positions from its clamped start, below its clamped stop, that lie a whole number of steps from the start; it selects them in increasing order and stops at the last such position |
| PySeq.StrideMembers | project.py:17 | the positions a stride visits are exactly those that lie a whole number of steps above `start` and below `stop`, each visited once, in increasing order |
| Quadrature.Grid | project.py:14 | the grid has `n + 1` points, starts at `a`, ends at `b`, and neighbouring points are one step `(b - a) / n` apart |
| Quadrature.GridClosed | project.py:14 | point `i` of the grid is `a + i * (b - a) / n` |
| Quadrature.SimpsonOneThird | project.py:11-19 | for even `n` the rule is `h / 3` times the sum of the samples weighted 1, 4, 2, ..., 2, 4, 1, and a constant integrand yields `(b - a)` times the constant |
| Quadrature.SimpsonThreeEighths | project.py:21-29 | for `n` a multiple of 3 the rule is `3 h / 8` times the sum of the samples weighted 1, 3, 3, 2, ..., 2, 3, 3, 1, and a constant integrand yields `(b - a)` times the constant |
| Quadrature.Trapezoidal | project.py:31-39 | for every `n >= 1` the rule is `h` times the sum of the samples weighted 1/2, 1, ..., 1, 1/2, and a constant integrand yields `(b - a)` times the constant |
| Rules.OneThirdOddSlice | project.py:17 | on `n + 1` samples with `n` even, `y[1:-1:2]` selects exactly the odd positions `1..n-1`, `n / 2` of them |
| Rules.OneThirdEvenSlice | project.py:17 | on `n + 1` samples with `n` even, `y[2:-2:2]` selects exactly the even positions `2..n-2`, `n / 2 - 1` of them, and none when `n == 2` |
| Rules.OneThirdSlicesPartition | project.py:17 | the two 1/3 slices together cover every interior position exactly once and never an endpoint |
| Rules.ThreeEighthsFirstSlice | project.py:27 | on `n + 1` samples with `3` dividing `n`, `y[1:-1:3]` selects exactly the interior positions that are 1 mod 3, `n / 3` of them |
| Rules.ThreeEighthsSecondSlice | project.py:27 | `y[2:-1:3]` selects exactly the interior positions that are 2 mod 3, `n / 3` of them |
| Rules.ThreeEighthsThirdSlice | project.py:27 | `y[3:-3:3]` selects exactly the multiples of 3 in `3..n-3`, `n / 3 - 1` of them, and none when `n == 3` |
| Rules.ThreeEighthsSlicesPartition | project.py:27 | the first two 3/8 slices are disjoint and together select the interior positions that are not multiples of 3; with the third slice, every interior position is counted by exactly one slice and no endpoint by any |
| Rules.TrapezoidSlice | project.py:37 | `y[1:-1]` selects exactly the interior positions `1..n-1` |
| Rules.OneThirdRaw | project.py:17 | on an odd number (at least 3) of samples, both endpoints plus four times the first slice plus twice the second equal the 1, 4, 2, ..., 2, 4, 1 weighted sum of the samples |
| Rules.OneThirdSum | project.py:17-18 | on an odd number (at least 3) of samples, the 1/3 result is `h / 3` times the 1, 4, 2, ..., 2, 4, 1 weighted sum |
| Rules.ThreeEighthsRaw | project.py:27 | on `3 m + 1` samples (`m >= 1`), both endpoints plus three times each of the first two slices plus twice the third equal the 1, 3, 3, 2, ..., 2, 3, 3, 1 weighted sum |
| Rules.ThreeEighthsSum | project.py:27-28 | on `3 m + 1` samples (`m >= 1`), the 3/8 result is `3 h / 8` times the 1, 3, 3, 2, ..., 2, 3, 3, 1 weighted sum |
| Rules.TrapezoidRaw | project.py:37 | on two or more samples, half the two endpoints plus the sum of the interior slice equals the 1/2, 1, ..., 1, 1/2 weighted sum |
| Rules.TrapezoidSum | project.py:37-38 | on two or more samples, the trapezoidal result is `h` times the 1/2, 1, ..., 1, 1/2 weighted sum |
| Rules.OneThirdOnConstant | project.py:17 | on `n + 1` equal samples `c` the unscaled 1/3 sum is `3 n c`: the weights add up to `3 n` |
| Rules.ThreeEighthsOnConstant | project.py:27 | on `n + 1` equal samples `c` the unscaled 3/8 sum is `8 n c / 3` |
| Rules.TrapezoidOnConstant | project.py:37 | on `n + 1` equal samples `c` the unscaled trapezoidal sum is `n c` |
| Quadrature.OneThirdOfConstant | project.py:17-18 | scaled by `h / 3` with `h = (b - a) / n`, the 1/3 combinator on constant samples is exactly `(b - a) c` |
| Quadrature.ThreeEighthsOfConstant | project.py:27-28 | scaled by `3 h / 8`, the 3/8 combinator on constant samples is exactly `(b - a) c` |
| Quadrature.TrapezoidOfConstant | project.py:37-38 | scaled by `h`, the trapezoidal combinator on constant samples is exactly `(b - a) c` |
| Exactness.OneThirdPanels | project.py:17 | the 1, 4, 2, ..., 4, 1 weighted sum is the sum over consecutive pairs of intervals of `y[2j] + 4 y[2j+1] + y[2j+2]` |
| Exactness.CubicPanelAt | project.py:17-18 | on one pair of intervals of width `h`, `h / 3 (f(u) + 4 f(v) + f(w))` equals the exact integral of the cubic `f` from `u` to `w` |
| Exactness.PanelPairsTelescope | project.py:17-18 | when each pair of intervals is integrated exactly, the panel sums telescope to the integral over the whole range |
| Exactness.SimpsonOneThirdExactOnCubics | project.py:11-19 | for every even `n >= 2`, Simpson's 1/3 rule returns the exact integral of every cubic |
| Unequal.UnequalIntervalsTrapezoidal | project.py:41-47 | the loop returns the sum of the trapezoids `(x[i+1] - x[i]) (y[i] + y[i+1]) / 2` over all neighbouring pairs, and 0 for fewer than two points |
| Unequal.UnequalTrapezoid | project.py:41-47 | fewer than two points give 0; on equally spaced abscissas the fold is the spacing times the samples weighted 1/2, 1, ..., 1, 1/2 |
| Unequal.UnequalIntervals | project.py:66-69 | the unequal-interval request fails with a length mismatch exactly when the two lists differ in length; otherwise it returns the trapezoid sum |
| Unequal.PanelSumUniform | project.py:41-47 | on abscissas `h` apart, the first `k` trapezoids are `h` times the prefix weighted 1/2, 1, ..., 1 plus half of sample `k` |
| Unequal.UniformGridAgrees | project.py:41-47 | on equally spaced abscissas the unequal-interval fold gives exactly the equal-interval trapezoidal combinator's value |
| Unequal.LinearPanel | project.py:46 | one trapezoid under a straight line is the exact area under it, whatever its width |
| Unequal.PanelSumLinear | project.py:41-47 | on samples of a straight line, the first `k` trapezoids are the exact integral from `x[0]` to `x[k]`, whatever the spacing |
| Unequal.UnequalExactOnLines | project.py:41-47 | the unequal-interval fold integrates every straight line exactly |
| Unequal.TrapezoidalExactOnLines | project.py:31-39 | the equal-interval trapezoidal rule integrates every straight line exactly, for every `n >= 1` |
| WorkedExamples.QuadraticExample | project.py:84-92 | `x^2 + 3x + 2` over `[0, 2]` with `h = 0.5` gives `n = 4`, takes Simpson's 1/3 rule, and returns the exact integral 38/3 |
| WorkedExamples.UnequalExample | project.py:41-47 | the points `x = 0, 1, 1.5, 2`, `y = 0, 1, 2.25, 4` give the trapezoids 0.5, 0.8125 and 1.5625, which sum to 2.875 |
| WorkedExamples.OddBeforeThreeExample | project.py:84-95 | over `[0, 3]` with `h = 1` the count is 3 and the run succeeds with the trapezoidal rule |

## Left out

- The Streamlit interface (project.py:1-3 and 49-101 apart from lines 66-69 and 84-99): widgets, text, and the messages shown for each outcome. The chosen rule and the value are returned instead of displayed.
- Parsing and evaluating the expression with sympy (project.py:2, 4, 7-9, 82-83): the integrand is a total function parameter `f`. Parse errors and evaluation errors are not modelled.
- Parsing the x and y value lists from text (project.py:58-59, 63-64): the fold receives lists of reals, so the `ValueError` raised by `float()` on bad text is not modelled.
- IEEE floating point: all arithmetic is exact. `numpy.linspace` rounding and the possibility that `int()` of a rounded quotient differs from the exact quotient are not modelled.
- The lower bound 0.0001 that the input widget puts on `h` (project.py:76): the model only requires `h > 0`.
- Negative interval counts (`xn < x0`): the model only classifies the exception. `n == -1` indexes an empty sample list, and `n <= -2` asks `linspace` for a negative number of samples. The model does not prove which Python exception type is raised.
- Quadrature.SimpsonOneThird: the weighted form is stated only for even `n`, and Quadrature.SimpsonThreeEighths only for `n` a multiple of 3. These are the only counts the dispatcher passes. For other `n` the source's slices still produce a number, and the model computes it without stating a property of it.
- Simpson's 3/8 rule is not proved exact on cubics. Only its exactness on constants is proved.
- Three behaviours of the code worth noting, which the model follows:
  - With fewer than two points the fold returns 0. It is not an error.
  - With `n == 0` the code divides by zero in the 3/8 branch (project.py:23), and the caller shows that as an error (project.py:98-99). There is no separate check for a degenerate interval.
  - The four points given as input hints (project.py:58-59) make trapezoids of widths 1, 0.5 and 0.5, which the fold sums to 2.875.
- PySeq.Sum carries no postcondition of its own. The lemma PySeq.SumIsLeftFold states what it computes.
