/** Worked examples of the engine on concrete inputs: the quadratic
    `x^2 + 3x + 2` over `[0, 2]` with `h = 0.5`, the unequal-interval fold
    on four points, and a count of 3 that takes the trapezoidal rule. */
module WorkedExamples {
  import opened Outcomes
  import opened Quadrature
  import opened Dispatch
  import opened Unequal
  import opened Exactness

  /** `x^2 + 3x + 2` over `[0, 2]` with `h = 0.5`: the count is 4, even
      and not a multiple of 3, so Simpson's 1/3 rule runs, and being exact
      on cubics it returns the integral 38/3. */
  lemma QuadraticExample(f: real -> real)
    requires forall x :: f(x) == x * x + 3.0 * x + 2.0
    ensures EqualIntervals(f, 0.0, 2.0, 0.5) == Success(Estimate(OneThird, 38.0 / 3.0))
  {
    assert IntervalCount(0.0, 2.0, 0.5) == 4;
    assert IsCubic(f, 2.0, 3.0, 1.0, 0.0);
    SimpsonOneThirdExactOnCubics(f, 2.0, 3.0, 1.0, 0.0, 0.0, 2.0, 4);
    assert CubicIntegral(2.0, 3.0, 1.0, 0.0, 2.0) - CubicIntegral(2.0, 3.0, 1.0, 0.0, 0.0) == 38.0 / 3.0;
  }

  /** The fold over `x = 0, 1, 1.5, 2` and `y = 0, 1, 2.25, 4` adds the
      trapezoids 0.5, 0.8125 and 1.5625. */
  lemma UnequalExample()
    ensures UnequalTrapezoid([0.0, 1.0, 1.5, 2.0], [0.0, 1.0, 2.25, 4.0]) == 2.875
  {
    var xs, ys := [0.0, 1.0, 1.5, 2.0], [0.0, 1.0, 2.25, 4.0];
    assert Panel(xs, ys, 0) == 0.5;
    assert Panel(xs, ys, 1) == 0.8125;
    assert Panel(xs, ys, 2) == 1.5625;
    assert PanelSum(xs, ys, 3) == PanelSum(xs, ys, 2) + Panel(xs, ys, 2);
  }

  /** Over `[0, 3]` with `h = 1` the count is 3: odd, so the trapezoidal
      rule runs although 3 divides it. */
  lemma OddBeforeThreeExample(f: real -> real)
    ensures EqualIntervals(f, 0.0, 3.0, 1.0).Success?
    ensures EqualIntervals(f, 0.0, 3.0, 1.0).value.rule == Trapezoid
  {
    assert IntervalCount(0.0, 3.0, 1.0) == 3;
  }
}
