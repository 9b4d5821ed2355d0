/** `unequal_intervals_trapezoidal` (project.py:41-47) and the length check
    its caller makes first (project.py:66-69): the trapezoidal rule over
    arbitrary abscissas, one trapezoid per pair of neighbouring points. */
module Unequal {
  import opened Outcomes
  import opened Weights
  import opened Rules
  import opened Quadrature

  /** The fold reads `ys[i + 1]` for every `i + 1 < |xs|`, so `ys` must be
      at least as long as `xs` unless there is no pair to visit. */
  predicate Paired(xs: seq<real>, ys: seq<real>)
  {
    |xs| <= 1 || |xs| <= |ys|
  }

  /** The trapezoid between points `i` and `i + 1`. */
  function Panel(xs: seq<real>, ys: seq<real>, i: nat): real
    requires i + 1 < |xs| && |xs| <= |ys|
  {
    (xs[i + 1] - xs[i]) * (ys[i] + ys[i + 1]) / 2.0
  }

  /** The first `k` trapezoids, added in order. */
  function PanelSum(xs: seq<real>, ys: seq<real>, k: nat): real
    requires k < |xs| && |xs| <= |ys|
  {
    if k == 0 then 0.0 else PanelSum(xs, ys, k - 1) + Panel(xs, ys, k - 1)
  }

  /** The abscissas are equally spaced, `h` apart. */
  predicate Uniform(xs: seq<real>, h: real)
  {
    forall i :: 1 <= i < |xs| ==> xs[i] - xs[i - 1] == h
  }

  /** The reference value: the sum of all `|xs| - 1` trapezoids, and 0 when
      there are fewer than two points. On equally spaced abscissas it is
      the step times the samples weighted 1/2, 1, ..., 1, 1/2, the weights
      of the equal-interval trapezoidal rule. */
  function UnequalTrapezoid(xs: seq<real>, ys: seq<real>): (r: real)
    requires Paired(xs, ys)
    ensures |xs| < 2 ==> r == 0.0
    ensures |xs| == |ys| >= 2 && Uniform(xs, xs[1] - xs[0]) ==>
              r == WSum(TrapezoidWeight(|xs| - 1), ys, |xs|) * (xs[1] - xs[0])
  {
    if |xs| < 2 then
      0.0
    else if |xs| == |ys| && Uniform(xs, xs[1] - xs[0]) then
      UniformPanels(xs, ys, xs[1] - xs[0]);
      PanelSum(xs, ys, |xs| - 1)
    else
      PanelSum(xs, ys, |xs| - 1)
  }

  /** The unequal-interval rule as a loop: for each pair of neighbouring
      points it adds the area of the trapezoid between them, its width
      times the mean of its two heights. */
  method UnequalIntervalsTrapezoidal(xs: seq<real>, ys: seq<real>) returns (integral: real)
    requires Paired(xs, ys)
    ensures integral == UnequalTrapezoid(xs, ys)
    ensures |xs| < 2 ==> integral == 0.0
  {
    integral := 0.0;
    var i := 0;
    while i < |xs| - 1
      invariant 0 <= i && (|xs| >= 1 ==> i <= |xs| - 1)
      invariant |xs| >= 2 ==> integral == PanelSum(xs, ys, i)
      invariant |xs| < 2 ==> integral == 0.0
    {
      var h := xs[i + 1] - xs[i];
      integral := integral + h * (ys[i] + ys[i + 1]) / 2.0;
      i := i + 1;
    }
  }

  /** The caller's branch: report mismatched lengths as an error, otherwise
      run the fold. */
  method UnequalIntervals(xs: seq<real>, ys: seq<real>) returns (r: Result<real>)
    ensures r.Failure? <==> |xs| != |ys|
    ensures r.Failure? ==> r.error == LengthMismatch
    ensures r.Success? ==> r.value == UnequalTrapezoid(xs, ys)
  {
    if |xs| != |ys| {
      return Failure(LengthMismatch);
    }
    var integral := UnequalIntervalsTrapezoidal(xs, ys);
    return Success(integral);
  }

  // ---------------------------------------------------------------------
  // On a uniform grid the fold is the equal-interval trapezoidal rule

  /** Weight 1/2 at position 0 and 1 after it: the trapezoidal weights of a
      prefix whose last point is not yet counted. */
  function OpenTrapezoidWeight(): int -> real
  {
    i => if i == 0 then 0.5 else 1.0
  }

  /** After `k >= 1` trapezoids of width `h`, the sum is `h` times the
      weighted prefix plus half the last sample. */
  lemma {:induction false} PanelSumUniform(xs: seq<real>, ys: seq<real>, h: real, k: nat)
    requires |xs| == |ys| && 1 <= k < |xs|
    requires Uniform(xs, h)
    ensures PanelSum(xs, ys, k) == h * (WSum(OpenTrapezoidWeight(), ys, k) + ys[k] / 2.0)
  {
    if k > 1 {
      PanelSumUniform(xs, ys, h, k - 1);
    }
    assert xs[k] - xs[k - 1] == h;
  }

  /** All the trapezoids over abscissas `h` apart are `h` times the samples
      weighted 1/2, 1, ..., 1, 1/2. */
  lemma UniformPanels(xs: seq<real>, ys: seq<real>, h: real)
    requires |xs| == |ys| >= 2 && Uniform(xs, h)
    ensures PanelSum(xs, ys, |xs| - 1) == WSum(TrapezoidWeight(|xs| - 1), ys, |xs|) * h
  {
    var n := |ys| - 1;
    PanelSumUniform(xs, ys, h, n);
    WSumCongruent(TrapezoidWeight(n), OpenTrapezoidWeight(), ys, n);
    assert WSum(TrapezoidWeight(n), ys, n + 1) == WSum(OpenTrapezoidWeight(), ys, n) + 0.5 * ys[n];
  }

  /** On equally spaced abscissas with step `h` the fold computes exactly
      what the equal-interval trapezoidal combinator computes. */
  lemma UniformGridAgrees(xs: seq<real>, ys: seq<real>, h: real)
    requires |xs| == |ys| >= 2 && Uniform(xs, h)
    ensures UnequalTrapezoid(xs, ys) == TrapezoidSum(ys, h)
  {
    assert xs[1] - xs[0] == h;
  }

  // ---------------------------------------------------------------------
  // Exactness on straight lines

  /** An antiderivative of `p + q * x`. */
  function LinearIntegral(p: real, q: real, x: real): real
  {
    p * x + q * x * x / 2.0
  }

  /** On samples of a straight line `p + q * x`, the first `k` trapezoids
      add up to the exact integral from `xs[0]` to `xs[k]`, whatever the
      spacing. */
  lemma {:induction false} PanelSumLinear(xs: seq<real>, ys: seq<real>, p: real, q: real, k: nat)
    requires |xs| <= |ys| && k < |xs|
    requires forall i :: 0 <= i < |xs| ==> ys[i] == p + q * xs[i]
    ensures PanelSum(xs, ys, k) == LinearIntegral(p, q, xs[k]) - LinearIntegral(p, q, xs[0])
  {
    if k > 0 {
      PanelSumLinear(xs, ys, p, q, k - 1);
      LinearPanelAt(xs, ys, p, q, k - 1);
    }
  }

  /** Trapezoid `i` of samples of a straight line is the exact area under
      it. */
  lemma LinearPanelAt(xs: seq<real>, ys: seq<real>, p: real, q: real, i: nat)
    requires i + 1 < |xs| && |xs| <= |ys|
    requires ys[i] == p + q * xs[i] && ys[i + 1] == p + q * xs[i + 1]
    ensures Panel(xs, ys, i) == LinearIntegral(p, q, xs[i + 1]) - LinearIntegral(p, q, xs[i])
  {
    LinearPanel(p, q, xs[i], xs[i + 1], ys[i], ys[i + 1]);
  }

  /** One trapezoid under a straight line is the exact area under it. */
  lemma LinearPanel(p: real, q: real, u: real, v: real, yu: real, yv: real)
    requires yu == p + q * u && yv == p + q * v
    ensures (v - u) * (yu + yv) / 2.0 == LinearIntegral(p, q, v) - LinearIntegral(p, q, u)
  {
    calc {
      (v - u) * (yu + yv) / 2.0;
      (v - u) * (2.0 * p + q * (u + v)) / 2.0;
      p * (v - u) + q * ((v - u) * (v + u)) / 2.0;
      { assert (v - u) * (v + u) == v * v - u * u; }
      p * (v - u) + q * (v * v - u * u) / 2.0;
      LinearIntegral(p, q, v) - LinearIntegral(p, q, u);
    }
  }

  /** The unequal-interval rule integrates a straight line exactly. */
  lemma UnequalExactOnLines(xs: seq<real>, ys: seq<real>, p: real, q: real)
    requires |xs| == |ys| >= 1
    requires forall i :: 0 <= i < |xs| ==> ys[i] == p + q * xs[i]
    ensures UnequalTrapezoid(xs, ys) == LinearIntegral(p, q, xs[|xs| - 1]) - LinearIntegral(p, q, xs[0])
  {
    PanelSumLinear(xs, ys, p, q, |xs| - 1);
  }

  /** The equal-interval trapezoidal rule integrates a straight line exactly
      for every `n`: on the grid it is the unequal-interval fold. */
  lemma TrapezoidalExactOnLines(f: real -> real, p: real, q: real, a: real, b: real, n: int)
    requires n >= 1
    requires forall x :: f(x) == p + q * x
    ensures Trapezoidal(f, a, b, n) == LinearIntegral(p, q, b) - LinearIntegral(p, q, a)
  {
    var xs, ys := Grid(a, b, n), Samples(f, a, b, n);
    assert Trapezoidal(f, a, b, n) == UnequalTrapezoid(xs, ys) by {
      UniformGridAgrees(xs, ys, Step(a, b, n));
    }
    UnequalExactOnLines(xs, ys, p, q);
  }
}
