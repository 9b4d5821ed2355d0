/** The three equal-interval rules of `project.py` as the source calls
    them: sample the integrand on `numpy.linspace(a, b, n + 1)`, then
    combine the samples with the rule's weights, scaled by the step
    `h = (b - a) / n`.

    The integrand is a total function `f`; parsing and evaluating the
    user's expression is not part of this model. */
module Quadrature {
  import opened Weights
  import opened Rules

  /** The step between neighbouring grid points. */
  function Step(a: real, b: real, n: int): real
    requires n >= 1
  {
    (b - a) / n as real
  }

  /** The grid point `i` steps of `h` after `a`, reached one step at a
      time. */
  function GridPoint(a: real, h: real, i: nat): real
  {
    if i == 0 then a else GridPoint(a, h, i - 1) + h
  }

  /** Stepping `i` times by `h` from `a` reaches `a + i * h`, the point
      `numpy.linspace` computes directly. */
  lemma {:induction false} GridPointClosed(a: real, h: real, i: nat)
    ensures GridPoint(a, h, i) == a + i as real * h
  {
    if i > 0 {
      GridPointClosed(a, h, i - 1);
      assert i as real * h == (i - 1) as real * h + h;
    }
  }

  /** `n` steps of `(b - a) / n` from `a` end exactly at `b`. */
  lemma GridEnd(a: real, b: real, n: int)
    requires n >= 1
    ensures GridPoint(a, Step(a, b, n), n) == b
  {
    GridPointClosed(a, Step(a, b, n), n);
    assert n as real * Step(a, b, n) == b - a;
  }

  /** `numpy.linspace(a, b, n + 1)` in exact arithmetic: `n + 1` points from
      `a` to `b`, each one step after the previous. */
  function Grid(a: real, b: real, n: int): (x: seq<real>)
    requires n >= 1
    ensures |x| == n + 1
    ensures x[0] == a && x[n] == b
    ensures forall i :: 1 <= i <= n ==> x[i] - x[i - 1] == Step(a, b, n)
  {
    GridEnd(a, b, n);
    seq(n + 1, i requires 0 <= i <= n => GridPoint(a, Step(a, b, n), i))
  }

  /** Point `i` of the grid is `a + i * (b - a) / n`, as `numpy.linspace`
      computes it. */
  lemma GridClosed(a: real, b: real, n: int)
    requires n >= 1
    ensures forall i :: 0 <= i <= n ==> Grid(a, b, n)[i] == a + i as real * Step(a, b, n)
  {
    forall i | 0 <= i <= n
      ensures Grid(a, b, n)[i] == a + i as real * Step(a, b, n)
    {
      GridPointClosed(a, Step(a, b, n), i);
    }
  }

  /** The samples: the integrand evaluated at every grid point. */
  function Samples(f: real -> real, a: real, b: real, n: int): (y: seq<real>)
    requires n >= 1
    ensures |y| == n + 1
    ensures forall i :: 0 <= i <= n ==> y[i] == f(Grid(a, b, n)[i])
  {
    var x := Grid(a, b, n);
    seq(n + 1, i requires 0 <= i <= n => f(x[i]))
  }

  /** A constant integrand gives constant samples. */
  lemma SamplesOfConstant(f: real -> real, a: real, b: real, n: int)
    requires n >= 1
    requires forall x :: f(x) == f(a)
    ensures forall i :: 0 <= i < |Samples(f, a, b, n)| ==> Samples(f, a, b, n)[i] == f(a)
  {
  }

  /** `simpson_one_third`: the composite Simpson 1/3 rule. The source does
      not check `n`; for even `n`, the only counts the dispatcher passes,
      the slices form the 1/3 weights. */
  function SimpsonOneThird(f: real -> real, a: real, b: real, n: int): (r: real)
    requires n >= 1
    ensures n % 2 == 0 ==> r == WSum(OneThirdWeight(n), Samples(f, a, b, n), n + 1) * (Step(a, b, n) / 3.0)
    ensures n % 2 == 0 && (forall x :: f(x) == f(a)) ==> r == (b - a) * f(a)
  {
    var y, h := Samples(f, a, b, n), Step(a, b, n);
    if n % 2 == 0 then
      OneThirdRuleWeighted(f, a, b, n);
      OneThirdConstantCase(f, a, b, n);
      OneThirdSum(y, h)
    else
      OneThirdSum(y, h)
  }

  /** `simpson_three_eighth`: the composite Simpson 3/8 rule. The source
      does not check `n`; for `n` a multiple of 3, the only counts the
      dispatcher passes, the slices form the 3/8 weights. */
  function SimpsonThreeEighths(f: real -> real, a: real, b: real, n: int): (r: real)
    requires n >= 1
    ensures n % 3 == 0 ==> r == WSum(ThreeEighthsWeight(n), Samples(f, a, b, n), n + 1) * (3.0 * Step(a, b, n) / 8.0)
    ensures n % 3 == 0 && (forall x :: f(x) == f(a)) ==> r == (b - a) * f(a)
  {
    var y, h := Samples(f, a, b, n), Step(a, b, n);
    if n % 3 == 0 then
      ThreeEighthsRuleWeighted(f, a, b, n);
      ThreeEighthsConstantCase(f, a, b, n);
      ThreeEighthsSum(y, h)
    else
      ThreeEighthsSum(y, h)
  }

  /** `trapezoidal`: the composite trapezoidal rule, for any `n >= 1`. */
  function Trapezoidal(f: real -> real, a: real, b: real, n: int): (r: real)
    requires n >= 1
    ensures r == WSum(TrapezoidWeight(n), Samples(f, a, b, n), n + 1) * Step(a, b, n)
    ensures (forall x :: f(x) == f(a)) ==> r == (b - a) * f(a)
  {
    var y, h := Samples(f, a, b, n), Step(a, b, n);
    TrapezoidRuleWeighted(f, a, b, n);
    TrapezoidConstantCase(f, a, b, n);
    TrapezoidSum(y, h)
  }


  /** The 1/3 combinator's weighted form, restated for `n` intervals: the
      rule functions count intervals, the combinator counts samples. */
  lemma OneThirdWeighted(y: seq<real>, h: real, n: int)
    requires n >= 2 && n % 2 == 0 && |y| == n + 1
    ensures OneThirdSum(y, h) == WSum(OneThirdWeight(n), y, n + 1) * (h / 3.0)
  {
    assert |y| - 1 == n && |y| % 2 == 1;
    ScaleBoth(WSum(OneThirdWeight(|y| - 1), y, |y|), WSum(OneThirdWeight(n), y, n + 1), h / 3.0);
  }

  /** The 3/8 combinator's weighted form, restated for `n` intervals. */
  lemma ThreeEighthsWeighted(y: seq<real>, h: real, n: int)
    requires n >= 3 && n % 3 == 0 && |y| == n + 1
    ensures ThreeEighthsSum(y, h) == WSum(ThreeEighthsWeight(n), y, n + 1) * (3.0 * h / 8.0)
  {
    assert |y| - 1 == n && (|y| - 1) % 3 == 0;
    ScaleBoth(WSum(ThreeEighthsWeight(|y| - 1), y, |y|), WSum(ThreeEighthsWeight(n), y, n + 1), 3.0 * h / 8.0);
  }

  /** The trapezoidal combinator's weighted form, restated for `n`
      intervals. */
  lemma TrapezoidWeighted(y: seq<real>, h: real, n: int)
    requires n >= 1 && |y| == n + 1
    ensures TrapezoidSum(y, h) == WSum(TrapezoidWeight(n), y, n + 1) * h
  {
    assert |y| - 1 == n;
    ScaleBoth(WSum(TrapezoidWeight(|y| - 1), y, |y|), WSum(TrapezoidWeight(n), y, n + 1), h);
  }

  /** The 1/3 combinator's weighted form on the samples of `f` over `n`
      intervals of the range `[a, b]`. */
  lemma OneThirdRuleWeighted(f: real -> real, a: real, b: real, n: int)
    requires n >= 2 && n % 2 == 0
    ensures OneThirdSum(Samples(f, a, b, n), Step(a, b, n)) == WSum(OneThirdWeight(n), Samples(f, a, b, n), n + 1) * (Step(a, b, n) / 3.0)
  {
    OneThirdWeighted(Samples(f, a, b, n), Step(a, b, n), n);
  }

  /** The 3/8 combinator's weighted form on the samples of `f`. */
  lemma ThreeEighthsRuleWeighted(f: real -> real, a: real, b: real, n: int)
    requires n >= 3 && n % 3 == 0
    ensures ThreeEighthsSum(Samples(f, a, b, n), Step(a, b, n)) == WSum(ThreeEighthsWeight(n), Samples(f, a, b, n), n + 1) * (3.0 * Step(a, b, n) / 8.0)
  {
    ThreeEighthsWeighted(Samples(f, a, b, n), Step(a, b, n), n);
  }

  /** The trapezoidal combinator's weighted form on the samples of `f`. */
  lemma TrapezoidRuleWeighted(f: real -> real, a: real, b: real, n: int)
    requires n >= 1
    ensures TrapezoidSum(Samples(f, a, b, n), Step(a, b, n)) == WSum(TrapezoidWeight(n), Samples(f, a, b, n), n + 1) * Step(a, b, n)
  {
    TrapezoidWeighted(Samples(f, a, b, n), Step(a, b, n), n);
  }

  /** A third of the step `d / n` times `3 n` copies of `c` is `d` copies. */
  lemma OneThirdScale(d: real, n: real, h: real, c: real, raw: real)
    requires n > 0.0 && h == d / n && raw == 3.0 * n * c
    ensures raw * (h / 3.0) == d * c
  {
    assert n * h == d;
  }

  /** Three eighths of the step `d / n` times `8 n / 3` copies of `c` is
      `d` copies. */
  lemma ThreeEighthsScale(d: real, n: real, h: real, c: real, raw: real)
    requires n > 0.0 && h == d / n && raw == 8.0 * n / 3.0 * c
    ensures raw * (3.0 * h / 8.0) == d * c
  {
    assert n * h == d;
  }

  /** The step `d / n` times `n` copies of `c` is `d` copies. */
  lemma TrapezoidScale(d: real, n: real, h: real, c: real, raw: real)
    requires n > 0.0 && h == d / n && raw == n * c
    ensures raw * h == d * c
  {
    assert n * h == d;
  }

  /** On `n + 1` samples of the constant `c`, Simpson's 1/3 rule with the
      step of `n` intervals from `a` to `b` gives `(b - a) * c`. */
  lemma OneThirdOfConstant(y: seq<real>, c: real, a: real, b: real, n: int)
    requires n >= 2 && n % 2 == 0 && |y| == n + 1
    requires forall i :: 0 <= i < |y| ==> y[i] == c
    ensures OneThirdSum(y, Step(a, b, n)) == (b - a) * c
  {
    var h, raw := Step(a, b, n), OneThirdRaw(y);
    OneThirdOnConstant(y, c);
    OneThirdScale(b - a, (|y| - 1) as real, h, c, raw);
    assert OneThirdSum(y, h) == raw * (h / 3.0);
  }

  /** On `n + 1` samples of the constant `c`, Simpson's 3/8 rule with the
      step of `n` intervals from `a` to `b` gives `(b - a) * c`. */
  lemma ThreeEighthsOfConstant(y: seq<real>, c: real, a: real, b: real, n: int)
    requires n >= 3 && n % 3 == 0 && |y| == n + 1
    requires forall i :: 0 <= i < |y| ==> y[i] == c
    ensures ThreeEighthsSum(y, Step(a, b, n)) == (b - a) * c
  {
    var h, raw := Step(a, b, n), ThreeEighthsRaw(y);
    ThreeEighthsOnConstant(y, c);
    ThreeEighthsScale(b - a, (|y| - 1) as real, h, c, raw);
    assert ThreeEighthsSum(y, h) == raw * (3.0 * h / 8.0);
  }

  /** On `n + 1` samples of the constant `c`, the trapezoidal rule with the
      step of `n` intervals from `a` to `b` gives `(b - a) * c`. */
  lemma TrapezoidOfConstant(y: seq<real>, c: real, a: real, b: real, n: int)
    requires n >= 1 && |y| == n + 1
    requires forall i :: 0 <= i < |y| ==> y[i] == c
    ensures TrapezoidSum(y, Step(a, b, n)) == (b - a) * c
  {
    var h, raw := Step(a, b, n), TrapezoidRaw(y);
    TrapezoidOnConstant(y, c);
    TrapezoidScale(b - a, (|y| - 1) as real, h, c, raw);
    assert TrapezoidSum(y, h) == raw * h;
  }

  /** Simpson's 1/3 rule integrates a constant exactly. */
  lemma OneThirdConstantCase(f: real -> real, a: real, b: real, n: int)
    requires n >= 2 && n % 2 == 0
    ensures (forall x :: f(x) == f(a)) ==> OneThirdSum(Samples(f, a, b, n), Step(a, b, n)) == (b - a) * f(a)
  {
    if forall x :: f(x) == f(a) {
      SamplesOfConstant(f, a, b, n);
      OneThirdOfConstant(Samples(f, a, b, n), f(a), a, b, n);
    }
  }

  /** Simpson's 3/8 rule integrates a constant exactly. */
  lemma ThreeEighthsConstantCase(f: real -> real, a: real, b: real, n: int)
    requires n >= 3 && n % 3 == 0
    ensures (forall x :: f(x) == f(a)) ==> ThreeEighthsSum(Samples(f, a, b, n), Step(a, b, n)) == (b - a) * f(a)
  {
    if forall x :: f(x) == f(a) {
      SamplesOfConstant(f, a, b, n);
      ThreeEighthsOfConstant(Samples(f, a, b, n), f(a), a, b, n);
    }
  }

  /** The trapezoidal rule integrates a constant exactly. */
  lemma TrapezoidConstantCase(f: real -> real, a: real, b: real, n: int)
    requires n >= 1
    ensures (forall x :: f(x) == f(a)) ==> TrapezoidSum(Samples(f, a, b, n), Step(a, b, n)) == (b - a) * f(a)
  {
    if forall x :: f(x) == f(a) {
      SamplesOfConstant(f, a, b, n);
      TrapezoidOfConstant(Samples(f, a, b, n), f(a), a, b, n);
    }
  }
}
