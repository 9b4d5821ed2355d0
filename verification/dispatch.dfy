/** The equal-interval entry point of `project.py` (lines 84-95): compute
    the interval count `n = int((xn - x0) / h)`, pick a rule by the parity
    and divisibility of `n`, and run it over `[x0, xn]`. */
module Dispatch {
  import opened Outcomes
  import opened Weights
  import opened Rules
  import opened Quadrature

  /** The three rules the engine can choose. */
  datatype Rule = Trapezoid | OneThird | ThreeEighths

  /** What a successful run reports: the rule it used and the estimate. */
  datatype Estimate = Estimate(rule: Rule, value: real)

  /** Python's `int(x)` on a float: truncation toward zero. */
  function Truncate(x: real): (n: int)
    ensures 0.0 <= x ==> 0 <= n && n as real <= x < n as real + 1.0
    ensures x < 0.0 ==> n <= 0 && n as real - 1.0 < x <= n as real
  {
    if x >= 0.0 then x.Floor else -((-x).Floor)
  }

  /** `n = int((xn - x0) / h)`. It is positive exactly when the range holds
      at least one step, and then `n` whole steps fit in it but `n + 1` do
      not; it is zero exactly when the range is shorter than one step
      either way. */
  function IntervalCount(x0: real, xn: real, h: real): (n: int)
    requires h > 0.0
    ensures n >= 1 <==> xn - x0 >= h
    ensures n == 0 <==> -h < xn - x0 < h
    ensures xn - x0 >= 0.0 ==> n as real * h <= xn - x0 < (n + 1) as real * h
  {
    var d := xn - x0;
    QuotientCompare(d, h, 1.0);
    QuotientCompare(d, h, -1.0);
    if d >= 0.0 then
      WholeSteps(d, h);
      Truncate(d / h)
    else
      Truncate(d / h)
  }

  /** Comparing a quotient with `c` is comparing the dividend with `c`
      steps. */
  lemma QuotientCompare(d: real, h: real, c: real)
    requires h > 0.0
    ensures d / h >= c <==> d >= c * h
    ensures d / h > c <==> d > c * h
    ensures d / h <= c <==> d <= c * h
    ensures d / h < c <==> d < c * h
  {
    var q := d / h;
    assert q * h == d;
    ScaleLess(c, q, h);
    ScaleLess(q, c, h);
  }

  /** For a non-negative range, the truncated quotient counts the whole
      steps that fit in it. */
  lemma WholeSteps(d: real, h: real)
    requires h > 0.0 && d >= 0.0
    ensures Truncate(d / h) as real * h <= d < (Truncate(d / h) + 1) as real * h
  {
    var q := d / h;
    var n := Truncate(q);
    Bracket(n as real, q, h, d);
    assert (n + 1) as real == n as real + 1.0;
  }

  /** A quotient between `m` and `m + 1` puts the dividend between `m` and
      `m + 1` steps. */
  lemma Bracket(m: real, q: real, h: real, d: real)
    requires h > 0.0 && m <= q < m + 1.0 && q * h == d
    ensures m * h <= d < (m + 1.0) * h
  {
    var m1 := m + 1.0;
    ScaleLess(q, m1, h);
    assert d < m1 * h;
    ScaleLess(m, q, h);
    assert m * h <= d;
  }

  /** Multiplying by a positive number preserves order. */
  lemma ScaleLess(u: real, v: real, h: real)
    requires h > 0.0
    ensures u <= v ==> u * h <= v * h
    ensures u < v ==> u * h < v * h
  {
  }

  /** The rule-selection branch: even `n` divisible by 3 takes Simpson's
      3/8 rule (checked first), other even `n` Simpson's 1/3 rule, odd `n`
      the trapezoidal rule. Python's `%` by 2 or 3 agrees with Dafny's. */
  function SelectRule(n: int): (rule: Rule)
    ensures rule == Trapezoid <==> n % 2 == 1
    ensures rule == ThreeEighths <==> n % 6 == 0
    ensures rule == OneThird <==> n % 2 == 0 && n % 3 != 0
  {
    if n % 2 == 0 then
      if n % 3 == 0 then ThreeEighths else OneThird
    else
      Trapezoid
  }

  /** For any usable count the chosen rule's grouping of sub-intervals fits
      `n`: pairs for Simpson's 1/3 rule, triples for the 3/8 rule. */
  lemma SelectedRuleFits(n: int)
    requires n >= 1
    ensures SelectRule(n) == OneThird ==> n >= 2 && n % 2 == 0
    ensures SelectRule(n) == ThreeEighths ==> n >= 6 && n % 3 == 0 && n % 2 == 0
  {
  }

  /** `n == 3` is odd and takes the trapezoidal rule, not the 3/8 rule;
      `n == 0` is even and divisible by 3, so it takes the 3/8 branch. */
  lemma SelectRuleEdgeCases()
    ensures SelectRule(3) == Trapezoid
    ensures SelectRule(0) == ThreeEighths
    ensures SelectRule(1) == Trapezoid
  {
  }

  /** The value each rule is meant to compute over `n` sub-intervals of
      `[a, b]`: the step-scaled sum of the samples under the rule's
      weights. */
  function WeightedRule(rule: Rule, f: real -> real, a: real, b: real, n: int): real
    requires n >= 1
  {
    match rule
    case OneThird => WSum(OneThirdWeight(n), Samples(f, a, b, n), n + 1) * (Step(a, b, n) / 3.0)
    case ThreeEighths => WSum(ThreeEighthsWeight(n), Samples(f, a, b, n), n + 1) * (3.0 * Step(a, b, n) / 8.0)
    case Trapezoid => WSum(TrapezoidWeight(n), Samples(f, a, b, n), n + 1) * Step(a, b, n)
  }

  /** Run the rule `SelectRule(n)` over `[x0, xn]` with `n` sub-intervals,
      reporting the exception the source would raise as a `Failure`:
      `n == 0` divides by zero in the 3/8 rule, `n == -1` takes the
      trapezoidal rule with no samples, and smaller `n` asks `linspace`
      for a negative number of samples. The user's `h` only fixes `n`; the
      rule itself steps by `(xn - x0) / n`. */
  function EqualIntervals(f: real -> real, x0: real, xn: real, h: real): (r: Result<Estimate>)
    requires h > 0.0
    ensures r.Success? <==> xn - x0 >= h
    ensures r == Failure(DivisionByZero) <==> -h < xn - x0 < h
    ensures r.Success? ==> r.value.rule == SelectRule(IntervalCount(x0, xn, h))
    ensures r.Success? ==> r.value.value == WeightedRule(r.value.rule, f, x0, xn, IntervalCount(x0, xn, h))
    ensures r.Success? && (forall x :: f(x) == f(x0)) ==> r.value.value == (xn - x0) * f(x0)
  {
    var n := IntervalCount(x0, xn, h);
    var rule := SelectRule(n);
    if n == 0 && rule == ThreeEighths then Failure(DivisionByZero)
    else if n == -1 && rule == Trapezoid then Failure(EmptySamples)
    else if n < 0 then Failure(NegativeSampleCount)
    else
      WeightedRuleOnConstant(rule, f, x0, xn, n);
      Success(Estimate(rule, RunRule(rule, f, x0, xn, n)))
  }

  /** The call in the chosen branch: `simpson_three_eighth`,
      `simpson_one_third` or `trapezoidal` over `[a, b]` with `n`
      sub-intervals, on a count the rule's grouping divides. */
  function RunRule(rule: Rule, f: real -> real, a: real, b: real, n: int): (v: real)
    requires n >= 1
    requires rule == OneThird ==> n % 2 == 0
    requires rule == ThreeEighths ==> n % 3 == 0
    ensures v == WeightedRule(rule, f, a, b, n)
  {
    match rule
    case ThreeEighths => SimpsonThreeEighths(f, a, b, n)
    case OneThird => SimpsonOneThird(f, a, b, n)
    case Trapezoid => Trapezoidal(f, a, b, n)
  }

  /** On a count its grouping divides, every rule integrates a constant
      exactly: the weights scaled by the step add up to `b - a`. */
  lemma WeightedRuleOnConstant(rule: Rule, f: real -> real, a: real, b: real, n: int)
    requires n >= 1
    requires rule == OneThird ==> n % 2 == 0
    requires rule == ThreeEighths ==> n % 3 == 0
    ensures (forall x :: f(x) == f(a)) ==> WeightedRule(rule, f, a, b, n) == (b - a) * f(a)
  {
    if forall x :: f(x) == f(a) {
      match rule
      case ThreeEighths =>
        assert SimpsonThreeEighths(f, a, b, n) == WeightedRule(rule, f, a, b, n);
      case OneThird =>
        assert SimpsonOneThird(f, a, b, n) == WeightedRule(rule, f, a, b, n);
      case Trapezoid =>
        assert Trapezoidal(f, a, b, n) == WeightedRule(rule, f, a, b, n);
    }
  }
}
