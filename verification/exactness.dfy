/** Simpson's 1/3 rule integrates cubic polynomials exactly. The proof
    regroups the 1, 4, 2, ..., 2, 4, 1 weights into panels of two
    sub-intervals, shows each panel exact for a cubic, and lets the panels
    telescope. */
module Exactness {
  import opened Weights
  import opened Rules
  import opened Quadrature

  /** The cubic `c0 + c1 x + c2 x^2 + c3 x^3`. */
  function Cubic(c0: real, c1: real, c2: real, c3: real, x: real): real
  {
    c0 + c1 * x + c2 * (x * x) + c3 * (x * x * x)
  }

  /** An antiderivative of `Cubic(c0, c1, c2, c3, .)`. */
  function CubicIntegral(c0: real, c1: real, c2: real, c3: real, x: real): real
  {
    c0 * x + c1 * (x * x) / 2.0 + c2 * (x * x * x) / 3.0 + c3 * (x * x * x * x) / 4.0
  }

  /** The first `m` Simpson panels `y[2j] + 4 y[2j+1] + y[2j+2]`, unscaled. */
  function PanelPairs(y: seq<real>, m: nat): real
    requires 2 * m + 1 <= |y|
  {
    if m == 0 then 0.0 else PanelPairs(y, m - 1) + (y[2 * m - 2] + 4.0 * y[2 * m - 1] + y[2 * m])
  }

  /** The weights for `2m` and `2m - 2` intervals agree before position
      `2m - 2`, where the first has an even interior point (2) and the
      second its endpoint (1). */
  lemma OneThirdWeightsAgree(m: nat)
    requires m >= 2
    ensures forall i :: 0 <= i < 2 * m - 2 ==> OneThirdWeight(2 * m)(i) == OneThirdWeight(2 * (m - 1))(i)
    ensures OneThirdWeight(2 * m)(2 * m - 2) == 2.0 && OneThirdWeight(2 * (m - 1))(2 * m - 2) == 1.0
  {
  }

  /** Over the samples before the last panel, the weights for `2m`
      intervals sum to those for `2m - 2` plus the old endpoint once more:
      extending the rule by one panel moves that sample from an endpoint
      (weight 1) to an even interior point (weight 2), and leaves every
      earlier weight alone. */
  lemma OneThirdPrefix(y: seq<real>, m: nat)
    requires m >= 2 && 2 * m + 1 <= |y|
    ensures WSum(OneThirdWeight(2 * m), y, 2 * m - 1)
         == WSum(OneThirdWeight(2 * (m - 1)), y, 2 * (m - 1) + 1) + y[2 * m - 2]
  {
    OneThirdWeightsAgree(m);
    WSumChangeLast(OneThirdWeight(2 * m), OneThirdWeight(2 * (m - 1)), y, 2 * m - 2, 2.0, 1.0);
  }

  /** The last panel contributes weights 4 and 1 after the prefix. */
  lemma OneThirdTail(y: seq<real>, m: nat)
    requires m >= 1 && 2 * m + 1 <= |y|
    ensures WSum(OneThirdWeight(2 * m), y, 2 * m + 1)
         == WSum(OneThirdWeight(2 * m), y, 2 * m - 1) + 4.0 * y[2 * m - 1] + 1.0 * y[2 * m]
  {
    WSumStep(OneThirdWeight(2 * m), y, 2 * m - 1, 4.0);
    WSumStep(OneThirdWeight(2 * m), y, 2 * m, 1.0);
  }

  /** The Simpson 1/3 weights are the sum of the panel weights 1, 4, 1. */
  lemma {:induction false} OneThirdPanels(y: seq<real>, m: nat)
    requires m >= 1 && 2 * m + 1 <= |y|
    ensures WSum(OneThirdWeight(2 * m), y, 2 * m + 1) == PanelPairs(y, m)
  {
    OneThirdTail(y, m);
    if m == 1 {
      WSumStep(OneThirdWeight(2 * m), y, 0, 1.0);
    } else {
      OneThirdPanels(y, m - 1);
      OneThirdPrefix(y, m);
    }
  }

  /** Expanding the cubic at `x`, given `x^2` and `x^3`. */
  lemma CubicExpand(c0: real, c1: real, c2: real, c3: real, x: real, x2: real, x3: real)
    requires x2 == x * x && x3 == x * x * x
    ensures Cubic(c0, c1, c2, c3, x) == c0 + c1 * x + c2 * x2 + c3 * x3
  {
  }

  /** The growth of the antiderivative from `u` to `w`, power by power. */
  lemma CubicIntegralGrowth(c0: real, c1: real, c2: real, c3: real, u: real, w: real,
                            u2: real, u3: real, u4: real, w2: real, w3: real, w4: real,
                            s0: real, s1: real, s2: real, s3: real)
    requires u2 == u * u && u3 == u * u * u && u4 == u * u * u * u
    requires w2 == w * w && w3 == w * w * w && w4 == w * w * w * w
    requires s0 == w - u && s1 == (w2 - u2) / 2.0 && s2 == (w3 - u3) / 3.0 && s3 == (w4 - u4) / 4.0
    ensures CubicIntegral(c0, c1, c2, c3, w) - CubicIntegral(c0, c1, c2, c3, u)
         == c0 * s0 + c1 * s1 + c2 * s2 + c3 * s3
  {
  }

  /** One Simpson panel over `u, v = u + h, w = u + 2h` is exact for `1`
      and `x`. */
  lemma PanelLowPowers(u: real, v: real, w: real, h: real, u2: real, w2: real, s0: real, s1: real)
    requires v - u == h && w - v == h
    requires u2 == u * u && w2 == w * w
    requires s0 == w - u && s1 == (w2 - u2) / 2.0
    ensures h / 3.0 * (1.0 + 4.0 * 1.0 + 1.0) == s0
    ensures h / 3.0 * (u + 4.0 * v + w) == s1
  {
  }

  /** One Simpson panel is exact for `x^2`. */
  lemma PanelSquare(u: real, v: real, w: real, h: real,
                    u2: real, v2: real, w2: real, u3: real, w3: real, s2: real)
    requires v - u == h && w - v == h
    requires u2 == u * u && v2 == v * v && w2 == w * w
    requires u3 == u * u * u && w3 == w * w * w
    requires s2 == (w3 - u3) / 3.0
    ensures h / 3.0 * (u2 + 4.0 * v2 + w2) == s2
  {
  }

  /** One Simpson panel is exact for `x^3`, one degree more than its
      construction asks for. */
  lemma PanelCube(u: real, v: real, w: real, h: real,
                  u3: real, v3: real, w3: real, u4: real, w4: real, s3: real)
    requires v - u == h && w - v == h
    requires u3 == u * u * u && v3 == v * v * v && w3 == w * w * w
    requires u4 == u * u * u * u && w4 == w * w * w * w
    requires s3 == (w4 - u4) / 4.0
    ensures h / 3.0 * (u3 + 4.0 * v3 + w3) == s3
  {
  }

  /** A panel that is exact for each power is exact for their combination. */
  lemma PanelCombine(c0: real, c1: real, c2: real, c3: real, h: real,
                     a1: real, a2: real, a3: real,
                     b1: real, b2: real, b3: real,
                     d1: real, d2: real, d3: real,
                     pu: real, pv: real, pw: real,
                     s0: real, s1: real, s2: real, s3: real)
    requires pu == c0 + c1 * a1 + c2 * a2 + c3 * a3
    requires pv == c0 + c1 * b1 + c2 * b2 + c3 * b3
    requires pw == c0 + c1 * d1 + c2 * d2 + c3 * d3
    requires h / 3.0 * (1.0 + 4.0 * 1.0 + 1.0) == s0
    requires h / 3.0 * (a1 + 4.0 * b1 + d1) == s1
    requires h / 3.0 * (a2 + 4.0 * b2 + d2) == s2
    requires h / 3.0 * (a3 + 4.0 * b3 + d3) == s3
    ensures h / 3.0 * (pu + 4.0 * pv + pw) == c0 * s0 + c1 * s1 + c2 * s2 + c3 * s3
  {
  }

  /** One Simpson panel over `u, v = u + h, w = u + 2h` is exact for a
      cubic. The powers of the three points are named once, so that every
      step sees them as the same values. */
  lemma CubicPanel(c0: real, c1: real, c2: real, c3: real, u: real, v: real, w: real, h: real,
                    pu: real, pv: real, pw: real, gu: real, gw: real)
    requires v - u == h && w - v == h
    requires pu == Cubic(c0, c1, c2, c3, u) && pv == Cubic(c0, c1, c2, c3, v) && pw == Cubic(c0, c1, c2, c3, w)
    requires gu == CubicIntegral(c0, c1, c2, c3, u) && gw == CubicIntegral(c0, c1, c2, c3, w)
    ensures h / 3.0 * (pu + 4.0 * pv + pw) == gw - gu
  {
    var u2, v2, w2 := u * u, v * v, w * w;
    var u3, v3, w3 := u * u * u, v * v * v, w * w * w;
    var u4, w4 := u * u * u * u, w * w * w * w;
    var s0, s1, s2, s3 := w - u, (w2 - u2) / 2.0, (w3 - u3) / 3.0, (w4 - u4) / 4.0;
    CubicExpand(c0, c1, c2, c3, u, u2, u3);
    CubicExpand(c0, c1, c2, c3, v, v2, v3);
    CubicExpand(c0, c1, c2, c3, w, w2, w3);
    PanelLowPowers(u, v, w, h, u2, w2, s0, s1);
    PanelSquare(u, v, w, h, u2, v2, w2, u3, w3, s2);
    PanelCube(u, v, w, h, u3, v3, w3, u4, w4, s3);
    PanelCombine(c0, c1, c2, c3, h, u, u2, u3, v, v2, v3, w, w2, w3, pu, pv, pw, s0, s1, s2, s3);
    CubicIntegralGrowth(c0, c1, c2, c3, u, w, u2, u3, u4, w2, w3, w4, s0, s1, s2, s3);
  }

  /** Scaling distributes over one more panel. */
  lemma ScalePanel(before: real, panel: real, h: real)
    ensures (before + panel) * (h / 3.0) == before * (h / 3.0) + h / 3.0 * panel
  {
  }

  /** Panel `j` (over positions `2j, 2j + 1, 2j + 2`), scaled by `h / 3`,
      equals the growth of the antiderivative values `g` across it. */
  predicate PanelExact(y: seq<real>, g: seq<real>, h: real, j: nat)
    requires 2 * j + 2 < |y| && |g| == |y|
  {
    h / 3.0 * (y[2 * j] + 4.0 * y[2 * j + 1] + y[2 * j + 2]) == g[2 * j + 2] - g[2 * j]
  }

  /** When every panel is exact, the first `m` panels telescope to the
      growth of `g` from position 0 to position `2m`. */
  lemma {:induction false} PanelPairsTelescope(y: seq<real>, g: seq<real>, h: real, m: nat)
    requires |g| == |y| && 2 * m + 1 <= |y|
    requires forall j :: 0 <= j < m ==> PanelExact(y, g, h, j)
    ensures PanelPairs(y, m) * (h / 3.0) == g[2 * m] - g[0]
  {
    if m > 0 {
      PanelPairsTelescope(y, g, h, m - 1);
      assert PanelExact(y, g, h, m - 1);
      ScalePanel(PanelPairs(y, m - 1), y[2 * m - 2] + 4.0 * y[2 * m - 1] + y[2 * m], h);
    }
  }

  /** A panel whose samples are `pu, pv, pw` and whose antiderivative values
      at its ends are `gu, gw` is exact when those values are. */
  lemma PanelExactFrom(y: seq<real>, g: seq<real>, h: real, j: nat,
                       pu: real, pv: real, pw: real, gu: real, gw: real)
    requires 2 * j + 2 < |y| && |g| == |y|
    requires y[2 * j] == pu && y[2 * j + 1] == pv && y[2 * j + 2] == pw
    requires g[2 * j] == gu && g[2 * j + 2] == gw
    requires h / 3.0 * (pu + 4.0 * pv + pw) == gw - gu
    ensures PanelExact(y, g, h, j)
  {
  }

  /** `f` is the cubic with coefficients `c0 .. c3`. The trigger keeps the
      cubic's definition out of sight until a proof names `Cubic` itself. */
  ghost predicate IsCubic(f: real -> real, c0: real, c1: real, c2: real, c3: real)
  {
    forall x {:trigger Cubic(c0, c1, c2, c3, x)} :: f(x) == Cubic(c0, c1, c2, c3, x)
  }

  /** One Simpson panel of the samples of a cubic `f` is exact. */
  lemma CubicPanelAt(f: real -> real, c0: real, c1: real, c2: real, c3: real, u: real, v: real, w: real, h: real)
    requires IsCubic(f, c0, c1, c2, c3)
    requires v - u == h && w - v == h
    ensures h / 3.0 * (f(u) + 4.0 * f(v) + f(w)) == CubicIntegral(c0, c1, c2, c3, w) - CubicIntegral(c0, c1, c2, c3, u)
  {
    CubicPanel(c0, c1, c2, c3, u, v, w, h, f(u), f(v), f(w),
               CubicIntegral(c0, c1, c2, c3, u), CubicIntegral(c0, c1, c2, c3, w));
  }

  /** On the grid, every panel of a cubic's samples is exact. */
  lemma CubicPanelsExact(f: real -> real, c0: real, c1: real, c2: real, c3: real, a: real, b: real, n: int, g: seq<real>)
    requires n >= 2
    requires IsCubic(f, c0, c1, c2, c3)
    requires |g| == n + 1
    requires forall i :: 0 <= i <= n ==> g[i] == CubicIntegral(c0, c1, c2, c3, Grid(a, b, n)[i])
    ensures forall j: nat :: 2 * j + 2 <= n ==>
              PanelExact(Samples(f, a, b, n), g, Step(a, b, n), j)
  {
    forall j: nat | 2 * j + 2 <= n
      ensures PanelExact(Samples(f, a, b, n), g, Step(a, b, n), j)
    {
      CubicPanelExact(f, c0, c1, c2, c3, a, b, n, g, j);
    }
  }

  /** On the grid, panel `j` of a cubic's samples is exact. */
  lemma CubicPanelExact(f: real -> real, c0: real, c1: real, c2: real, c3: real, a: real, b: real, n: int, g: seq<real>, j: nat)
    requires 2 * j + 2 <= n
    requires IsCubic(f, c0, c1, c2, c3)
    requires |g| == n + 1
    requires forall i :: 0 <= i <= n ==> g[i] == CubicIntegral(c0, c1, c2, c3, Grid(a, b, n)[i])
    ensures PanelExact(Samples(f, a, b, n), g, Step(a, b, n), j)
  {
    var xs, h := Grid(a, b, n), Step(a, b, n);
    var u, v, w := xs[2 * j], xs[2 * j + 1], xs[2 * j + 2];
    assert v - u == h && w - v == h;
    CubicPanelAt(f, c0, c1, c2, c3, u, v, w, h);
    PanelExactFrom(Samples(f, a, b, n), g, h, j, f(u), f(v), f(w),
                   CubicIntegral(c0, c1, c2, c3, u), CubicIntegral(c0, c1, c2, c3, w));
  }

  /** When every panel of the samples `y` is exact for the values `g`, the
      Simpson 1/3 weighted sum, scaled by `h / 3`, is the growth of `g` over
      the whole grid. */
  lemma OneThirdTelescopes(y: seq<real>, h: real, n: int, g: seq<real>)
    requires n >= 2 && n % 2 == 0 && |g| == n + 1 && |y| == n + 1
    requires forall j: nat :: 2 * j + 2 <= n ==> PanelExact(y, g, h, j)
    ensures WSum(OneThirdWeight(n), y, n + 1) * (h / 3.0) == g[n] - g[0]
  {
    var m := n / 2;
    assert 2 * m == n;
    forall j | 0 <= j < m
      ensures PanelExact(y, g, h, j)
    {
      assert 2 * j + 2 <= n;
    }
    PanelPairsTelescope(y, g, h, m);
    OneThirdPanels(y, m);
  }

  /** When every panel of the samples of `f` is exact for the values `g`,
      Simpson's 1/3 rule returns the growth of `g` over the whole grid. */
  lemma OneThirdExactWhenPanelsAre(f: real -> real, a: real, b: real, n: int, g: seq<real>)
    requires n >= 2 && n % 2 == 0 && |g| == n + 1
    requires forall j: nat :: 2 * j + 2 <= n ==> PanelExact(Samples(f, a, b, n), g, Step(a, b, n), j)
    ensures SimpsonOneThird(f, a, b, n) == g[n] - g[0]
  {
    var y, h := Samples(f, a, b, n), Step(a, b, n);
    OneThirdTelescopes(y, h, n, g);
    OneThirdWeighted(y, h, n);
    assert SimpsonOneThird(f, a, b, n) == OneThirdSum(y, h);
  }

  /** Simpson's 1/3 rule is exact for every cubic and every even `n`. */
  lemma SimpsonOneThirdExactOnCubics(f: real -> real, c0: real, c1: real, c2: real, c3: real, a: real, b: real, n: int)
    requires n >= 2 && n % 2 == 0
    requires IsCubic(f, c0, c1, c2, c3)
    ensures SimpsonOneThird(f, a, b, n) == CubicIntegral(c0, c1, c2, c3, b) - CubicIntegral(c0, c1, c2, c3, a)
  {
    var xs := Grid(a, b, n);
    var g := seq(n + 1, i requires 0 <= i <= n => CubicIntegral(c0, c1, c2, c3, xs[i]));
    CubicPanelsExact(f, c0, c1, c2, c3, a, b, n, g);
    OneThirdExactWhenPanelsAre(f, a, b, n, g);
  }
}
