/** The three composite rules of `project.py` on an equally spaced grid.
    Each rule is split the way the source computes it: a combinator that
    forms the weighted sum from the `n + 1` samples `y` with Python slices
    and scales it by the step, and a rule that samples the integrand on
    the grid `numpy.linspace(a, b, n + 1)` and calls the combinator.

    Next to each combinator stands its reference form: one weight per
    sample, as the textbook formula states it. The lemmas below show that
    the slices pick exactly the intended positions and that combinator and
    reference agree. */
module Rules {
  import opened PySeq
  import opened Weights

  // ---------------------------------------------------------------------
  // Reference weights, one per sample position 0..n

  /** Simpson's 1/3 rule: 1, 4, 2, 4, ..., 2, 4, 1. */
  function OneThirdWeight(n: int): int -> real
  {
    i => if i == 0 || i == n then 1.0 else if i % 2 == 1 then 4.0 else 2.0
  }

  /** Simpson's 3/8 rule: 1, 3, 3, 2, 3, 3, 2, ..., 3, 3, 1. */
  function ThreeEighthsWeight(n: int): int -> real
  {
    i => if i == 0 || i == n then 1.0 else if i % 3 == 0 then 2.0 else 3.0
  }

  /** The trapezoidal rule: 1/2, 1, ..., 1, 1/2. */
  function TrapezoidWeight(n: int): int -> real
  {
    i => if i == 0 || i == n then 0.5 else 1.0
  }

  // ---------------------------------------------------------------------
  // Which positions the slices select

  /** Slicing the `n + 1` samples with `[start:stop:step]` picks position `i`. */
  predicate Picks(n: nat, start: int, stop: int, step: int, i: int)
    requires step > 0
  {
    Selects(n + 1, start, stop, step, i)
  }

  /** With `|y| == n + 1` and `n` even, `y[1:-1:2]` selects exactly the odd
      positions `1..n-1`, `n / 2` of them. */
  lemma OneThirdOddSlice(n: int)
    requires n >= 2 && n % 2 == 0
    ensures forall i :: Picks(n, 1, -1, 2, i) <==> 1 <= i <= n - 1 && i % 2 == 1
    ensures |SliceIndices(n + 1, 1, -1, 2)| == n / 2
  {
    SliceMembers(n + 1, 1, -1, 2);
  }

  /** With `|y| == n + 1` and `n` even, `y[2:-2:2]` selects exactly the even
      positions `2..n-2`, `n / 2 - 1` of them (none when `n == 2`). */
  lemma OneThirdEvenSlice(n: int)
    requires n >= 2 && n % 2 == 0
    ensures forall i :: Picks(n, 2, -2, 2, i) <==> 2 <= i <= n - 2 && i % 2 == 0
    ensures |SliceIndices(n + 1, 2, -2, 2)| == n / 2 - 1
    ensures n == 2 ==> SliceIndices(n + 1, 2, -2, 2) == []
  {
    SliceMembers(n + 1, 2, -2, 2);
  }

  /** Together the two Simpson 1/3 slices count every interior position
      exactly once and leave out both endpoints. */
  lemma OneThirdSlicesPartition(n: int)
    requires n >= 2 && n % 2 == 0
    ensures forall i :: 1 <= i <= n - 1 ==> Picks(n, 1, -1, 2, i) != Picks(n, 2, -2, 2, i)
    ensures forall i :: Picks(n, 1, -1, 2, i) || Picks(n, 2, -2, 2, i) ==> 1 <= i <= n - 1
  {
    OneThirdOddSlice(n);
    OneThirdEvenSlice(n);
  }

  /** With `|y| == n + 1` and `n` a multiple of 3, `y[1:-1:3]` selects the
      positions `1, 4, 7, ...` below `n`, `n / 3` of them. */
  lemma ThreeEighthsFirstSlice(n: int)
    requires n >= 3 && n % 3 == 0
    ensures forall i :: Picks(n, 1, -1, 3, i) <==> 1 <= i <= n - 1 && i % 3 == 1
    ensures |SliceIndices(n + 1, 1, -1, 3)| == n / 3
  {
    SliceMembers(n + 1, 1, -1, 3);
  }

  /** With `|y| == n + 1` and `n` a multiple of 3, `y[2:-1:3]` selects the
      positions `2, 5, 8, ...` below `n`, `n / 3` of them. */
  lemma ThreeEighthsSecondSlice(n: int)
    requires n >= 3 && n % 3 == 0
    ensures forall i :: Picks(n, 2, -1, 3, i) <==> 1 <= i <= n - 1 && i % 3 == 2
    ensures |SliceIndices(n + 1, 2, -1, 3)| == n / 3
  {
    SliceMembers(n + 1, 2, -1, 3);
  }

  /** With `|y| == n + 1` and `n` a multiple of 3, `y[3:-3:3]` selects
      exactly the multiples of 3 in `3..n-3`, `n / 3 - 1` of them (none
      when `n == 3`). */
  lemma ThreeEighthsThirdSlice(n: int)
    requires n >= 3 && n % 3 == 0
    ensures forall i :: Picks(n, 3, -3, 3, i) <==> 3 <= i <= n - 3 && i % 3 == 0
    ensures |SliceIndices(n + 1, 3, -3, 3)| == n / 3 - 1
    ensures n == 3 ==> SliceIndices(n + 1, 3, -3, 3) == []
  {
    SliceMembers(n + 1, 3, -3, 3);
  }

  /** The first two Simpson 3/8 slices are disjoint and together select
      exactly the interior positions that are not multiples of 3; the third
      selects the interior multiples of 3. So every interior position is
      counted by exactly one slice, and no endpoint by any. */
  lemma ThreeEighthsSlicesPartition(n: int)
    requires n >= 3 && n % 3 == 0
    ensures forall i :: Picks(n, 1, -1, 3, i) || Picks(n, 2, -1, 3, i)
                    <==> 1 <= i <= n - 1 && i % 3 != 0
    ensures forall i :: !(Picks(n, 1, -1, 3, i) && Picks(n, 2, -1, 3, i))
    ensures forall i :: 1 <= i <= n - 1 ==>
              (Picks(n, 1, -1, 3, i) || Picks(n, 2, -1, 3, i)) != Picks(n, 3, -3, 3, i)
  {
    ThreeEighthsFirstSlice(n);
    ThreeEighthsSecondSlice(n);
    ThreeEighthsThirdSlice(n);
  }

  /** With `|y| == n + 1`, `y[1:-1]` selects exactly the interior positions
      `1..n-1`. */
  lemma TrapezoidSlice(n: int)
    requires n >= 1
    ensures forall i :: Picks(n, 1, -1, 1, i) <==> 1 <= i <= n - 1
    ensures |SliceIndices(n + 1, 1, -1, 1)| == n - 1
  {
    SliceMembers(n + 1, 1, -1, 1);
  }

  // ---------------------------------------------------------------------
  // The combinators: weighted sums of the samples, formed with slices

  /** Simpson's 1/3 sum before scaling: the two end samples, plus four
      times the total of slice `y[1:-1:2]`, plus twice the total of slice
      `y[2:-2:2]`. On an odd
      number of samples, at least three, it is the sum of the samples
      weighted 1, 4, 2, ..., 2, 4, 1. */
  function OneThirdRaw(y: seq<real>): (r: real)
    requires |y| >= 1
    ensures |y| >= 3 && |y| % 2 == 1 ==> r == WSum(OneThirdWeight(|y| - 1), y, |y|)
  {
    var raw := Item(y, 0) + Item(y, -1) + 4.0 * Sum(Slice(y, 1, -1, 2)) + 2.0 * Sum(Slice(y, 2, -2, 2));
    if |y| >= 3 && |y| % 2 == 1 then
      OneThirdSlicePieces(y, |y| - 1);
      OneThirdWeightPieces(y, |y| - 1);
      raw
    else
      raw
  }

  /** Simpson's 1/3 combinator: the raw sum scaled by `h / 3`. On an odd
      number of samples, at least three, it is `h / 3` times the 1, 4, 2,
      ..., 2, 4, 1 weighted sum. */
  function OneThirdSum(y: seq<real>, h: real): (r: real)
    requires |y| >= 1
    ensures |y| >= 3 && |y| % 2 == 1 ==> r == WSum(OneThirdWeight(|y| - 1), y, |y|) * (h / 3.0)
  {
    OneThirdRaw(y) * (h / 3.0)
  }

  /** Simpson's 3/8 sum before scaling: the two end samples, plus three
      times the totals of slices `y[1:-1:3]` and `y[2:-1:3]`, plus twice the
      total of slice `y[3:-3:3]`. On `n + 1` samples with
      `n` a positive multiple of 3, it is the sum of the samples weighted
      1, 3, 3, 2, ..., 2, 3, 3, 1. */
  function ThreeEighthsRaw(y: seq<real>): (r: real)
    requires |y| >= 1
    ensures |y| >= 4 && (|y| - 1) % 3 == 0 ==> r == WSum(ThreeEighthsWeight(|y| - 1), y, |y|)
  {
    var raw := Item(y, 0) + Item(y, -1) + 3.0 * Sum(Slice(y, 1, -1, 3)) + 3.0 * Sum(Slice(y, 2, -1, 3))
               + 2.0 * Sum(Slice(y, 3, -3, 3));
    if |y| >= 4 && (|y| - 1) % 3 == 0 then
      ThreeEighthsSlicePieces(y, |y| - 1);
      ThreeEighthsWeightPieces(y, |y| - 1);
      raw
    else
      raw
  }

  /** Simpson's 3/8 combinator: the raw sum scaled by `3 * h / 8`. On
      `n + 1` samples with `n` a positive multiple of 3, it is `3 h / 8`
      times the 1, 3, 3, 2, ..., 2, 3, 3, 1 weighted sum. */
  function ThreeEighthsSum(y: seq<real>, h: real): (r: real)
    requires |y| >= 1
    ensures |y| >= 4 && (|y| - 1) % 3 == 0 ==> r == WSum(ThreeEighthsWeight(|y| - 1), y, |y|) * (3.0 * h / 8.0)
  {
    ThreeEighthsRaw(y) * (3.0 * h / 8.0)
  }

  /** The trapezoidal sum before scaling: half of each end sample plus the
      total of the interior slice `y[1:-1]`. On two or more samples it is the sum of the samples weighted 1/2, 1,
      ..., 1, 1/2. */
  function TrapezoidRaw(y: seq<real>): (r: real)
    requires |y| >= 1
    ensures |y| >= 2 ==> r == WSum(TrapezoidWeight(|y| - 1), y, |y|)
  {
    var raw := (Item(y, 0) + Item(y, -1)) / 2.0 + Sum(Slice(y, 1, -1, 1));
    if |y| >= 2 then
      TrapezoidSlicePieces(y, |y| - 1);
      TrapezoidWeightPieces(y, |y| - 1);
      raw
    else
      raw
  }

  /** The trapezoidal combinator: the raw sum scaled by `h`. On two or more
      samples it is `h` times the 1/2, 1, ..., 1, 1/2 weighted sum. */
  function TrapezoidSum(y: seq<real>, h: real): (r: real)
    requires |y| >= 1
    ensures |y| >= 2 ==> r == WSum(TrapezoidWeight(|y| - 1), y, |y|) * h
  {
    TrapezoidRaw(y) * h
  }

  // ---------------------------------------------------------------------
  // Combinators agree with the reference weights

  /** One Simpson 1/3 weight, as the endpoints and the two slices
      contribute to it. */
  lemma OneThirdWeightSplit(n: int, i: int)
    requires n >= 2 && n % 2 == 0 && 0 <= i <= n
    ensures OneThirdWeight(n)(i)
         == Unit(0)(i) + Unit(n)(i) + 4.0 * StrideWeight(1, n, 2)(i) + 2.0 * StrideWeight(2, n - 1, 2)(i)
  {
  }

  /** One Simpson 3/8 weight, as the endpoints and the three slices
      contribute to it. */
  lemma ThreeEighthsWeightSplit(n: int, i: int)
    requires n >= 3 && n % 3 == 0 && 0 <= i <= n
    ensures ThreeEighthsWeight(n)(i)
         == Unit(0)(i) + Unit(n)(i) + 3.0 * StrideWeight(1, n, 3)(i) + 3.0 * StrideWeight(2, n, 3)(i)
            + 2.0 * StrideWeight(3, n - 2, 3)(i)
  {
  }

  /** Each term of the Simpson 1/3 sum is a weighted sum of the samples:
      the endpoints with unit weights, each slice with the weights that
      mark the positions it selects. */
  lemma OneThirdSlicePieces(y: seq<real>, n: int)
    requires n >= 2 && n % 2 == 0 && |y| == n + 1
    ensures Item(y, 0) == WSum(Unit(0), y, n + 1) && Item(y, -1) == WSum(Unit(n), y, n + 1)
    ensures Sum(Slice(y, 1, -1, 2)) == WSum(StrideWeight(1, n, 2), y, n + 1)
    ensures Sum(Slice(y, 2, -2, 2)) == WSum(StrideWeight(2, n - 1, 2), y, n + 1)
  {
    assert ClampBound(n + 1, 1) == 1 && ClampBound(n + 1, -1) == n;
    assert ClampBound(n + 1, 2) == 2 && ClampBound(n + 1, -2) == n - 1;
    SliceSum(y, 1, -1, 2);
    SliceSum(y, 2, -2, 2);
    WSumUnit(y, 0, n + 1);
    WSumUnit(y, n, n + 1);
  }

  /** The Simpson 1/3 weights split into the endpoints and the two slices. */
  lemma OneThirdWeightPieces(y: seq<real>, n: int)
    requires n >= 2 && n % 2 == 0 && |y| == n + 1
    ensures WSum(OneThirdWeight(n), y, n + 1)
         == WSum(Unit(0), y, n + 1) + WSum(Unit(n), y, n + 1)
            + 4.0 * WSum(StrideWeight(1, n, 2), y, n + 1)
            + 2.0 * WSum(StrideWeight(2, n - 1, 2), y, n + 1)
  {
    var odd, even := StrideWeight(1, n, 2), StrideWeight(2, n - 1, 2);
    forall i | 0 <= i < |y|
      ensures OneThirdWeight(n)(i)
           == 1.0 * Unit(0)(i) + 1.0 * Unit(n)(i) + 4.0 * odd(i) + 2.0 * even(i) + 0.0 * Unit(0)(i)
    {
      OneThirdWeightSplit(n, i);
    }
    WSumLinear5(OneThirdWeight(n), Unit(0), Unit(n), odd, even, Unit(0), 1.0, 1.0, 4.0, 2.0, 0.0, y, n + 1);
  }

  /** Each term of the Simpson 3/8 sum is a weighted sum of the samples:
      the endpoints with unit weights, each slice with the weights that
      mark the positions it selects. */
  lemma ThreeEighthsSlicePieces(y: seq<real>, n: int)
    requires n >= 3 && n % 3 == 0 && |y| == n + 1
    ensures Item(y, 0) == WSum(Unit(0), y, n + 1) && Item(y, -1) == WSum(Unit(n), y, n + 1)
    ensures Sum(Slice(y, 1, -1, 3)) == WSum(StrideWeight(1, n, 3), y, n + 1)
    ensures Sum(Slice(y, 2, -1, 3)) == WSum(StrideWeight(2, n, 3), y, n + 1)
    ensures Sum(Slice(y, 3, -3, 3)) == WSum(StrideWeight(3, n - 2, 3), y, n + 1)
  {
    assert ClampBound(n + 1, 1) == 1 && ClampBound(n + 1, -1) == n;
    assert ClampBound(n + 1, 2) == 2 && ClampBound(n + 1, 3) == 3 && ClampBound(n + 1, -3) == n - 2;
    SliceSum(y, 1, -1, 3);
    SliceSum(y, 2, -1, 3);
    SliceSum(y, 3, -3, 3);
    WSumUnit(y, 0, n + 1);
    WSumUnit(y, n, n + 1);
  }

  /** The Simpson 3/8 weights split into the endpoints and the three slices. */
  lemma ThreeEighthsWeightPieces(y: seq<real>, n: int)
    requires n >= 3 && n % 3 == 0 && |y| == n + 1
    ensures WSum(ThreeEighthsWeight(n), y, n + 1)
         == WSum(Unit(0), y, n + 1) + WSum(Unit(n), y, n + 1)
            + 3.0 * WSum(StrideWeight(1, n, 3), y, n + 1)
            + 3.0 * WSum(StrideWeight(2, n, 3), y, n + 1)
            + 2.0 * WSum(StrideWeight(3, n - 2, 3), y, n + 1)
  {
    var first, second, third := StrideWeight(1, n, 3), StrideWeight(2, n, 3), StrideWeight(3, n - 2, 3);
    forall i | 0 <= i < |y|
      ensures ThreeEighthsWeight(n)(i)
           == 1.0 * Unit(0)(i) + 1.0 * Unit(n)(i) + 3.0 * first(i) + 3.0 * second(i) + 2.0 * third(i)
    {
      ThreeEighthsWeightSplit(n, i);
    }
    WSumLinear5(ThreeEighthsWeight(n), Unit(0), Unit(n), first, second, third,
                1.0, 1.0, 3.0, 3.0, 2.0, y, n + 1);
  }

  /** One trapezoidal weight, as the endpoints and the slice contribute to it. */
  lemma TrapezoidWeightSplit(n: int, i: int)
    requires n >= 1 && 0 <= i <= n
    ensures TrapezoidWeight(n)(i) == 0.5 * Unit(0)(i) + 0.5 * Unit(n)(i) + 1.0 * StrideWeight(1, n, 1)(i)
  {
  }

  /** Each term of the trapezoidal sum is a weighted sum of the samples:
      the endpoints with unit weights, the slice with the weights that mark
      the interior positions. */
  lemma TrapezoidSlicePieces(y: seq<real>, n: int)
    requires n >= 1 && |y| == n + 1
    ensures Item(y, 0) == WSum(Unit(0), y, n + 1) && Item(y, -1) == WSum(Unit(n), y, n + 1)
    ensures Sum(Slice(y, 1, -1, 1)) == WSum(StrideWeight(1, n, 1), y, n + 1)
  {
    assert ClampBound(n + 1, 1) == 1 && ClampBound(n + 1, -1) == n;
    SliceSum(y, 1, -1, 1);
    WSumUnit(y, 0, n + 1);
    WSumUnit(y, n, n + 1);
  }

  /** The trapezoidal weights split into the endpoints and the slice. */
  lemma TrapezoidWeightPieces(y: seq<real>, n: int)
    requires n >= 1 && |y| == n + 1
    ensures WSum(TrapezoidWeight(n), y, n + 1)
         == 0.5 * WSum(Unit(0), y, n + 1) + 0.5 * WSum(Unit(n), y, n + 1)
            + 1.0 * WSum(StrideWeight(1, n, 1), y, n + 1)
  {
    var inner := StrideWeight(1, n, 1);
    forall i | 0 <= i < |y|
      ensures TrapezoidWeight(n)(i)
           == 0.5 * Unit(0)(i) + 0.5 * Unit(n)(i) + 1.0 * inner(i) + 0.0 * Unit(0)(i) + 0.0 * Unit(0)(i)
    {
      TrapezoidWeightSplit(n, i);
    }
    WSumLinear5(TrapezoidWeight(n), Unit(0), Unit(n), inner, Unit(0), Unit(0), 0.5, 0.5, 1.0, 0.0, 0.0, y, n + 1);
  }

  // ---------------------------------------------------------------------
  // Weight totals: the rules on constant samples

  /** How many positions the Simpson 1/3 slices of `2 m + 1` samples
      select: `m` odd and `m - 1` even ones. */
  lemma OneThirdCounts(m: nat, len: nat)
    requires m >= 1 && len == 2 * m + 1
    ensures |SliceIndices(len, 1, -1, 2)| == m
    ensures |SliceIndices(len, 2, -2, 2)| == m - 1
  {
    OneThirdOddSlice(2 * m);
    OneThirdEvenSlice(2 * m);
  }

  /** The 1/3 weights on a constant: two ends, `m` fours and `m - 1` twos
      add up to `3 n` copies with `n = 2 m`. */
  lemma OneThirdTotal(c: real, m: nat, n: real, e0: real, e1: real, s0: real, s1: real, r: real)
    requires m >= 1
    requires r == e0 + e1 + 4.0 * s0 + 2.0 * s1
    requires e0 == c && e1 == c && s0 == Copies(m, c) && s1 == Copies(m - 1, c) && n == 2.0 * m as real
    ensures r == 3.0 * n * c
  {
    CopiesStep(m, c);
    CopiesProduct(m, c);
  }

  /** On `2 m + 1` constant samples the Simpson 1/3 sum is `6 m` times the
      constant. */
  lemma OneThirdOnConstantPairs(y: seq<real>, c: real, m: nat)
    requires m >= 1 && |y| == 2 * m + 1
    requires forall i :: 0 <= i < |y| ==> y[i] == c
    ensures OneThirdRaw(y) == 3.0 * (|y| - 1) as real * c
  {
    OneThirdCounts(m, |y|);
    SliceOfConstant(y, 1, -1, 2, c, m);
    SliceOfConstant(y, 2, -2, 2, c, m - 1);
    OneThirdTotal(c, m, (|y| - 1) as real, Item(y, 0), Item(y, -1),
                  Sum(Slice(y, 1, -1, 2)), Sum(Slice(y, 2, -2, 2)), OneThirdRaw(y));
  }

  /** On constant samples the Simpson 1/3 sum is `3 * n` times the constant. */
  lemma OneThirdOnConstant(y: seq<real>, c: real)
    requires |y| >= 3 && (|y| - 1) % 2 == 0
    requires forall i :: 0 <= i < |y| ==> y[i] == c
    ensures OneThirdRaw(y) == 3.0 * (|y| - 1) as real * c
  {
    OneThirdOnConstantPairs(y, c, (|y| - 1) / 2);
  }

  /** How many positions the Simpson 3/8 slices of `3 m + 1` samples
      select: `m`, `m` and `m - 1`. */
  lemma ThreeEighthsCounts(m: nat, len: nat)
    requires m >= 1 && len == 3 * m + 1
    ensures |SliceIndices(len, 1, -1, 3)| == m
    ensures |SliceIndices(len, 2, -1, 3)| == m
    ensures |SliceIndices(len, 3, -3, 3)| == m - 1
  {
    ThreeEighthsFirstSlice(3 * m);
    ThreeEighthsSecondSlice(3 * m);
    ThreeEighthsThirdSlice(3 * m);
  }

  /** On `3 m + 1` constant samples the 3/8 combination is two ends,
      `2 m` threes and `m - 1` twos of the constant. */
  lemma ThreeEighthsRawOfConstant(y: seq<real>, c: real, m: nat)
    requires m >= 1 && |y| == 3 * m + 1
    requires forall i :: 0 <= i < |y| ==> y[i] == c
    ensures ThreeEighthsRaw(y) == 2.0 * c + 6.0 * Copies(m, c) + 2.0 * Copies(m - 1, c)
  {
    ThreeEighthsCounts(m, |y|);
    SliceOfConstant(y, 1, -1, 3, c, m);
    SliceOfConstant(y, 2, -1, 3, c, m);
    SliceOfConstant(y, 3, -3, 3, c, m - 1);
  }

  /** Two ends, `2 m` threes and `m - 1` twos add up to `8 n / 3` copies
      with `n = 3 m`. */
  lemma ThreeEighthsTotal(c: real, m: nat, n: real, r: real)
    requires m >= 1
    requires r == 2.0 * c + 6.0 * Copies(m, c) + 2.0 * Copies(m - 1, c)
    requires n == 3.0 * m as real
    ensures r == 8.0 * n / 3.0 * c
  {
    CopiesStep(m, c);
    CopiesProduct(m, c);
  }

  /** On `3 m + 1` constant samples the Simpson 3/8 sum is `8 m` times the
      constant. */
  lemma ThreeEighthsOnConstantTriples(y: seq<real>, c: real, m: nat)
    requires m >= 1 && |y| == 3 * m + 1
    requires forall i :: 0 <= i < |y| ==> y[i] == c
    ensures ThreeEighthsRaw(y) == 8.0 * (|y| - 1) as real / 3.0 * c
  {
    ThreeEighthsRawOfConstant(y, c, m);
    ThreeEighthsTotal(c, m, (|y| - 1) as real, ThreeEighthsRaw(y));
  }

  /** On constant samples the Simpson 3/8 sum is `8 * n / 3` times the constant. */
  lemma ThreeEighthsOnConstant(y: seq<real>, c: real)
    requires |y| >= 4 && (|y| - 1) % 3 == 0
    requires forall i :: 0 <= i < |y| ==> y[i] == c
    ensures ThreeEighthsRaw(y) == 8.0 * (|y| - 1) as real / 3.0 * c
  {
    ThreeEighthsOnConstantTriples(y, c, (|y| - 1) / 3);
  }

  /** How many positions the trapezoidal slice of `len == n + 1` samples
      selects: the `n - 1` interior ones. */
  lemma TrapezoidCount(n: int, len: nat)
    requires n >= 1 && len == n + 1
    ensures |SliceIndices(len, 1, -1, 1)| == n - 1
  {
    TrapezoidSlice(n);
  }

  /** The trapezoidal weights on a constant: two halves and `n - 1` ones
      add up to `n` copies. */
  lemma TrapezoidTotal(c: real, k: nat, n: real, e0: real, e1: real, s: real, r: real)
    requires r == (e0 + e1) / 2.0 + s
    requires e0 == c && e1 == c && s == Copies(k, c) && n == k as real + 1.0
    ensures r == n * c
  {
    CopiesProduct(k, c);
  }

  /** On constant samples the trapezoidal sum is `n` times the constant. */
  lemma TrapezoidOnConstant(y: seq<real>, c: real)
    requires |y| >= 2
    requires forall i :: 0 <= i < |y| ==> y[i] == c
    ensures TrapezoidRaw(y) == (|y| - 1) as real * c
  {
    var n := |y| - 1;
    TrapezoidCount(n, |y|);
    SliceOfConstant(y, 1, -1, 1, c, n - 1);
    TrapezoidTotal(c, n - 1, (|y| - 1) as real, Item(y, 0), Item(y, -1), Sum(Slice(y, 1, -1, 1)), TrapezoidRaw(y));
  }
}
