/** Weighted sums `w(0)*y[0] + ... + w(k-1)*y[k-1]`: the reference form in
    which each quadrature rule is stated, one weight per sample. */
module Weights {
  import opened PySeq

  /** The weighted sum of the first `k` samples of `y`. */
  function WSum(w: int -> real, y: seq<real>, k: nat): real
    requires k <= |y|
  {
    if k == 0 then 0.0 else WSum(w, y, k - 1) + w(k - 1) * y[k - 1]
  }

  /** Weight 1 at position `j`, 0 elsewhere. */
  function Unit(j: int): int -> real
  {
    i => if i == j then 1.0 else 0.0
  }

  /** Weight 1 at the positions a stride visits, 0 elsewhere. */
  function StrideWeight(start: int, stop: int, step: int): int -> real
    requires step > 0
  {
    i => if OnStride(start, stop, step, i) then 1.0 else 0.0
  }

  /** One more sample, whose weight is `p`, adds `p` times that sample. */
  lemma WSumStep(w: int -> real, y: seq<real>, k: nat, p: real)
    requires k < |y| && w(k) == p
    ensures WSum(w, y, k + 1) == WSum(w, y, k) + p * y[k]
  {
  }

  /** Two weightings that agree before position `k` and give `p` and `q`
      at `k` differ by `p - q` times sample `k` once it is summed. */
  lemma WSumChangeLast(w: int -> real, u: int -> real, y: seq<real>, k: nat, p: real, q: real)
    requires k < |y|
    requires forall i :: 0 <= i < k ==> w(i) == u(i)
    requires w(k) == p && u(k) == q
    ensures WSum(w, y, k + 1) == WSum(u, y, k + 1) + (p - q) * y[k]
  {
    WSumCongruent(w, u, y, k);
  }

  /** Equal sums stay equal when both are scaled by the same factor. */
  lemma ScaleBoth(p: real, q: real, s: real)
    requires p == q
    ensures p * s == q * s
  {
  }

  /** Zero weights give a zero sum. */
  lemma {:induction false} WSumZero(w: int -> real, y: seq<real>, k: nat)
    requires k <= |y|
    requires forall i :: 0 <= i < k ==> w(i) == 0.0
    ensures WSum(w, y, k) == 0.0
  {
    if k > 0 {
      WSumZero(w, y, k - 1);
    }
  }

  /** The weighting `u` scaled by `c`. */
  function Scaled(c: real, u: int -> real): int -> real
  {
    i => c * u(i)
  }

  /** Scaling a weighting by `c` scales its sum by `c`. */
  lemma {:induction false} WSumScaled(c: real, u: int -> real, y: seq<real>, k: nat)
    requires k <= |y|
    ensures WSum(Scaled(c, u), y, k) == c * WSum(u, y, k)
  {
    if k > 0 {
      WSumScaled(c, u, y, k - 1);
      var j := k - 1;
      assert Scaled(c, u)(j) * y[j] == c * (u(j) * y[j]);
    }
  }

  /** Adding two weightings adds their sums. */
  lemma {:induction false} WSumAdd(w: int -> real, u: int -> real, v: int -> real, y: seq<real>, k: nat)
    requires k <= |y|
    requires forall i :: 0 <= i < k ==> w(i) == u(i) + v(i)
    ensures WSum(w, y, k) == WSum(u, y, k) + WSum(v, y, k)
  {
    if k > 0 {
      WSumAdd(w, u, v, y, k - 1);
      var j := k - 1;
      assert w(j) * y[j] == u(j) * y[j] + v(j) * y[j];
    }
  }

  /** Adding five weightings adds their sums. */
  lemma {:induction false} WSumAdd5(w: int -> real, v1: int -> real, v2: int -> real, v3: int -> real,
                                    v4: int -> real, v5: int -> real, y: seq<real>, k: nat)
    requires k <= |y|
    requires forall i :: 0 <= i < k ==> w(i) == v1(i) + v2(i) + v3(i) + v4(i) + v5(i)
    ensures WSum(w, y, k) == WSum(v1, y, k) + WSum(v2, y, k) + WSum(v3, y, k) + WSum(v4, y, k) + WSum(v5, y, k)
  {
    if k > 0 {
      WSumAdd5(w, v1, v2, v3, v4, v5, y, k - 1);
      var j := k - 1;
      assert w(j) * y[j] == v1(j) * y[j] + v2(j) * y[j] + v3(j) * y[j] + v4(j) * y[j] + v5(j) * y[j];
    }
  }

  /** A weighted sum is linear in its weights. */
  lemma WSumLinear(w: int -> real, u: int -> real, v: int -> real,
                   cu: real, cv: real, y: seq<real>, k: nat)
    requires k <= |y|
    requires forall i :: 0 <= i < k ==> w(i) == cu * u(i) + cv * v(i)
    ensures WSum(w, y, k) == cu * WSum(u, y, k) + cv * WSum(v, y, k)
  {
    WSumAdd(w, Scaled(cu, u), Scaled(cv, v), y, k);
    WSumScaled(cu, u, y, k);
    WSumScaled(cv, v, y, k);
  }

  /** Linearity for a combination of five weightings, the most any rule
      here combines (unused terms take coefficient 0). */
  lemma WSumLinear5(w: int -> real,
                    u1: int -> real, u2: int -> real, u3: int -> real,
                    u4: int -> real, u5: int -> real,
                    c1: real, c2: real, c3: real, c4: real, c5: real,
                    y: seq<real>, k: nat)
    requires k <= |y|
    requires forall i :: 0 <= i < k ==> w(i) == c1 * u1(i) + c2 * u2(i) + c3 * u3(i) + c4 * u4(i) + c5 * u5(i)
    ensures WSum(w, y, k) == c1 * WSum(u1, y, k) + c2 * WSum(u2, y, k) + c3 * WSum(u3, y, k)
                             + c4 * WSum(u4, y, k) + c5 * WSum(u5, y, k)
  {
    WSumAdd5(w, Scaled(c1, u1), Scaled(c2, u2), Scaled(c3, u3), Scaled(c4, u4), Scaled(c5, u5), y, k);
    WSumScaled(c1, u1, y, k);
    WSumScaled(c2, u2, y, k);
    WSumScaled(c3, u3, y, k);
    WSumScaled(c4, u4, y, k);
    WSumScaled(c5, u5, y, k);
  }

  /** Weights that agree on the summed positions give the same sum. */
  lemma WSumCongruent(w: int -> real, u: int -> real, y: seq<real>, k: nat)
    requires k <= |y|
    requires forall i :: 0 <= i < k ==> w(i) == u(i)
    ensures WSum(w, y, k) == WSum(u, y, k)
  {
    WSumLinear(w, u, u, 1.0, 0.0, y, k);
  }

  /** A unit weight picks out one sample, or nothing once it lies beyond
      the summed prefix. */
  lemma {:induction false} WSumUnit(y: seq<real>, j: int, k: nat)
    requires 0 <= j && k <= |y|
    ensures WSum(Unit(j), y, k) == if j < k then y[j] else 0.0
  {
    if k > 0 {
      WSumUnit(y, j, k - 1);
    }
  }

  /** Walking one step along a stride: its first position plus the rest. */
  lemma StrideWeightStep(start: int, stop: int, step: int, i: int)
    requires step > 0 && start < stop
    ensures StrideWeight(start, stop, step)(i)
         == Unit(start)(i) + StrideWeight(start + step, stop, step)(i)
  {
    if start < i < start + step {
      DivUnique(i - start, step, 0, i - start);
    } else if i >= start + step {
      var q, r := (i - start - step) / step, (i - start - step) % step;
      assert i - start == (q + 1) * step + r;
      DivUnique(i - start, step, q + 1, r);
    }
  }

  /** Peeling the first position off a stride's weights peels its sample
      off the weighted sum. */
  lemma StrideWSumStep(y: seq<real>, start: int, stop: int, step: int)
    requires step > 0 && 0 <= start < stop <= |y|
    ensures WSum(StrideWeight(start, stop, step), y, |y|)
         == y[start] + WSum(StrideWeight(start + step, stop, step), y, |y|)
  {
    forall i | 0 <= i < |y|
      ensures StrideWeight(start, stop, step)(i)
           == 1.0 * Unit(start)(i) + 1.0 * StrideWeight(start + step, stop, step)(i)
    {
      StrideWeightStep(start, stop, step, i);
    }
    WSumLinear(StrideWeight(start, stop, step), Unit(start), StrideWeight(start + step, stop, step),
               1.0, 1.0, y, |y|);
    WSumUnit(y, start, |y|);
  }

  /** Peeling the first position off a stride peels its sample off the
      Python sum of the gathered samples. */
  lemma StrideGatherStep(y: seq<real>, start: int, stop: int, step: int)
    requires step > 0 && 0 <= start < stop <= |y|
    ensures Sum(Gather(y, Stride(start, stop, step))) == y[start] + Sum(Gather(y, Stride(start + step, stop, step)))
  {
    var rest := Stride(start + step, stop, step);
    StrideFirst(start, stop, step);
    var g := Gather(y, [start] + rest);
    assert g[1..] == Gather(y, rest);
  }

  /** Python's `sum` of a strided selection equals the weighted sum whose
      weights mark the selected positions. */
  lemma {:induction false} StrideSum(y: seq<real>, start: int, stop: int, step: int)
    requires step > 0 && 0 <= start && stop <= |y|
    ensures Sum(Gather(y, Stride(start, stop, step))) == WSum(StrideWeight(start, stop, step), y, |y|)
    decreases stop - start
  {
    if start >= stop {
      WSumZero(StrideWeight(start, stop, step), y, |y|);
    } else {
      StrideSum(y, start + step, stop, step);
      StrideGatherStep(y, start, stop, step);
      StrideWSumStep(y, start, stop, step);
    }
  }

  /** The same, stated for a Python slice. */
  lemma SliceSum(y: seq<real>, start: int, stop: int, step: int)
    requires step > 0
    ensures Sum(Slice(y, start, stop, step))
         == WSum(StrideWeight(ClampBound(|y|, start), ClampBound(|y|, stop), step), y, |y|)
  {
    StrideSum(y, ClampBound(|y|, start), ClampBound(|y|, stop), step);
  }
}
