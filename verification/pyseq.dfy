/** A model of the small part of Python's sequence semantics that the
    integration rules rely on: indexing with negative positions, slicing
    `s[start:stop:step]` with a positive step, and the built-in `sum`.
    Values are exact reals; floating-point rounding is not modelled. */
module PySeq {

  /** Python's `s[i]`: a negative position counts from the end. */
  function Item(s: seq<real>, i: int): (r: real)
    requires -|s| <= i < |s|
  {
    if i < 0 then s[|s| + i] else s[i]
  }

  /** How Python adjusts one bound of a slice with a positive step: a
      negative bound counts from the end, and the result is clamped
      into `[0, len]`. Within range, the adjusted bound is the position
      that indexing with the same number reads. */
  function ClampBound(len: nat, i: int): (r: nat)
    ensures r <= len
    ensures forall s: seq<real> {:trigger Item(s, i)} :: |s| == len && 0 <= i + len && i < len ==> r < len && s[r] == Item(s, i)
    ensures i >= len ==> r == len
    ensures i + len <= 0 ==> r == 0
  {
    if i < 0 then (if i + len < 0 then 0 else i + len)
    else if i > len then len else i
  }

  /** How many of the positions `start, start + step, ...` lie strictly
      below `stop`: the length of Python's `range(start, stop, step)`. */
  function StrideCount(start: int, stop: int, step: int): nat
    requires step > 0
    decreases stop - start
  {
    if start >= stop then 0 else StrideCount(start + step, stop, step) + 1
  }

  /** The positions `start, start + step, ...` strictly below `stop`, in
      increasing order, like Python's `range(start, stop, step)`. */
  function Stride(start: int, stop: int, step: int): (r: seq<int>)
    requires step > 0
    ensures |r| == StrideCount(start, stop, step)
    ensures forall k :: 0 <= k < |r| ==> r[k] == start + k * step
    ensures forall k :: 0 <= k < |r| ==> start <= r[k] < stop
  {
    if start < stop then StrideBelow(start, stop, step); seq(StrideCount(start, stop, step), k => start + k * step)
    else []
  }

  /** Each of the first `StrideCount` positions lies below `stop`. */
  lemma StrideBelow(start: int, stop: int, step: int)
    requires step > 0 && start < stop
    ensures forall k :: 0 <= k < StrideCount(start, stop, step) ==> start + k * step < stop
  {
    StrideLength(start, stop, step);
    forall k | 0 <= k < StrideCount(start, stop, step)
      ensures start + k * step < stop
    {
      MulMonotone(k, StrideCount(start, stop, step) - 1, step);
    }
  }

  /** A nonempty stride is its first position followed by the stride one
      step further on. */
  lemma StrideFirst(start: int, stop: int, step: int)
    requires step > 0 && start < stop
    ensures Stride(start, stop, step) == [start] + Stride(start + step, stop, step)
  {
    var s, t := Stride(start, stop, step), [start] + Stride(start + step, stop, step);
    assert |s| == |t|;
    forall k | 0 <= k < |s|
      ensures s[k] == t[k]
    {
      if k > 0 {
        assert start + step + (k - 1) * step == start + k * step;
      }
    }
  }

  /** A nonempty stride stops at the last position below `stop`: one more
      step would reach or pass it. */
  lemma {:induction false} StrideLength(start: int, stop: int, step: int)
    requires step > 0 && start < stop
    ensures 0 < StrideCount(start, stop, step)
    ensures start + (StrideCount(start, stop, step) - 1) * step < stop <= start + StrideCount(start, stop, step) * step
    decreases stop - start
  {
    var c := StrideCount(start + step, stop, step);
    if start + step < stop {
      StrideLength(start + step, stop, step);
    }
    assert (c + 1) * step == c * step + step;
  }

  /** `i` is one of the positions `Stride(start, stop, step)` visits. */
  predicate OnStride(start: int, stop: int, step: int, i: int)
    requires step > 0
  {
    start <= i < stop && (i - start) % step == 0
  }

  /** The positions of `s` that `s[start:stop:step]` selects when
      `|s| == len` and `step > 0`: as many as the stride from the adjusted
      start visits below the adjusted stop, the `k`-th one `k` steps after
      the adjusted start, all inside the sequence. */
  function SliceIndices(len: nat, start: int, stop: int, step: int): (r: seq<int>)
    requires step > 0
    ensures |r| == StrideCount(ClampBound(len, start), ClampBound(len, stop), step)
    ensures forall k :: 0 <= k < |r| ==> r[k] == ClampBound(len, start) + k * step
    ensures forall k :: 0 <= k < |r| ==> 0 <= r[k] < len
  {
    Stride(ClampBound(len, start), ClampBound(len, stop), step)
  }

  /** The number of positions a stride visits is the length CPython gives a
      slice with a positive step once its bounds are adjusted:
      `(stop - start - 1) / step + 1` when `start < stop`, otherwise 0. */
  lemma StrideCountFormula(start: int, stop: int, step: int)
    requires step > 0
    ensures start < stop ==> StrideCount(start, stop, step) == (stop - start - 1) / step + 1
    ensures start >= stop ==> StrideCount(start, stop, step) == 0
  {
    if start < stop {
      var c := StrideCount(start, stop, step);
      StrideLength(start, stop, step);
      assert c * step == (c - 1) * step + step;
      DivUnique(stop - start - 1, step, c - 1, stop - start - 1 - (c - 1) * step);
    }
  }

  /** `s[start:stop:step]` selects position `i` of a sequence of length `len`. */
  predicate Selects(len: nat, start: int, stop: int, step: int, i: int)
    requires step > 0
  {
    i in SliceIndices(len, start, stop, step)
  }

  /** The positions a slice selects are those its adjusted bounds and step
      describe, and it selects each of them once. */
  lemma SliceMembers(len: nat, start: int, stop: int, step: int)
    requires step > 0
    ensures forall i :: Selects(len, start, stop, step, i)
                    <==> OnStride(ClampBound(len, start), ClampBound(len, stop), step, i)
    ensures forall j, k :: 0 <= j < k < |SliceIndices(len, start, stop, step)| ==>
              SliceIndices(len, start, stop, step)[j] < SliceIndices(len, start, stop, step)[k]
    ensures ClampBound(len, start) < ClampBound(len, stop) ==>
              ClampBound(len, start) + (|SliceIndices(len, start, stop, step)| - 1) * step < ClampBound(len, stop)
              <= ClampBound(len, start) + |SliceIndices(len, start, stop, step)| * step
  {
    StrideMembers(ClampBound(len, start), ClampBound(len, stop), step);
    if ClampBound(len, start) < ClampBound(len, stop) {
      StrideLength(ClampBound(len, start), ClampBound(len, stop), step);
    }
  }

  /** The elements of `s` at the positions `idx`, in that order. */
  function Gather(s: seq<real>, idx: seq<int>): (r: seq<real>)
    requires forall k :: 0 <= k < |idx| ==> 0 <= idx[k] < |s|
    ensures |r| == |idx|
    ensures forall k :: 0 <= k < |r| ==> r[k] == s[idx[k]]
  {
    seq(|idx|, k requires 0 <= k < |idx| => s[idx[k]])
  }

  /** Python's `s[start:stop:step]` for a positive step: one element per
      position the stride from the adjusted start visits below the adjusted
      stop, and element `k` is the one `k` steps after the adjusted start. */
  function Slice(s: seq<real>, start: int, stop: int, step: int): (r: seq<real>)
    requires step > 0
    ensures |r| == |SliceIndices(|s|, start, stop, step)|
    ensures |r| == StrideCount(ClampBound(|s|, start), ClampBound(|s|, stop), step)
    ensures forall k :: 0 <= k < |r| ==>
              ClampBound(|s|, start) + k * step < |s| && r[k] == s[ClampBound(|s|, start) + k * step]
  {
    var idx := SliceIndices(|s|, start, stop, step);
    var picked := Gather(s, idx);
    forall k | 0 <= k < |picked|
      ensures ClampBound(|s|, start) + k * step < |s| && picked[k] == s[ClampBound(|s|, start) + k * step]
    {
      assert idx[k] == ClampBound(|s|, start) + k * step;
    }
    picked
  }

  /** The loop Python's built-in `sum` runs: starting from `acc`, add the
      elements one at a time from the left. */
  function Accumulate(acc: real, s: seq<real>): real
    decreases |s|
  {
    if |s| == 0 then acc else Accumulate(acc + s[0], s[1..])
  }

  /** Starting the loop from `acc` adds `acc` to what it computes from 0. */
  lemma {:induction false} AccumulateShift(acc: real, s: seq<real>)
    ensures Accumulate(acc, s) == acc + Accumulate(0.0, s)
    decreases |s|
  {
    if |s| > 0 {
      AccumulateShift(acc + s[0], s[1..]);
      AccumulateShift(s[0], s[1..]);
    }
  }

  /** Python's built-in `sum`, defined from the front. */
  function Sum(s: seq<real>): real
  {
    if |s| == 0 then 0.0 else s[0] + Sum(s[1..])
  }

  /** Adding from the front gives what `sum`'s left-to-right loop from 0
      gives. */
  lemma {:induction false} SumIsLeftFold(s: seq<real>)
    ensures Sum(s) == Accumulate(0.0, s)
    decreases |s|
  {
    if |s| > 0 {
      SumIsLeftFold(s[1..]);
      AccumulateShift(s[0], s[1..]);
    }
  }

  /** Multiplying by a positive factor preserves order. */
  lemma {:induction false} MulMonotone(a: int, b: int, s: int)
    requires a <= b && s > 0
    ensures a * s <= b * s
    decreases b - a
  {
    if a < b {
      MulMonotone(a, b - 1, s);
      assert b * s == (b - 1) * s + s;
    }
  }

  /** Euclidean division is unique: a quotient and a remainder in range
      are the ones Dafny's `/` and `%` produce. */
  lemma DivUnique(x: int, s: int, q: int, r: int)
    requires 0 <= r < s
    requires x == q * s + r
    ensures x % s == r && x / s == q
  {
    var q', r' := x / s, x % s;
    assert x == q' * s + r';
    if q > q' {
      assert (q - q') * s == q * s - q' * s;
      MulMonotone(1, q - q', s);
    } else if q < q' {
      assert (q' - q) * s == q' * s - q * s;
      MulMonotone(1, q' - q, s);
    }
  }

  /** Every position `Stride` visits is described by `OnStride`. */
  lemma StrideSound(start: int, stop: int, step: int, k: int)
    requires step > 0
    requires 0 <= k < |Stride(start, stop, step)|
    ensures OnStride(start, stop, step, Stride(start, stop, step)[k])
  {
    DivUnique(Stride(start, stop, step)[k] - start, step, k, 0);
  }

  /** Every position `OnStride` describes is visited, at the place its
      quotient by the step names. */
  lemma StrideComplete(start: int, stop: int, step: int, i: int)
    requires step > 0
    requires OnStride(start, stop, step, i)
    ensures 0 <= (i - start) / step < |Stride(start, stop, step)|
    ensures Stride(start, stop, step)[(i - start) / step] == i
  {
    var r := Stride(start, stop, step);
    var k := (i - start) / step;
    DivUnique(i - start, step, k, 0);
    StrideLength(start, stop, step);
    if k < 0 {
      MulMonotone(k, -1, step);
    } else if k >= |r| {
      MulMonotone(|r|, k, step);
    }
  }

  /** `Stride` visits positions in strictly increasing order. */
  lemma StrideIncreasing(start: int, stop: int, step: int)
    requires step > 0
    ensures forall j, k :: 0 <= j < k < |Stride(start, stop, step)| ==>
              Stride(start, stop, step)[j] < Stride(start, stop, step)[k]
  {
    var r := Stride(start, stop, step);
    forall j, k | 0 <= j < k < |r|
      ensures r[j] < r[k]
    {
      MulMonotone(j + 1, k, step);
    }
  }

  /** `Stride` visits exactly the positions that `OnStride` describes, each
      once and in increasing order. */
  lemma StrideMembers(start: int, stop: int, step: int)
    requires step > 0
    ensures forall i :: i in Stride(start, stop, step) <==> OnStride(start, stop, step, i)
    ensures forall j, k :: 0 <= j < k < |Stride(start, stop, step)| ==>
              Stride(start, stop, step)[j] < Stride(start, stop, step)[k]
  {
    var r := Stride(start, stop, step);
    forall i | i in r
      ensures OnStride(start, stop, step, i)
    {
      var k :| 0 <= k < |r| && r[k] == i;
      StrideSound(start, stop, step, k);
    }
    forall i | OnStride(start, stop, step, i)
      ensures i in r
    {
      StrideComplete(start, stop, step, i);
    }
    StrideIncreasing(start, stop, step);
  }

  /** `k` copies of `c` added up, the way `sum` adds a constant list. */
  function Copies(k: nat, c: real): real
  {
    if k == 0 then 0.0 else Copies(k - 1, c) + c
  }

  /** One copy fewer of `c` is `c` less. */
  lemma CopiesStep(k: nat, c: real)
    requires k >= 1
    ensures Copies(k, c) == Copies(k - 1, c) + c
  {
  }

  /** Adding `k` copies of `c` is multiplying `c` by `k`. */
  lemma {:induction false} CopiesProduct(k: nat, c: real)
    ensures Copies(k, c) == k as real * c
  {
    if k > 0 {
      CopiesProduct(k - 1, c);
      assert k as real * c == (k - 1) as real * c + c;
    }
  }

  /** The elements of a sequence whose every element is `c` add up to `c`
      once per element. */
  lemma {:induction false} SumConstant(s: seq<real>, c: real)
    requires forall k :: 0 <= k < |s| ==> s[k] == c
    ensures Sum(s) == Copies(|s|, c)
  {
    if |s| > 0 {
      SumConstant(s[1..], c);
      assert Copies(|s|, c) == Copies(|s| - 1, c) + c;
    }
  }

  /** A slice of a constant sequence sums to `k` copies of the constant,
      where `k` is the number of positions selected. */
  lemma SliceOfConstant(s: seq<real>, start: int, stop: int, step: int, c: real, k: nat)
    requires step > 0
    requires forall i :: 0 <= i < |s| ==> s[i] == c
    requires k == |SliceIndices(|s|, start, stop, step)|
    ensures Sum(Slice(s, start, stop, step)) == Copies(k, c)
  {
    SumConstant(Slice(s, start, stop, step), c);
  }
}
