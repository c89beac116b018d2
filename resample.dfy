/** Systematic resampling: one offset u, n evenly spaced positions (u + k) / n, each
    compared against the staircase of cumulative weights. */
module Resample {
  import opened RealSeq

  /** np.cumsum: entry j is the total of the weights 0..j. */
  function CumSum(w: seq<real>): seq<real>
  {
    seq(|w|, j requires 0 <= j < |w| => Sum(w[..j + 1]))
  }

  /** (u + k) / n, position k of n. */
  function Position(u: real, k: nat, n: nat): real
    requires 0 < n
  {
    (u + k as real) / (n as real)
  }

  /** (u + np.arange(n)) / n: the positions lie in [0, 1) and never decrease. */
  function Positions(u: real, n: nat): (p: seq<real>)
    ensures |p| == n
    ensures forall a, b :: 0 <= a <= b < n ==> p[a] <= p[b]
    ensures 0.0 <= u < 1.0 ==> forall k :: 0 <= k < n ==> 0.0 <= p[k] < 1.0
  {
    var p := seq(n, k requires 0 <= k < n => Position(u, k, n));
    assert forall a, b :: 0 <= a <= b < n ==> p[a] <= p[b] by {
      forall a, b | 0 <= a <= b < n
        ensures p[a] <= p[b]
      {
        PositionMonotone(u, a, b, n);
      }
    }
    assert 0.0 <= u < 1.0 ==> forall k :: 0 <= k < n ==> 0.0 <= p[k] < 1.0 by {
      if 0.0 <= u < 1.0 {
        forall k | 0 <= k < n
          ensures 0.0 <= p[k] < 1.0
        {
          PositionInUnit(u, k, n);
        }
      }
    }
    p
  }

  lemma PositionMonotone(u: real, a: nat, b: nat, n: nat)
    requires a <= b < n
    ensures Position(u, a, n) <= Position(u, b, n)
  {
    DivMonotone(u + a as real, u + b as real, n as real);
  }

  lemma PositionInUnit(u: real, k: nat, n: nat)
    requires 0.0 <= u < 1.0 && k < n
    ensures 0.0 <= Position(u, k, n) < 1.0
  {
    DivMonotone(0.0, u + k as real, n as real);
    DivMonotone(u + k as real, n as real, n as real);
  }

  /** Inverse-CDF selection: j is the first index whose cumulative weight lies strictly
      above the position p. */
  predicate Selects(c: seq<real>, p: real, j: nat)
  {
    j < |c| && p < c[j] && (j > 0 ==> c[j - 1] <= p)
  }

  /** indices is what systematic resampling with offset u selects from w: one index
      per position, each chosen by inverse-CDF selection. */
  predicate IsSystematicResample(w: seq<real>, nsuv: nat, u: real, indices: seq<nat>)
  {
    |indices| == Min(|w|, nsuv) &&
    forall k :: 0 <= k < |indices| ==> Selects(CumSum(w), Positions(u, |indices|)[k], indices[k])
  }

  /** The last position lies below the total weight, so the cursor over the cumulative
      sums never runs past the last weight. */
  predicate InRange(w: seq<real>, nsuv: nat, u: real)
  {
    var n := Min(|w|, nsuv);
    n > 0 ==> Positions(u, n)[n - 1] < Sum(w)
  }

  /** Each cumulative sum is the previous one plus the next weight. */
  lemma CumSumStep(w: seq<real>, j: nat)
    requires j < |w|
    ensures CumSum(w)[j] == (if j == 0 then 0.0 else CumSum(w)[j - 1]) + w[j]
  {
    assert w[..j + 1] == w[..j] + [w[j]];
    SumAppend(w[..j], [w[j]]);
    assert [w[j]][1..] == [];
    if j == 0 {
      assert w[..j] == [];
    }
  }

  lemma CumSumLast(w: seq<real>)
    requires 0 < |w|
    ensures CumSum(w)[|w| - 1] == Sum(w)
  {
    assert w[..|w|] == w;
  }

  /** Over nonnegative weights the cumulative sums never decrease. */
  lemma {:induction false} CumSumMonotone(w: seq<real>, a: nat, b: nat)
    requires NonNegative(w) && a <= b < |w|
    ensures CumSum(w)[a] <= CumSum(w)[b]
  {
    if a < b {
      CumSumMonotone(w, a, b - 1);
      CumSumStep(w, b);
    }
  }

  /** A normalised weight vector with an offset in [0, 1) keeps every position in range. */
  lemma StochasticInRange(w: seq<real>, nsuv: nat, u: real)
    requires Stochastic(w) && 0.0 <= u < 1.0
    ensures InRange(w, nsuv, u)
  {
  }

  /** Over nonnegative weights a position selects at most one index. */
  lemma SelectionUnique(w: seq<real>, p: real, j1: nat, j2: nat)
    requires NonNegative(w)
    requires Selects(CumSum(w), p, j1) && Selects(CumSum(w), p, j2)
    ensures j1 == j2
  {
    if j1 < j2 {
      CumSumMonotone(w, j1, j2 - 1);
    } else if j2 < j1 {
      CumSumMonotone(w, j2, j1 - 1);
    }
  }

  /** Systematic resampling is deterministic in its offset: over nonnegative weights at
      most one index sequence meets its specification. */
  lemma ResampleUnique(w: seq<real>, nsuv: nat, u: real, i1: seq<nat>, i2: seq<nat>)
    requires NonNegative(w)
    requires IsSystematicResample(w, nsuv, u, i1) && IsSystematicResample(w, nsuv, u, i2)
    ensures i1 == i2
  {
    forall k | 0 <= k < |i1|
      ensures i1[k] == i2[k]
    {
      SelectionUnique(w, Positions(u, |i1|)[k], i1[k], i2[k]);
    }
  }

  /** A nonnegative position never selects an index of zero weight. */
  lemma SelectedWeightPositive(w: seq<real>, p: real, j: nat)
    requires 0.0 <= p && Selects(CumSum(w), p, j)
    ensures j < |w| && 0.0 < w[j]
  {
    CumSumStep(w, j);
  }

  /** The two-pointer walk of _sysresample over any nondecreasing positions and
      cumulative sums whose last entry lies above the last position: cursor i runs over
      the positions, cursor j over the cumulative sums, and the selected j is written
      into a preallocated array. */
  method Sweep(positions: seq<real>, cumsum: seq<real>) returns (indices: seq<nat>)
    requires forall a, b :: 0 <= a <= b < |positions| ==> positions[a] <= positions[b]
    requires 0 < |positions| ==> 0 < |cumsum| && positions[|positions| - 1] < cumsum[|cumsum| - 1]
    ensures |indices| == |positions|
    ensures forall k :: 0 <= k < |indices| ==> Selects(cumsum, positions[k], indices[k])
    ensures forall a, b :: 0 <= a < b < |indices| ==> indices[a] <= indices[b]
  {
    var n := |positions|;
    var selected := new nat[n];
    var i, j := 0, 0;
    while i < n
      invariant 0 <= i <= n && j <= |cumsum|
      invariant i < n ==> j < |cumsum|
      invariant i < n && j > 0 ==> cumsum[j - 1] <= positions[i]
      invariant forall k :: 0 <= k < i ==> selected[k] <= j && Selects(cumsum, positions[k], selected[k])
      invariant forall a, b :: 0 <= a < b < i ==> selected[a] <= selected[b]
      decreases n - i + |cumsum| - j
    {
      if positions[i] < cumsum[j] {
        selected[i] := j;
        i := i + 1;
      } else {
        // cumsum[j] <= positions[i] <= positions[n - 1] < cumsum[|cumsum| - 1]
        assert positions[i] <= positions[n - 1];
        j := j + 1;
      }
    }
    indices := selected[..];
  }

  /** _sysresample: positions (u + k) / n and the cumulative weights, then the sweep.
      Every selected index has positive weight. */
  method SysResample(weights: seq<real>, nsuv: nat, u: real) returns (indices: seq<nat>)
    requires 0.0 <= u < 1.0
    requires InRange(weights, nsuv, u)
    ensures IsSystematicResample(weights, nsuv, u, indices)
    ensures forall a, b :: 0 <= a < b < |indices| ==> indices[a] <= indices[b]
    ensures forall k :: 0 <= k < |indices| ==> indices[k] < |weights| && 0.0 < weights[indices[k]]
  {
    var n := Min(|weights|, nsuv);
    var positions := Positions(u, n);
    var cumsum := CumSum(weights);
    if 0 < n {
      CumSumLast(weights);
    }
    indices := Sweep(positions, cumsum);
    forall k | 0 <= k < n
      ensures indices[k] < |weights| && 0.0 < weights[indices[k]]
    {
      SelectedWeightPositive(weights, positions[k], indices[k]);
    }
  }

}
