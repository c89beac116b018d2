/** The particle weight update w_i ∝ wp_i · Lt_i, where Lt_i = exp(LogLt_i) is given as a
    nonnegative real. WeightUpdate follows the log-domain route of the source (restrict to
    the nonzero predicted weights, normalise there, scatter back into zeros);
    WeightUpdatePrime follows the dense route (multiply, divide by the total). */
module Weights {
  import opened RealSeq
  import opened Maybe

  /** The number of nonzero entries of wp: the length of np.nonzero(wp). */
  function NonZeroCount(wp: seq<real>): nat
  {
    if wp == [] then 0 else (if wp[0] != 0.0 then 1 else 0) + NonZeroCount(wp[1..])
  }

  /** s[np.nonzero(wp)]: the entries of s at the positions where wp is nonzero, in order. */
  function Compress(wp: seq<real>, s: seq<real>): (r: seq<real>)
    requires |wp| == |s|
    ensures |r| == NonZeroCount(wp)
  {
    if wp == [] then [] else (if wp[0] != 0.0 then [s[0]] else []) + Compress(wp[1..], s[1..])
  }

  /** out = np.zeros(len(wp)); out[np.nonzero(wp)] = vals */
  function Expand(wp: seq<real>, vals: seq<real>): (r: seq<real>)
    requires |vals| == NonZeroCount(wp)
    ensures |r| == |wp|
  {
    if wp == [] then []
    else if wp[0] != 0.0 then [vals[0]] + Expand(wp[1..], vals[1..])
    else [0.0] + Expand(wp[1..], vals)
  }

  /** Scattering back what was gathered keeps the entries at nonzero positions and
      zeroes the rest. */
  lemma {:induction false} ExpandCompress(wp: seq<real>, s: seq<real>, i: nat)
    requires |wp| == |s| && i < |wp|
    ensures Expand(wp, Compress(wp, s))[i] == if wp[i] == 0.0 then 0.0 else s[i]
  {
    var c := Compress(wp, s);
    if wp[0] != 0.0 {
      assert c == [s[0]] + Compress(wp[1..], s[1..]);
      assert c[1..] == Compress(wp[1..], s[1..]);
    } else {
      assert c == [] + Compress(wp[1..], s[1..]);
      assert c == Compress(wp[1..], s[1..]);
    }
    if i > 0 {
      ExpandCompress(wp[1..], s[1..], i - 1);
    }
  }

  lemma {:induction false} CompressMul(wp: seq<real>, a: seq<real>, b: seq<real>)
    requires |wp| == |a| == |b|
    ensures Compress(wp, Mul(a, b)) == Mul(Compress(wp, a), Compress(wp, b))
  {
    if wp != [] {
      assert forall i :: 0 <= i < |a| - 1 ==> Mul(a, b)[1..][i] == Mul(a[1..], b[1..])[i];
      assert Mul(a, b)[1..] == Mul(a[1..], b[1..]);
      CompressMul(wp[1..], a[1..], b[1..]);
      var ha, hb := (if wp[0] != 0.0 then [a[0]] else []), (if wp[0] != 0.0 then [b[0]] else []);
      var ta, tb := Compress(wp[1..], a[1..]), Compress(wp[1..], b[1..]);
      MulAppend(ha, ta, hb, tb);
      assert Compress(wp, a) == ha + ta && Compress(wp, b) == hb + tb;
      if wp[0] != 0.0 {
        assert ha == [a[0]] && hb == [b[0]];
        assert |Mul(ha, hb)| == 1 && Mul(ha, hb)[0] == a[0] * b[0];
        assert Mul(a, b)[0] == a[0] * b[0];
        assert Mul(ha, hb) == [Mul(a, b)[0]];
      } else {
        assert Mul(ha, hb) == [];
      }
    }
  }

  lemma {:induction false} CompressDiv(wp: seq<real>, s: seq<real>, c: real)
    requires |wp| == |s| && c != 0.0
    ensures Compress(wp, Div(s, c)) == Div(Compress(wp, s), c)
  {
    if wp != [] {
      assert Div(s, c)[1..] == Div(s[1..], c);
      CompressDiv(wp[1..], s[1..], c);
    }
  }

  /** Dropping entries that are zero does not change the total. */
  lemma {:induction false} SumCompress(wp: seq<real>, s: seq<real>)
    requires |wp| == |s|
    requires forall i :: 0 <= i < |wp| && wp[i] == 0.0 ==> s[i] == 0.0
    ensures Sum(Compress(wp, s)) == Sum(s)
  {
    if wp != [] {
      SumCompress(wp[1..], s[1..]);
      SumAppend(if wp[0] != 0.0 then [s[0]] else [], Compress(wp[1..], s[1..]));
      assert [s[0]][1..] == [];
    }
  }

  /** _weight_update: x = LogLt[nz] + log(wp[nz]) over the nonzero predicted weights,
      exp(x - logsumexp(x)) there, zeros elsewhere. In the linear domain exp(x) is
      Lt[nz] * wp[nz] and exp(x - logsumexp(x)) is exp(x) / np.sum(exp(x)). None is the
      NaN outcome: a negative predicted weight (whose log is NaN) or no positive term at
      all (no nonzero weight, where np.max raises, or every term exp(x) = 0). */
  function WeightUpdate(lt: seq<NonNeg>, wp: seq<real>): Option<seq<real>>
    requires |lt| == |wp|
  {
    var x := Mul(Compress(wp, lt), Compress(wp, wp));
    if !NonNegative(wp) || Sum(x) == 0.0 then None
    else Some(Expand(wp, Normalise(x)))
  }

  /** _weight_update_prime: wn = wp * Lt; wn / np.sum(wn). */
  function WeightUpdatePrime(lt: seq<real>, wp: seq<real>): Option<seq<real>>
    requires |lt| == |wp|
  {
    var wn := Mul(wp, lt);
    if Sum(wn) == 0.0 then None else Some(Normalise(wn))
  }

  /** Over nonnegative predicted weights and likelihoods, the dense update succeeds exactly
      when some wp_i * Lt_i is positive. */
  lemma WeightUpdatePrimeDefined(lt: seq<real>, wp: seq<real>)
    requires |lt| == |wp|
    ensures NonNegative(wp) && NonNegative(lt) ==>
      (WeightUpdatePrime(lt, wp).Some? <==> exists i :: 0 <= i < |wp| && 0.0 < wp[i] * lt[i])
  {
    if NonNegative(wp) && NonNegative(lt) {
      MassPositive(lt, wp, Mul(wp, lt));
    }
  }

  /** A successful dense update has one entry per particle and sums to 1. */
  lemma WeightUpdatePrimeTotal(lt: seq<real>, wp: seq<real>)
    requires |lt| == |wp| && WeightUpdatePrime(lt, wp).Some?
    ensures |WeightUpdatePrime(lt, wp).value| == |wp|
    ensures Sum(WeightUpdatePrime(lt, wp).value) == 1.0
  {
    NormaliseTotal(Mul(wp, lt));
  }

  /** A successful dense update is proportional to wp_i * Lt_i, with the total mass as
      the constant. */
  lemma WeightUpdatePrimeProportional(lt: seq<real>, wp: seq<real>)
    requires |lt| == |wp| && WeightUpdatePrime(lt, wp).Some?
    ensures forall i :: 0 <= i < |wp| ==>
      WeightUpdatePrime(lt, wp).value[i] * Sum(Mul(wp, lt)) == wp[i] * lt[i]
  {
    NormaliseProportional(Mul(wp, lt));
  }

  /** A successful dense update keeps zero predicted weights at zero. */
  lemma WeightUpdatePrimeKeepsZero(lt: seq<real>, wp: seq<real>)
    requires |lt| == |wp| && WeightUpdatePrime(lt, wp).Some?
    ensures forall i :: 0 <= i < |wp| && wp[i] == 0.0 ==> WeightUpdatePrime(lt, wp).value[i] == 0.0
  {
    var m := Mul(wp, lt);
    NormaliseKeepsZero(m);
    assert forall i :: 0 <= i < |wp| && wp[i] == 0.0 ==> m[i] == 0.0;
  }

  /** Over nonnegative predicted weights and likelihoods, a successful dense update is a
      weight vector. */
  lemma WeightUpdatePrimeStochastic(lt: seq<real>, wp: seq<real>)
    requires |lt| == |wp| && WeightUpdatePrime(lt, wp).Some?
    requires NonNegative(wp) && NonNegative(lt)
    ensures Stochastic(WeightUpdatePrime(lt, wp).value)
  {
    var m := Mul(wp, lt);
    assert NonNegative(m);
    NormaliseStochastic(m);
  }

  /** Scaling every Lt_i by the same positive factor leaves the dense update unchanged; the
      source's shift exp(LogLt - max(LogLt)) is such a scaling. */
  lemma WeightUpdatePrimeScaleInvariant(lt: seq<real>, scaled: seq<real>, c: real, wp: seq<real>)
    requires |lt| == |wp| == |scaled| && 0.0 < c
    requires forall i :: 0 <= i < |lt| ==> scaled[i] == c * lt[i]
    ensures WeightUpdatePrime(scaled, wp) == WeightUpdatePrime(lt, wp)
  {
    var m, m2 := Mul(wp, lt), Mul(wp, scaled);
    var z := Sum(m);
    forall i | 0 <= i < |m|
      ensures m2[i] == Scale(c, m)[i]
    {
      assert wp[i] * (c * lt[i]) == c * (wp[i] * lt[i]);
    }
    assert m2 == Scale(c, m);
    ScaledTotal(c, m, z);
    ProductZero(c, z);
    if z != 0.0 {
      DivScaled(m, c, z);
    }
  }

  /** Over nonnegative predicted weights the restricted, scattered computation and the
      dense one agree, and the restricted one fails on a negative weight. */
  lemma WeightUpdateMatchesPrime(lt: seq<NonNeg>, wp: seq<real>)
    requires |lt| == |wp|
    ensures NonNegative(wp) ==> WeightUpdate(lt, wp) == WeightUpdatePrime(lt, wp)
    ensures !NonNegative(wp) ==> WeightUpdate(lt, wp).None?
  {
    if NonNegative(wp) {
      var m := Mul(wp, lt);
      var x := Mul(Compress(wp, lt), Compress(wp, wp));
      assert Mul(lt, wp) == m;
      CompressMul(wp, lt, wp);
      assert x == Compress(wp, m);
      SumCompress(wp, m);
      if Sum(m) != 0.0 {
        var z := Sum(m);
        CompressDiv(wp, m, z);
        assert Normalise(x) == Compress(wp, Div(m, z));
        var e := Expand(wp, Normalise(x));
        forall i | 0 <= i < |wp|
          ensures e[i] == Normalise(m)[i]
        {
          ExpandCompress(wp, Div(m, z), i);
        }
        assert e == Normalise(m);
      }
    }
  }

  /** _weight_update succeeds exactly when the predicted weights are nonnegative and some
      wp_i * Lt_i is positive. */
  lemma WeightUpdateDefined(lt: seq<NonNeg>, wp: seq<real>)
    requires |lt| == |wp|
    ensures WeightUpdate(lt, wp).Some? <==>
      NonNegative(wp) && exists i :: 0 <= i < |wp| && 0.0 < wp[i] * lt[i]
  {
    if NonNegative(wp) {
      var m := Mul(wp, lt);
      WeightUpdateMatchesPrime(lt, wp);
      assert NonNegative(lt);
      MassPositive(lt, wp, m);
    }
  }

  /** Over nonnegative predicted weights the total mass is nonzero exactly when one of
      its terms is positive. */
  lemma MassPositive(lt: seq<real>, wp: seq<real>, m: seq<real>)
    requires |lt| == |wp| && NonNegative(wp) && NonNegative(lt) && m == Mul(wp, lt)
    ensures Sum(m) != 0.0 <==> exists i :: 0 <= i < |wp| && 0.0 < wp[i] * lt[i]
  {
    assert NonNegative(m) by {
      forall i | 0 <= i < |m|
        ensures 0.0 <= m[i]
      {
        MulNonNegative(wp[i], lt[i]);
      }
    }
    SumPositive(m);
    SumNonNegative(m);
    if exists i :: 0 <= i < |wp| && 0.0 < wp[i] * lt[i] {
      var i :| 0 <= i < |wp| && 0.0 < wp[i] * lt[i];
      assert 0.0 < m[i];
    }
    if 0.0 < Sum(m) {
      var i :| 0 <= i < |m| && 0.0 < m[i];
      assert 0.0 < wp[i] * lt[i];
    }
  }

  /** A successful _weight_update has one entry per particle and is a weight vector; the
      total mass Σ wp_i * Lt_i it divides by is positive. */
  lemma WeightUpdateStochastic(lt: seq<NonNeg>, wp: seq<real>)
    requires |lt| == |wp| && WeightUpdate(lt, wp).Some?
    ensures |WeightUpdate(lt, wp).value| == |wp|
    ensures Stochastic(WeightUpdate(lt, wp).value)
    ensures 0.0 < Sum(Mul(wp, lt))
  {
    var m := Mul(wp, lt);
    WeightUpdateMatchesPrime(lt, wp);
    assert NonNegative(lt);
    WeightUpdatePrimeStochastic(lt, wp);
    assert NonNegative(m);
    SumNonNegative(m);
  }

  /** A successful _weight_update is proportional to wp_i * Lt_i, with the total mass as
      the constant. */
  lemma WeightUpdateProportional(lt: seq<NonNeg>, wp: seq<real>)
    requires |lt| == |wp| && WeightUpdate(lt, wp).Some?
    ensures forall i :: 0 <= i < |wp| ==>
      WeightUpdate(lt, wp).value[i] * Sum(Mul(wp, lt)) == wp[i] * lt[i]
  {
    WeightUpdateMatchesPrime(lt, wp);
    WeightUpdatePrimeProportional(lt, wp);
  }

  /** A successful _weight_update keeps zero predicted weights at exactly zero. */
  lemma WeightUpdateKeepsZero(lt: seq<NonNeg>, wp: seq<real>)
    requires |lt| == |wp| && WeightUpdate(lt, wp).Some?
    ensures forall i :: 0 <= i < |wp| && wp[i] == 0.0 ==> WeightUpdate(lt, wp).value[i] == 0.0
  {
    WeightUpdateMatchesPrime(lt, wp);
    WeightUpdatePrimeKeepsZero(lt, wp);
  }

}
