/** The existence-probability update of the Bernoulli filter,
    q = I·qp / (1 − qp + qp·I) with I = Σ wp_i · Ratio_i, where Ratio_i = exp(LogRatio_i)
    is given as a nonnegative real. */
module Existence {
  import opened RealSeq
  import opened Maybe
  import opened Weights

  /** The integral approximation I = Σ wp_i · Ratio_i. */
  function Integral(wp: seq<real>, ratio: seq<real>): real
    requires |wp| == |ratio|
  {
    Sum(Mul(wp, ratio))
  }

  /** The Bernoulli existence update q = I·qp / ((1 − qp) + qp·I). */
  function Posterior(i: real, qp: real): real
    requires 1.0 - qp + qp * i != 0.0
  {
    i * qp / (1.0 - qp + qp * i)
  }

  /** _update_existance_prob_linear_domain. Over the reals I is always finite, so the
      fallback value 1.0 for a non-finite I does not arise; a zero denominator, where the
      float division gives NaN (0/0 at qp = 1, I = 0) or ±inf, is None. */
  function ExistenceUpdateLinear(wp: seq<real>, ratio: seq<NonNeg>, qp: real): Option<real>
    requires |wp| == |ratio|
  {
    var i := Integral(wp, ratio);
    if 1.0 - qp + qp * i == 0.0 then None else Some(Posterior(i, qp))
  }

  /** _update_existance_prob, restricted to the nonzero predicted weights as the source
      does. exp(x1) = Ratio[nz] * wp[nz]; exp(x2) is qp * exp(x1) with the term 1 − qp
      for the "no target" branch in front; q = exp(logsumexp(x1) + log(qp) −
      logsumexp(x2)), clamped at 1. None is the NaN outcome: the log of a negative weight
      or of a probability outside [0, 1], or logsumexp(x1) over terms that are all
      exp(-inf) = 0 (or over no terms, where np.max raises). */
  function ExistenceUpdate(wp: seq<real>, ratio: seq<NonNeg>, qp: real): Option<real>
    requires |wp| == |ratio|
  {
    var x1 := Mul(Compress(wp, ratio), Compress(wp, wp));
    var x2 := [1.0 - qp] + Scale(qp, x1);
    if !NonNegative(wp) || qp < 0.0 || 1.0 < qp || Sum(x1) == 0.0 then None
    else
      assert 0.0 < Sum(x2) by {
        RestrictedIntegral(wp, ratio);
        IntegralNonNegative(wp, ratio);
        EvidencePositive(x1, Sum(x1), qp);
      }
      Some(MinReal(Sum(x1) * qp / Sum(x2), 1.0))
  }

  /** Restricting the integral to the nonzero predicted weights does not change it. */
  lemma RestrictedIntegral(wp: seq<real>, ratio: seq<real>)
    requires |wp| == |ratio|
    ensures Sum(Mul(Compress(wp, ratio), Compress(wp, wp))) == Integral(wp, ratio)
  {
    CompressMul(wp, ratio, wp);
    var m := Mul(wp, ratio);
    assert Mul(ratio, wp) == m;
    assert forall i :: 0 <= i < |wp| && wp[i] == 0.0 ==> m[i] == 0.0;
    SumCompress(wp, m);
  }

  /** Nonnegative weights and ratios give a nonnegative integral. */
  lemma IntegralNonNegative(wp: seq<real>, ratio: seq<real>)
    requires |wp| == |ratio| && NonNegative(wp) && NonNegative(ratio)
    ensures 0.0 <= Integral(wp, ratio)
  {
    var m := Mul(wp, ratio);
    assert NonNegative(m);
    SumNonNegative(m);
  }

  /** The sum of exp(x2) is (1 − qp) + qp·I, where I is the sum of exp(x1); it is
      positive once I is. */
  lemma EvidencePositive(x1: seq<real>, i: real, qp: real)
    requires Sum(x1) == i && 0.0 < i && 0.0 <= qp <= 1.0
    ensures Sum([1.0 - qp] + Scale(qp, x1)) == 1.0 - qp + qp * i
    ensures 0.0 < 1.0 - qp + qp * i
  {
    ScaledTotal(qp, x1, i);
    SumCons(1.0 - qp, Scale(qp, x1));
    DenominatorPositive(i, qp);
  }

  lemma DenominatorPositive(i: real, qp: real)
    requires 0.0 < i && 0.0 <= qp <= 1.0
    ensures 0.0 < 1.0 - qp + qp * i
  {
    if 0.0 < qp {
      assert 0.0 < qp * i;
    }
  }

  /** For I >= 0 and qp in [0, 1] the update is a probability. */
  lemma PosteriorInUnit(i: real, qp: real)
    requires 0.0 <= i && 0.0 <= qp <= 1.0 && 1.0 - qp + qp * i != 0.0
    ensures 0.0 <= Posterior(i, qp) <= 1.0
  {
    var d := 1.0 - qp + qp * i;
    MulNonNegative(qp, i);
    assert i * qp <= d;
    QuotientInUnit(i * qp, d);
  }

  /** The log-domain update has a value exactly when the predicted weights are
      nonnegative, the predicted existence probability lies in [0, 1] and I is positive. */
  lemma ExistenceUpdateDefined(wp: seq<real>, ratio: seq<NonNeg>, qp: real)
    requires |wp| == |ratio|
    ensures ExistenceUpdate(wp, ratio, qp).Some? <==>
      NonNegative(wp) && 0.0 <= qp <= 1.0 && 0.0 < Integral(wp, ratio)
  {
    RestrictedIntegral(wp, ratio);
    if NonNegative(wp) {
      IntegralNonNegative(wp, ratio);
    }
  }

  /** Whenever it has a value, the log-domain update is a probability; the clamp alone
      keeps it at most 1. */
  lemma ExistenceUpdateInUnit(wp: seq<real>, ratio: seq<NonNeg>, qp: real)
    requires |wp| == |ratio| && ExistenceUpdate(wp, ratio, qp).Some?
    ensures 0.0 <= ExistenceUpdate(wp, ratio, qp).value <= 1.0
  {
    LogDomainValue(wp, ratio, qp);
    PosteriorInUnit(Integral(wp, ratio), qp);
  }

  /** Unclamped, the log-domain value is I·qp / ((1 − qp) + qp·I). */
  lemma LogDomainValue(wp: seq<real>, ratio: seq<NonNeg>, qp: real)
    requires |wp| == |ratio| && ExistenceUpdate(wp, ratio, qp).Some?
    ensures 1.0 - qp + qp * Integral(wp, ratio) != 0.0
    ensures 0.0 <= Integral(wp, ratio)
    ensures ExistenceUpdate(wp, ratio, qp).value ==
      MinReal(Posterior(Integral(wp, ratio), qp), 1.0)
  {
    var x1 := Mul(Compress(wp, ratio), Compress(wp, wp));
    var i := Integral(wp, ratio);
    RestrictedIntegral(wp, ratio);
    IntegralNonNegative(wp, ratio);
    EvidencePositive(x1, i, qp);
    var x2 := [1.0 - qp] + Scale(qp, x1);
    PosteriorOfTotals(Sum(x1), Sum(x2), i, qp);
  }

  lemma PosteriorOfTotals(s1: real, s2: real, i: real, qp: real)
    requires s1 == i && s2 == 1.0 - qp + qp * i && s2 != 0.0
    ensures s1 * qp / s2 == Posterior(i, qp)
  {
    assert s1 * qp == i * qp;
    assert Posterior(i, qp) == (i * qp) / s2;
  }

  /** The log-domain and the linear-domain updates are the same function wherever the
      log-domain one has a value: the clamp at 1 never bites over the reals. */
  lemma ExistenceUpdateMatchesLinear(wp: seq<real>, ratio: seq<NonNeg>, qp: real)
    requires |wp| == |ratio| && ExistenceUpdate(wp, ratio, qp).Some?
    ensures ExistenceUpdateLinear(wp, ratio, qp) == ExistenceUpdate(wp, ratio, qp)
  {
    LogDomainValue(wp, ratio, qp);
    PosteriorInUnit(Integral(wp, ratio), qp);
  }

  /** The update as evidently intended: the linear-domain formula, which the source keeps
      as a commented-out alternative at its call site, over the same domain as the
      log-domain code (None on a negative predicted weight, a probability outside [0, 1]
      or no nonzero predicted weight, where np.max of an empty array raises), but with
      a value also when I = 0. */
  function ExistenceUpdateIntended(wp: seq<real>, ratio: seq<NonNeg>, qp: real): Option<real>
    requires |wp| == |ratio|
  {
    if !NonNegative(wp) || qp < 0.0 || 1.0 < qp || NonZeroCount(wp) == 0 then None
    else ExistenceUpdateLinear(wp, ratio, qp)
  }

  /** As written, a ratio of zero (LogRatio = -inf) on every nonzero predicted weight makes
      logsumexp(x1) compute -inf - (-inf) = NaN; the intended update is q = 0. */
  lemma AllZeroRatioAsWritten()
    ensures ExistenceUpdate([1.0], [0.0], 0.5).None?
    ensures ExistenceUpdateIntended([1.0], [0.0], 0.5) == Some(0.0)
  {
    assert Mul(Compress([1.0], [0.0]), Compress([1.0], [1.0])) == [0.0];
    assert Mul([1.0], [0.0]) == [0.0];
  }

  /** Wherever the code as written has a value, the intended update agrees with it. */
  lemma IntendedExtendsAsWritten(wp: seq<real>, ratio: seq<NonNeg>, qp: real)
    requires |wp| == |ratio| && ExistenceUpdate(wp, ratio, qp).Some?
    ensures ExistenceUpdateIntended(wp, ratio, qp) == ExistenceUpdate(wp, ratio, qp)
  {
    ExistenceUpdateMatchesLinear(wp, ratio, qp);
    ExistenceUpdateDefined(wp, ratio, qp);
  }

  /** The intended update is a probability whenever it has a value. */
  lemma IntendedInUnit(wp: seq<real>, ratio: seq<NonNeg>, qp: real)
    requires |wp| == |ratio| && ExistenceUpdateIntended(wp, ratio, qp).Some?
    ensures 0.0 <= ExistenceUpdateIntended(wp, ratio, qp).value <= 1.0
  {
    assert NonNegative(ratio);
    IntegralNonNegative(wp, ratio);
    PosteriorInUnit(Integral(wp, ratio), qp);
  }

  /** A zero integral over at least one nonzero predicted weight gives q = 0 for every
      qp in [0, 1). */
  lemma IntendedZeroIntegral(wp: seq<real>, ratio: seq<NonNeg>, qp: real)
    requires |wp| == |ratio| && NonNegative(wp) && 0.0 <= qp < 1.0 && 0 < NonZeroCount(wp)
    requires Integral(wp, ratio) == 0.0
    ensures ExistenceUpdateIntended(wp, ratio, qp) == Some(0.0)
  {
  }

}
