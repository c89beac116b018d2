/** The Bernoulli particle filter state and its one-step transition (__call__): predict
    the existence probability and the blended weights, update both from the likelihood
    collaborator, resample the survivors from the joint population, draw newborns. */
module Filter {
  import opened RealSeq
  import opened Maybe
  import opened Resample
  import opened Weights
  import opened Existence

  /** A filter state: the configuration, the existence probability and the surviving and
      newborn populations with their weights. P is the type of one particle (a state row). */
  datatype State<P> = State(
    nsuv: nat,
    nbirth: nat,
    probBirth: real,
    probSurv: real,
    prob: real,
    particlesSurv: seq<P>,
    weightsSurv: seq<real>,
    particlesBorn: seq<P>,
    weightsBorn: seq<real>)

  /** The outcome of the prediction and update stages: the new existence probability and
      the posterior weights of the joint population. */
  datatype Updated = Updated(prob: real, weights: seq<real>)

  predicate Probability(x: real)
  {
    0.0 <= x <= 1.0
  }

  /** Each population has one weight per particle. */
  predicate Consistent<P>(f: State<P>)
  {
    |f.particlesSurv| == |f.weightsSurv| && |f.particlesBorn| == |f.weightsBorn|
  }

  /** The state invariant the filter relies on. */
  predicate Valid<P>(f: State<P>)
  {
    && Consistent(f)
    && 0 < f.nbirth
    && Probability(f.prob) && Probability(f.probBirth) && Probability(f.probSurv)
    && (f.weightsSurv == [] || Stochastic(f.weightsSurv))
    && Stochastic(f.weightsBorn)
  }

  /** The construction of BerParticleFilter with its defaults: prob = 0, no surviving
      particles, the newborn particles the birth model draws (born) with uniform weights.
      None: 1/Nbirth raises for Nbirth = 0. */
  function Init<P>(nsuv: nat, nbirth: nat, probBirth: real, probSurv: real, born: seq<P>): Option<State<P>>
  {
    if nbirth == 0 then None
    else Some(State(nsuv, nbirth, probBirth, probSurv, 0.0, [], [], born, Uniform(nbirth)))
  }

  /** A filter constructed with Nbirth > 0 newborns and probabilities in [0, 1] is valid. */
  lemma InitValid<P>(nsuv: nat, nbirth: nat, probBirth: real, probSurv: real, born: seq<P>)
    requires 0 < nbirth && |born| == nbirth
    requires Probability(probBirth) && Probability(probSurv)
    ensures Init(nsuv, nbirth, probBirth, probSurv, born).Some?
    ensures Valid(Init(nsuv, nbirth, probBirth, probSurv, born).value)
    ensures var f := Init(nsuv, nbirth, probBirth, probSurv, born).value;
      && f.prob == 0.0
      && f.particlesSurv == [] && f.weightsSurv == []
      && f.particlesBorn == born
      && |f.weightsBorn| == nbirth
      && forall i :: 0 <= i < nbirth ==> f.weightsBorn[i] == 1.0 / (nbirth as real)
  {
    UniformStochastic(nbirth);
  }

  /** q_p = prob_birth·(1 − q) + prob_surv·q */
  function PredictedExistence<P>(f: State<P>): real
  {
    f.probBirth * (1.0 - f.prob) + f.probSurv * f.prob
  }

  /** With q, prob_birth and prob_surv in [0, 1] the predicted existence is a probability. */
  lemma PredictedExistenceInUnit<P>(f: State<P>)
    requires Probability(f.prob) && Probability(f.probBirth) && Probability(f.probSurv)
    ensures Probability(PredictedExistence(f))
  {
    var q := f.prob;
    MulNonNegative(f.probBirth, 1.0 - q);
    MulNonNegative(f.probSurv, q);
    MulNonNegative(1.0 - f.probBirth, 1.0 - q);
    MulNonNegative(1.0 - f.probSurv, q);
  }

  /** The factor prob_surv·q/q_p applied to the surviving weights. */
  function SurvivalShare<P>(f: State<P>, qp: real): real
    requires qp != 0.0
  {
    f.probSurv * f.prob / qp
  }

  /** The factor prob_birth·(1 − q)/q_p applied to the newborn weights. */
  function BirthShare<P>(f: State<P>, qp: real): real
    requires qp != 0.0
  {
    f.probBirth * (1.0 - f.prob) / qp
  }

  /** np.concatenate((a * ws, b * wb)) */
  function Blend(a: real, ws: seq<real>, b: real, wb: seq<real>): seq<real>
  {
    Scale(a, ws) + Scale(b, wb)
  }

  /** The surviving weights scaled by their share, followed by the newborn weights scaled
      by theirs. */
  function Blended<P>(f: State<P>, qp: real): seq<real>
    requires qp != 0.0
  {
    Blend(SurvivalShare(f, qp), f.weightsSurv, BirthShare(f, qp), f.weightsBorn)
  }

  /** weights_p: the blend renormalised to sum to 1. None: q_p = 0 or a zero blend total,
      where the divisions give NaN or raise. */
  function PredictedWeights<P>(f: State<P>): (r: Option<seq<real>>)
    ensures r.Some? ==> |r.value| == |f.weightsSurv| + |f.weightsBorn|
  {
    var qp := PredictedExistence(f);
    if qp == 0.0 then None
    else
      var blended := Blended(f, qp);
      if Sum(blended) == 0.0 then None else Some(Normalise(blended))
  }

  /** The blend totals a·Σws + b·Σwb. */
  lemma BlendTotal(a: real, ws: seq<real>, b: real, wb: seq<real>)
    ensures |Blend(a, ws, b, wb)| == |ws| + |wb|
    ensures Sum(Blend(a, ws, b, wb)) == a * Sum(ws) + b * Sum(wb)
  {
    SumScale(a, ws);
    SumScale(b, wb);
    SumAppend(Scale(a, ws), Scale(b, wb));
  }

  /** Nonnegative weights blended with nonnegative factors stay nonnegative. */
  lemma BlendNonNegative(a: real, ws: seq<real>, b: real, wb: seq<real>)
    requires 0.0 <= a && 0.0 <= b && NonNegative(ws) && NonNegative(wb)
    ensures NonNegative(Blend(a, ws, b, wb))
  {
    var blended := Blend(a, ws, b, wb);
    forall i | 0 <= i < |blended|
      ensures 0.0 <= blended[i]
    {
      if i < |ws| {
        MulNonNegative(a, ws[i]);
      } else {
        MulNonNegative(b, wb[i - |ws|]);
      }
    }
  }

  /** With probabilities in [0, 1] and q_p > 0 both shares are nonnegative. */
  lemma SharesNonNegative<P>(f: State<P>, qp: real)
    requires Probability(f.prob) && Probability(f.probBirth) && Probability(f.probSurv)
    requires 0.0 < qp
    ensures 0.0 <= SurvivalShare(f, qp) && 0.0 <= BirthShare(f, qp)
  {
    MulNonNegative(f.probSurv, f.prob);
    MulNonNegative(f.probBirth, 1.0 - f.prob);
    QuotientNonNegative(f.probSurv * f.prob, qp);
    QuotientNonNegative(f.probBirth * (1.0 - f.prob), qp);
  }

  /** The two shares add up to 1: q_p is exactly the sum of their numerators. */
  lemma SharesTotal<P>(f: State<P>)
    requires PredictedExistence(f) != 0.0
    ensures SurvivalShare(f, PredictedExistence(f)) + BirthShare(f, PredictedExistence(f)) == 1.0
  {
    var qp := PredictedExistence(f);
    var x, y := f.probSurv * f.prob, f.probBirth * (1.0 - f.prob);
    QuotientSum(x, y, qp);
    assert x + y == qp;
    QuotientTimes(1.0, qp);
  }

  /** Over nonnegative weights and probabilities in [0, 1], the predicted weights, when
      defined, are a weight vector over the joint population. */
  lemma PredictedWeightsStochastic<P>(f: State<P>)
    requires NonNegative(f.weightsSurv) && NonNegative(f.weightsBorn)
    requires Probability(f.prob) && Probability(f.probBirth) && Probability(f.probSurv)
    requires PredictedWeights(f).Some?
    ensures Stochastic(PredictedWeights(f).value)
  {
    var qp := PredictedExistence(f);
    PredictedExistenceInUnit(f);
    SharesNonNegative(f, qp);
    BlendNonNegative(SurvivalShare(f, qp), f.weightsSurv, BirthShare(f, qp), f.weightsBorn);
    NormaliseStochastic(Blended(f, qp));
  }

  /** From a valid state with survivors the blend already sums to 1, so the
      renormalisation of the source changes nothing over the reals. */
  lemma BlendAlreadyNormalised<P>(f: State<P>)
    requires Valid(f) && f.weightsSurv != [] && PredictedExistence(f) != 0.0
    ensures Sum(Blended(f, PredictedExistence(f))) == 1.0
    ensures PredictedWeights(f) == Some(Blended(f, PredictedExistence(f)))
  {
    var qp := PredictedExistence(f);
    var a, b := SurvivalShare(f, qp), BirthShare(f, qp);
    BlendTotal(a, f.weightsSurv, b, f.weightsBorn);
    SharesTotal(f);
    assert a * Sum(f.weightsSurv) + b * Sum(f.weightsBorn) == a + b;
    NormaliseIdempotent(Blended(f, qp));
  }

  /** From a valid state the predicted weights are defined exactly when q_p is nonzero and
      either there are survivors or newborns keep some prior mass prob_birth·(1 − q). */
  lemma PredictedWeightsDefined<P>(f: State<P>)
    requires Valid(f)
    ensures PredictedWeights(f).Some? <==>
      PredictedExistence(f) != 0.0 && (f.weightsSurv != [] || f.probBirth * (1.0 - f.prob) != 0.0)
  {
    var qp := PredictedExistence(f);
    if qp != 0.0 {
      if f.weightsSurv != [] {
        BlendAlreadyNormalised(f);
      } else {
        var a, b := SurvivalShare(f, qp), BirthShare(f, qp);
        BlendTotal(a, f.weightsSurv, b, f.weightsBorn);
        assert Sum(f.weightsSurv) == 0.0;
        assert Sum(Blended(f, qp)) == b;
        QuotientZero(f.probBirth * (1.0 - f.prob), qp);
      }
    }
  }

  /** The likelihood output and the propagated particles have one entry per particle of
      the joint population. */
  function Joint<P>(f: State<P>): seq<P>
  {
    f.particlesSurv + f.particlesBorn
  }

  predicate Conforms<P>(f: State<P>, motion: seq<P> -> seq<P>, likelihood: seq<P> -> (seq<NonNeg>, seq<NonNeg>))
  {
    var pp := motion(Joint(f));
    |pp| == |Joint(f)| && |likelihood(pp).0| == |pp| && |likelihood(pp).1| == |pp|
  }

  /** The prediction and update stages of __call__: q_p and weights_p, then the existence
      update, the weight update and the extra renormalisation w / np.sum(w). The existence
      update is the intended one, ExistenceUpdateIntended, in place of the log-domain
      _update_existance_prob that berpf/berpf.py:320 calls: the two differ only at I = 0, where the
      log-domain code gives NaN and the intended update gives 0. */
  function Update<P>(f: State<P>, lt: seq<NonNeg>, ratio: seq<NonNeg>): Option<Updated>
    requires |lt| == |ratio| == |f.weightsSurv| + |f.weightsBorn|
  {
    var qp := PredictedExistence(f);
    match PredictedWeights(f)
    case None => None
    case Some(wp) =>
      match (ExistenceUpdateIntended(wp, ratio, qp), WeightUpdate(lt, wp))
      case (Some(q), Some(w)) =>
        WeightUpdateStochastic(lt, wp);
        Some(Updated(q, Normalise(w)))
      case _ => None
  }

  /** A successful update yields an existence probability in [0, 1] and a weight vector
      over the joint population; the extra renormalisation leaves the updated weights as
      they are. */
  lemma UpdateSpec<P>(f: State<P>, lt: seq<NonNeg>, ratio: seq<NonNeg>)
    requires |lt| == |ratio| == |f.weightsSurv| + |f.weightsBorn|
    requires Update(f, lt, ratio).Some?
    ensures PredictedWeights(f).Some?
    ensures Probability(Update(f, lt, ratio).value.prob)
    ensures |Update(f, lt, ratio).value.weights| == |f.weightsSurv| + |f.weightsBorn|
    ensures Stochastic(Update(f, lt, ratio).value.weights)
    ensures WeightUpdate(lt, PredictedWeights(f).value) == Some(Update(f, lt, ratio).value.weights)
  {
    var qp := PredictedExistence(f);
    var wp := PredictedWeights(f).value;
    IntendedInUnit(wp, ratio, qp);
    WeightUpdateStochastic(lt, wp);
    NormaliseIdempotent(WeightUpdate(lt, wp).value);
  }

  /** particles_p[indices]: ps lists the propagated particles at the resampled indices. */
  ghost predicate Picks<P>(ps: seq<P>, pp: seq<P>, indices: seq<nat>)
  {
    |ps| == |indices| && forall k :: 0 <= k < |indices| ==> indices[k] < |pp| && ps[k] == pp[indices[k]]
  }

  /** The new state returned through override, surviving weights reset as the source
      writes it: np.ones(Nsuv)/Nsuv, whatever the number of resampled particles. */
  function ResetAsWritten<P>(f: State<P>, particlesSurv: seq<P>, q: real, born: seq<P>): State<P>
  {
    f.(prob := q, particlesSurv := particlesSurv, weightsSurv := Uniform(f.nsuv),
       particlesBorn := born, weightsBorn := Uniform(f.nbirth))
  }

  /** The new state with one uniform weight per resampled particle. */
  function Reset<P>(f: State<P>, particlesSurv: seq<P>, q: real, born: seq<P>): State<P>
  {
    f.(prob := q, particlesSurv := particlesSurv, weightsSurv := Uniform(|particlesSurv|),
       particlesBorn := born, weightsBorn := Uniform(f.nbirth))
  }

  /** As written, the surviving weights are Nsuv entries of 1/Nsuv and the newborn weights
      Nbirth entries of 1/Nbirth; the surviving population and its weights have equal
      lengths only when exactly Nsuv particles were resampled. */
  lemma ResetAsWrittenShape<P>(f: State<P>, particlesSurv: seq<P>, q: real, born: seq<P>)
    requires |born| == f.nbirth
    ensures var g := ResetAsWritten(f, particlesSurv, q, born);
      && |g.weightsSurv| == f.nsuv
      && (forall i :: 0 <= i < f.nsuv ==> g.weightsSurv[i] == 1.0 / (f.nsuv as real))
      && |g.weightsBorn| == f.nbirth
      && (forall i :: 0 <= i < f.nbirth ==> g.weightsBorn[i] == 1.0 / (f.nbirth as real))
      && (Consistent(g) <==> |particlesSurv| == f.nsuv)
  {
  }

  /** The reset as written breaks the one-weight-per-particle invariant whenever the joint
      population is smaller than Nsuv, since the resampler then returns fewer than Nsuv indices. */
  lemma ResetAsWrittenInconsistent<P>(f: State<P>, particlesSurv: seq<P>, q: real, born: seq<P>)
    requires |Joint(f)| < f.nsuv && |particlesSurv| == Min(|Joint(f)|, f.nsuv)
    ensures !Consistent(ResetAsWritten(f, particlesSurv, q, born))
  {
  }

  /** The smallest instance: Nsuv = 2, Nbirth = 1. The first transition resamples one
      particle from a joint population of one, and the as-written reset pairs it with two
      weights; the next transition then indexes the likelihood output out of range. */
  lemma FirstStepAsWritten<P>(x: P)
    ensures Init(2, 1, 0.5, 0.5, [x]).Some?
    ensures var f := Init(2, 1, 0.5, 0.5, [x]).value;
      && |Joint(f)| == 1
      && Min(|Joint(f)|, f.nsuv) == 1
      && |ResetAsWritten(f, [x], 0.5, [x]).weightsSurv| == 2
      && !Consistent(ResetAsWritten(f, [x], 0.5, [x]))
  {
  }

  /** When exactly Nsuv particles were resampled, i.e. whenever the joint population has
      at least Nsuv particles, the corrected reset is the reset as written. */
  lemma ResetMatchesAsWritten<P>(f: State<P>, particlesSurv: seq<P>, q: real, born: seq<P>)
    requires |particlesSurv| == f.nsuv
    ensures Reset(f, particlesSurv, q, born) == ResetAsWritten(f, particlesSurv, q, born)
  {
  }

  /** The corrected reset keeps the state valid for any number of resampled particles. */
  lemma ResetValid<P>(f: State<P>, particlesSurv: seq<P>, q: real, born: seq<P>)
    requires Valid(f) && Probability(q) && |born| == f.nbirth
    ensures Valid(Reset(f, particlesSurv, q, born))
    ensures var g := Reset(f, particlesSurv, q, born);
      && (forall i :: 0 <= i < |particlesSurv| ==> g.weightsSurv[i] == 1.0 / (|particlesSurv| as real))
      && (forall i :: 0 <= i < f.nbirth ==> g.weightsBorn[i] == 1.0 / (f.nbirth as real))
  {
    UniformStochastic(f.nbirth);
    if 0 < |particlesSurv| {
      UniformStochastic(|particlesSurv|);
    }
  }

  /** __call__: one transition. The random offset of the resampler is u and the newborn
      particles the birth model draws are born; None is a transition whose float
      evaluation gives NaN or raises. */
  method Step<P>(f: State<P>, motion: seq<P> -> seq<P>, likelihood: seq<P> -> (seq<NonNeg>, seq<NonNeg>),
                 born: seq<P>, u: real) returns (r: Option<State<P>>)
    requires Consistent(f) && Conforms(f, motion, likelihood)
    requires 0.0 <= u < 1.0
    ensures var pp := motion(Joint(f));
      r.None? <==> Update(f, likelihood(pp).0, likelihood(pp).1).None?
    ensures r.Some? ==>
      var pp := motion(Joint(f));
      var upd := Update(f, likelihood(pp).0, likelihood(pp).1).value;
      && Probability(r.value.prob)
      && r.value == Reset(f, r.value.particlesSurv, upd.prob, born)
      && |r.value.particlesSurv| == Min(|Joint(f)|, f.nsuv)
      && exists indices :: IsSystematicResample(upd.weights, f.nsuv, u, indices) && Picks(r.value.particlesSurv, pp, indices)
    ensures r.Some? && Valid(f) && |born| == f.nbirth ==> Valid(r.value)
  {
    var pp := motion(Joint(f));
    var (lt, ratio) := likelihood(pp);
    var upd := Update(f, lt, ratio);
    if upd.None? {
      return None;
    }
    UpdateSpec(f, lt, ratio);
    StochasticInRange(upd.value.weights, f.nsuv, u);
    var indices := SysResample(upd.value.weights, f.nsuv, u);
    var particlesSurv := seq(|indices|, k requires 0 <= k < |indices| => pp[indices[k]]);
    assert Picks(particlesSurv, pp, indices);
    r := Some(Reset(f, particlesSurv, upd.value.prob, born));
    if Valid(f) && |born| == f.nbirth {
      ResetValid(f, particlesSurv, upd.value.prob, born);
    }
  }

}
