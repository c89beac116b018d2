# Bernoulli particle filter (berpf) in Dafny

This project models the core of `berpf`, a Bernoulli particle filter. The filter tracks
at most one target. Its state is an existence probability `q`, a population of
surviving particles with weights, and a population of newborn particles with weights.
One call of the filter (`BerParticleFilter.__call__`) does five things:

1. It predicts the existence probability `q_p = prob_birth·(1 − q) + prob_surv·q`.
2. It blends the two weight vectors into the predicted weights `weights_p`.
3. It updates `q` and the weights from the likelihood collaborator's `Lt` and `Ratio`.
4. It resamples `min(len(w), Nsuv)` survivors with the systematic resampler `_sysresample`.
5. It resets the weights and draws new newborns.

The model uses exact `real` arithmetic instead of IEEE floats. Dafny has no `exp` or
`log`, so the exponentiated likelihood terms `Lt_i = exp(LogLt_i)` and
`Ratio_i = exp(LogRatio_i)` are inputs of the subset type `NonNeg`. A float evaluation
that gives NaN or raises (a log of a negative number, a division by zero, `np.max` of an
empty array) is the `None` of an `Option`.

Modules:

* `Maybe` (option.dfy): the `Option` datatype.
* `RealSeq` (real_seq.dfy): sums, scaling, element-wise products, normalisation and uniform
  vectors over `seq<real>`, with their algebra.
* `Resample` (resample.dfy): `_sysresample` as an imperative method. It computes the
  positions and cumulative sums, then `Sweep` runs the source's two-cursor loop and writes
  into a local array. Both are proved against an inverse-CDF specification over the
  cumulative sums.
* `Weights` (weight_update.dfy): `_weight_update` and `_weight_update_prime`. The
  `np.nonzero` gather is `Compress` and the scatter into a zero vector is `Expand`.
* `Existence` (existence.dfy): `_update_existance_prob` (log domain, restricted to the
  nonzero predicted weights, clamped at 1), `_update_existance_prob_linear_domain`, and
  the intended update that the update stage uses (see Findings).
* `Filter` (filter.dfy): the state record and the constructor's defaults, the prediction
  and update stages, the reset of the new state, and `Step`, the whole transition.
  `Step` calls the resampler method.

## Model

| member | source | states |
|---|---|---|
| Resample.SysResample | berpf/berpf.py:97-121 | Returns exactly `min(len(weights), Nsuv)` indices, non-decreasing. Each index `j` is below `len(weights)` and is the inverse-CDF selection of its position: `positions[k] < cumsum[j]`, and `cumsum[j-1] <= positions[k]` when `j > 0`. Every selected weight is positive. The loop terminates, and every `cumsum[j]` it reads is in range. |
| Resample.Positions | berpf/berpf.py:107 | `(u + arange(N)) / N` has `N` entries, is non-decreasing, and lies in `[0, 1)` when `0 <= u < 1`. |
| Resample.Sweep | berpf/berpf.py:109-119 | For non-decreasing positions whose last entry lies below the last cumulative sum, the two-cursor loop terminates, never reads `cumsum[j]` out of range, and returns one index per position, non-decreasing, each the inverse-CDF selection of its position. |
| Resample.StochasticInRange | berpf/berpf.py:102-119 | For nonnegative weights summing to 1 and `0 <= u < 1`, every position is below the last cumulative sum. This is the condition under which the unclamped cursor `j` stays in range. |
| Resample.CumSumMonotone | berpf/berpf.py:110 | The cumulative sums of nonnegative weights are non-decreasing. |
| Resample.SelectionUnique | berpf/berpf.py:110-119 | Over nonnegative weights, at most one index is the inverse-CDF selection of a given position. |
| Resample.ResampleUnique | berpf/berpf.py:97-121 | Over nonnegative weights, the systematic resample of a weight vector is unique for a given offset `u`. |
| Resample.SelectedWeightPositive | berpf/berpf.py:115-116 | An index selected for some position has positive weight, so a zero-weight particle is never chosen. |
| RealSeq.NormaliseTotal | berpf/berpf.py:45 | Dividing a vector by a nonzero total keeps its length and gives total 1. |
| RealSeq.NormaliseStochastic | berpf/berpf.py:315 | Dividing a nonnegative vector by its nonzero total gives a weight vector. |
| RealSeq.NormaliseIdempotent | berpf/berpf.py:326 | Renormalising a vector that already sums to 1 changes nothing. |
| RealSeq.UniformStochastic | berpf/berpf.py:257 | `1/n · ones(n)` for `n > 0` is a weight vector with every entry `1/n`. |
| Weights.ExpandCompress | berpf/berpf.py:27-33 | Scattering a gathered vector back over the nonzero positions gives the original entry there and 0 elsewhere. |
| Weights.SumCompress | berpf/berpf.py:27-33 | A vector that is zero wherever the predicted weights are zero has the same total after the gather. |
| Weights.WeightUpdateDefined | berpf/berpf.py:18-34 | `_weight_update` has a value if and only if the predicted weights are nonnegative and some `wp_i·Lt_i` is positive. |
| Weights.MassPositive | berpf/berpf.py:44-45 | Over nonnegative predicted weights, `Σ wp·Lt` is nonzero if and only if some term `wp_i·Lt_i` is positive. |
| Weights.WeightUpdateStochastic | berpf/berpf.py:18-34 | When defined, the result has one entry per predicted weight, is nonnegative and sums to 1, and the mass `Σ wp·Lt` is positive. |
| Weights.WeightUpdateProportional | berpf/berpf.py:18-34 | When defined, each result entry times `Σ wp·Lt` is `wp_i·Lt_i`. |
| Weights.WeightUpdateKeepsZero | berpf/berpf.py:27-33 | When defined, the result is exactly 0 wherever `wp_i = 0`. |
| Weights.WeightUpdatePrimeDefined | berpf/berpf.py:36-47 | Over nonnegative predicted weights and likelihoods, `_weight_update_prime` is defined if and only if some term `wp_i·Lt_i` is positive. |
| Weights.WeightUpdatePrimeTotal | berpf/berpf.py:44-45 | When defined, the dense update has one entry per predicted weight and sums to 1. |
| Weights.WeightUpdatePrimeProportional | berpf/berpf.py:44-45 | When defined, each entry of the dense update times `Σ wp·Lt` is `wp_i·Lt_i`. |
| Weights.WeightUpdatePrimeKeepsZero | berpf/berpf.py:44-45 | When defined, the dense update is 0 wherever `wp_i = 0`. |
| Weights.WeightUpdatePrimeStochastic | berpf/berpf.py:44-45 | For nonnegative predicted weights and likelihoods, the dense update, when defined, is a weight vector. |
| Weights.WeightUpdatePrimeScaleInvariant | berpf/berpf.py:41-42 | Scaling `Lt` by a positive constant (the shift by `max(LogLt)`) does not change the result. |
| Weights.WeightUpdateMatchesPrime | berpf/berpf.py:27-34 | The gathered/scattered update computes the same weights as the dense `wp·Lt / Σ(wp·Lt)` of lines 44-45 for nonnegative predicted weights, and has no value otherwise. |
| Existence.RestrictedIntegral | berpf/berpf.py:75-81 | Restricting `I = Σ wp_i·Ratio_i` to the nonzero predicted weights does not change it. |
| Existence.PosteriorInUnit | berpf/berpf.py:56 | For `I >= 0` and `qp` in `[0, 1]`, `I·qp / (1 − qp + qp·I)` lies in `[0, 1]`. |
| Existence.EvidencePositive | berpf/berpf.py:82-83 | The terms `1 − qp` and `qp·exp(x1)` sum to `1 − qp + qp·I`, which is positive once `I > 0`. |
| Existence.ExistenceUpdateDefined | berpf/berpf.py:62-91 | The log-domain update has a value if and only if the predicted weights are nonnegative, `qp` lies in `[0, 1]` and `I > 0`. |
| Existence.ExistenceUpdateInUnit | berpf/berpf.py:85-91 | Whenever defined, the clamped update lies in `[0, 1]`. |
| Existence.LogDomainValue | berpf/berpf.py:81-91 | The log-domain value is `min(I·qp / (1 − qp + qp·I), 1)`. |
| Existence.ExistenceUpdateMatchesLinear | berpf/berpf.py:49-59 | Wherever the log-domain update is defined, the linear-domain update gives the same value. |
| Existence.AllZeroRatioAsWritten | berpf/berpf.py:79-89 | With one predicted weight 1, a ratio 0 and `qp = 0.5`, the log-domain update has no value (NaN), while the intended update is 0. |
| Existence.IntendedExtendsAsWritten | berpf/berpf.py:62-91 | Wherever the log-domain update has a value, the intended update gives the same value. |
| Existence.IntendedInUnit | berpf/berpf.py:49-59 | Whenever defined, the intended update lies in `[0, 1]`. |
| Existence.IntendedZeroIntegral | berpf/berpf.py:49-59 | Over nonnegative predicted weights with at least one nonzero entry and `qp` in `[0, 1)`, a zero integral `I` gives `q = 0`. |
| Filter.InitValid | berpf/berpf.py:226-283 | With the constructor's defaults and `Nbirth > 0` newborns, the filter starts with `prob = 0`, no surviving particles or weights, `particles_born = born` and `Nbirth` newborn weights each `1/Nbirth`, and satisfies the state invariant. |
| Filter.PredictedExistenceInUnit | berpf/berpf.py:310 | For `q`, `prob_birth`, `prob_surv` in `[0, 1]`, `q_p` lies in `[0, 1]`. |
| Filter.PredictedWeights | berpf/berpf.py:311-315 | When defined, `weights_p` has `len(weights_surv) + len(weights_born)` entries: one per particle of the joint population when each population has one weight per particle. |
| Filter.BlendTotal | berpf/berpf.py:311-314 | `concatenate(a·w_s, b·w_b)` has `len(w_s) + len(w_b)` entries and totals `a·Σw_s + b·Σw_b`. |
| Filter.BlendNonNegative | berpf/berpf.py:311-314 | Nonnegative weights blended with nonnegative factors stay nonnegative. |
| Filter.SharesNonNegative | berpf/berpf.py:310-313 | For probabilities in `[0, 1]` and `q_p > 0`, the factors `prob_surv·q/q_p` and `prob_birth·(1 − q)/q_p` are nonnegative. |
| Filter.SharesTotal | berpf/berpf.py:310-313 | The two factors add up to 1 whenever `q_p ≠ 0`. |
| Filter.PredictedWeightsStochastic | berpf/berpf.py:310-315 | Over nonnegative weights and probabilities in `[0, 1]`, `weights_p`, when defined, is nonnegative and sums to 1. |
| Filter.BlendAlreadyNormalised | berpf/berpf.py:310-315 | From a valid state with survivors and `q_p ≠ 0`, the blend already sums to 1, so the renormalisation on line 315 changes nothing. |
| Filter.PredictedWeightsDefined | berpf/berpf.py:310-315 | From a valid state, `weights_p` is defined if and only if `q_p ≠ 0` and either there are survivors or `prob_birth·(1 − q) ≠ 0`. |
| Filter.UpdateSpec | berpf/berpf.py:317-326 | A successful update, with the intended existence update in place of line 320, yields `q` in `[0, 1]` and a weight vector over the joint population. The renormalisation on line 326 leaves the result of `_weight_update` unchanged, so the lemmas about `_weight_update` apply to the updated weights. |
| Filter.ResetAsWrittenShape | berpf/berpf.py:350-360 | The reset as written gives `Nsuv` surviving weights equal to `1/Nsuv` and `Nbirth` newborn weights equal to `1/Nbirth`. Survivors and their weights agree in length if and only if exactly `Nsuv` particles were resampled. |
| Filter.ResetAsWrittenInconsistent | berpf/berpf.py:350-354 | When the joint population is smaller than `Nsuv`, the reset as written leaves fewer surviving particles than surviving weights. |
| Filter.FirstStepAsWritten | berpf/berpf.py:350-354 | With `Nsuv = 2` and `Nbirth = 1`, the first step resamples 1 particle and the as-written reset pairs it with 2 weights. |
| Filter.ResetMatchesAsWritten | berpf/berpf.py:350-360 | When exactly `Nsuv` particles were resampled, the corrected reset and the reset as written give the same state. |
| Filter.ResetValid | berpf/berpf.py:350-360 | The corrected reset gives each resampled particle weight `1/len(particles_surv)` and each newborn weight `1/Nbirth`, and keeps the state invariant. |
| Filter.Step | berpf/berpf.py:286-373 | The transition fails exactly when the update does. When it succeeds, the new `prob` is the updated `q`, in `[0, 1]`. `particles_surv` has `min(len(particles_surv) + len(particles_born), Nsuv)` rows, picked from the propagated particles by a systematic resample of the updated weights with offset `u`. The rest of the state is the reset one. A valid state stays valid. |

## Left out

- `_logsumexp` and the log/exp pipelines (berpf/berpf.py:12-15, 29-33, 81-87): they guard against float overflow, and Dafny has no exponential. The model computes the same quantities in the linear domain, with `exp(LogLt)` and `exp(LogRatio)` given as nonnegative reals.
- The NaN branch of `_sysresample` (berpf/berpf.py:104-105): reals have no NaN. A float NaN anywhere upstream is the `None` of the prediction or update stage, so `Step` returns `None` instead of taking the random `rng.choice` fallback.
- The non-finite fallback `return 1.0` of the linear-domain update (berpf/berpf.py:55-59): a real integral is always finite.
- Resample.SysResample: the source does not clamp the cursor `j`, and with float rounding the last cumulative sum can fall below the last position, which raises an index error. The model instead requires `InRange`: the last position is below the total weight. `Resample.StochasticInRange` shows that a weight vector summing to 1 meets it.
- The effective-sample-size diagnostics `N_eff*` (berpf/berpf.py:329-347): informational float reductions that nothing else in the transition reads.
- `mean`, `covar` and `maxap` (berpf/berpf.py:195-223): matrix products and argmax over float arrays.
- The collaborators `motion_model`, `likelihood_fn`, `birth_model` and the random generator `rng`. `Step` takes the motion and likelihood models as function parameters. It takes the particles the birth model draws as `born` and the uniform draw `rng.random()` as `u`. Measurements are not modelled.
- Filter.Init: models the constructor's defaults only: `prob = 0`, no survivors, `born` as the newborns, uniform newborn weights. Explicit `particles_born`, `weights_born`, `particles_surv` and `weights_surv` arguments are any `State` value. The `N_eff*` fields are not modelled.
- `parameters`/`override` (berpf/berpf.py:375-382): Python reflection over `__dict__`; the model uses a record update.
- The settings protocol and dataclasses (berpf/berpf.py:127-160) and the shared default `rng` argument: declarations with no logic.
- The unused local `Nborn` (berpf/berpf.py:304).
- Weights.WeightUpdate: the scatter `wp[non_zero] = ...` into a fresh zero array is modelled as the value `Expand`. No array is updated in place.
- Filter.Step: uses the corrected reset `Filter.Reset` and the intended existence update `Existence.ExistenceUpdateIntended` (see Findings). It requires each population to have one weight per particle, which the as-written reset does not preserve.
- tests/test_call.py: a smoke test that only checks the type of the returned object.

## Findings

| source | as written | input that shows it | evidently intended | confidence | as-written member | corrected member |
|---|---|---|---|---|---|---|
| berpf/berpf.py:350-354 | `weights_surv` is reset to `np.ones(Nsuv)/Nsuv`, while `particles_surv` has `min(len(w), Nsuv)` rows (line 102) | `Nsuv = 2`, `Nbirth = 1`: the first call resamples 1 particle but stores 2 surviving weights. On the next call `weights_p` has 3 entries while `LogRatio` has one per particle, 2. If `prob_birth·(1 − q) ≠ 0`, the newborn entry of `weights_p` is nonzero and `LogRatio[non_zero]` (line 79, reached from line 320) indexes out of range. With `prob_birth·(1 − q) = 0` that entry is zero and the read stays in range. | one uniform weight `1/len(particles_surv)` per resampled particle | not executed | Filter.FirstStepAsWritten | Filter.ResetValid |
| berpf/berpf.py:79-89 | `q` is computed as `exp(logsumexp(x1) + log(qp) − logsumexp(x2))` | one nonzero predicted weight with `LogRatio = -inf` there (ratio 0), `qp = 0.5`: `x1 = [-inf]`, so `logsumexp(x1)` computes `-inf − (-inf)`, which is NaN, and `q` is NaN | the Bernoulli update `I·qp / (1 − qp + qp·I)` with `I = 0`, giving `q = 0`, as the linear-domain form at lines 49-59 computes | not executed | Existence.AllZeroRatioAsWritten | Existence.IntendedZeroIntegral |
