# FairShareILS in Dafny

FairShareILS is a selection hyper-heuristic. It runs an iterated local search over the low-level
heuristics of a problem domain. Each iteration goes through these steps:

1. Choose an option by roulette wheel over "fair share" scores. An option is one perturbation
   heuristic (a mutation or a ruin-recreate heuristic), or a restart from a random solution.
2. Apply the option and refine the candidate by a first-improvement local search. The local
   search shrinks an active region of the local-search heuristics.
3. Decide acceptance by an adaptive probabilistic rule. It accepts with probability
   `exp((e_current - e_proposed) / (T * mu_impr))`, where `mu_impr` is the running mean of the
   improvements seen in the run.
4. Charge the time spent to the option, count its successes and recompute its score
   `(1 + news) / duration`.
5. Restart the whole run once it has stagnated longer than a learned patience, and only when
   enough of the time budget remains to reach the best value again.

The project models the search state as the class `FairShare.FairShareILS`. It has the same
fields as the source: the heuristic index arrays, the per-run arrays `news`, `durations` and
`evaluations`, the solution values, and the acceptance and restart statistics. The methods keep
the source's loops, in-place swaps and field updates. Most follow one source method each
(`SelectOption`, `ApplyOption`, `LocalSearch`, `Accept`, `Restart`). Three source methods are
split over several methods, to keep each proof small:

- `setup` is the constructor, with the copy loops in `Concat`.
- `init` is `Init`, with the allocation loop in `NewStatistics`.
- The body of `solve`'s loop is `Iteration`. It calls `Step` (which calls `SelectOption`, then
  `ApplyAndRecord`), then `RestartIfStuck`. `ApplyAndRecord` runs `ApplyOption`, then
  `RecordOutcome`, which calls `Accept` and then `Tally`. `RestartIfStuck` runs `Restart`, then
  `Init` when a restart is due.

Ghost fields record two things:

- `applied`: how often each option has been applied in the current run;
- `improvements`: the improvement amounts the acceptance rule has averaged.

The class invariant `Valid()` ties the two to the real fields. For example, `mu_impr` is the mean
of the recorded improvements. Successes never exceed applications, and applications never exceed
the time charged. Each score is the initial share until its option is first applied, and its fair
share after that.

The pure decisions are separate modules, each with its own lemmas:

- `Roulette`: the specification of the roulette wheel.
- `Acceptance`: the mean and the acceptance test.
- `RestartControl`: the restart controller as a function on its five values.
- `DoubleArith`: the IEEE 754 division cases that the source relies on: x / 0 is infinity or
  not-a-number, and every comparison with not-a-number is false.

The problem domain, the random generator, `Math.exp` and the clock enter the methods as
parameters:

- `u`: a draw of `nextDouble` in [0, 1).
- `pick(s, lo, hi)`: the s-th draw of `nextInt(lo, hi)`, assumed to lie in [lo, hi).
- `trial(s, h)`: the value reported by the s-th local-search application, of heuristic h. It is at
  least a lower bound `lb`.
- `perturb(h)`: the value reported by perturbation heuristic h.
- `reinitValue` and `eRestart`: the values of random solutions.
- `exp`: an increasing positive function that is at least 1 on the non-negative numbers.
- `before`, `after`, `now` and `nowRestart`: clock readings, in order.

Solution values are integers bounded below by `lb`. This gives the local search the termination
measure `(e_proposed - lb, |llhs_ls| - i)`.

Four consequences of the code are worth stating on their own:

- **Equal value before the first improvement.** Before the first improvement `mu_impr` is 0. A
  candidate of equal value then gives the exponent `0 / 0`, which is not-a-number. `u < exp(NaN)`
  is false, so the candidate is rejected. A worse candidate gives `-infinity` and is rejected as
  well. `Acceptance.Accepts` states these cases.
- **Elapsed time zero.** At elapsed time zero the time factor is `limit / 0`, which is infinity
  (or not-a-number when the limit is zero too). No restart fires. `RestartControl.OutOfPatience`
  states this case.
- **Time charged.** `durations` starts at 0 after `init` and grows by `elapsed + 1` per
  application. A score is therefore only computed for an option that has been applied, and its
  duration is then at least 1.
- **Cost of the local search.** The code restarts the active region on every improvement, so the
  number of local-search applications has no bound that depends only on the number k of
  local-search heuristics. `FairShare.FairShareILS.LocalSearch` proves a bound in terms of the
  values: at most `(e_before - e_after) * (k + 1) + k` draws.

## Model

| member | source | states |
|---|---|---|
| FairShare.Concat | src/FairShareILS.java:91-97 | the perturbation options are a fresh array holding the mutation heuristics followed by the ruin-recreate heuristics, so its length is the sum of the two |
| FairShare.FairShareILS.constructor | src/FairShareILS.java:86-102 | setup then init: the perturbation options are the two lists concatenated, the local-search list is the domain's, e_best is Double.MAX_VALUE, max_wait is 1, t_best is 0, and the state is a valid fresh run |
| FairShare.FairShareILS.Init | src/FairShareILS.java:104-119 | a new run gets fresh arrays of length \|llhs_pert\|+1, zero successes and time, every score the same positive initial share, no improvements (n_impr = 0, mu_impr = 0), e_run_best = e_current = the new solution's value, wait = 0, the run start time; the invariant holds and the learned values are kept |
| FairShare.FairShareILS.NewStatistics | src/FairShareILS.java:106-111 | three fresh arrays of length n, the counters zero and every score Double.MAX_VALUE / n |
| FairShare.InitialScore | src/FairShareILS.java:110 | the initial share is positive and the n shares add up to Double.MAX_VALUE |
| FairShare.Score | src/FairShareILS.java:78 | the SpeedNew score is positive, times the duration it is 1 + news, and it is at most 2 while news ≤ duration |
| FairShare.UntriedOptionOutranks | src/FairShareILS.java:109-111 | an option not yet applied in the run has a larger score than any option that has been applied |
| FairShare.FairShareILS.ScoresPositive | src/FairShareILS.java:108-111 | under the invariant every score on the wheel is positive, which is the precondition of the roulette wheel |
| FairShare.FairShareILS.SelectOption | src/FairShareILS.java:121-138 | for positive scores and a draw u in [0,1), the point u * norm lies strictly inside the wheel and the result is the index Roulette.Pick scans to; the scores are not modified |
| Roulette.SumPositive | src/FairShareILS.java:125-128 | the norm of positive scores is positive |
| Roulette.Pick | src/FairShareILS.java:131-136 | the scan `while(ac < p)` from a given index stops at an index in range when the point lies on the wheel |
| Roulette.PickSelects | src/FairShareILS.java:131-136 | the scan from index 0 stops at the least index whose inclusive prefix sum reaches the point |
| Roulette.PrefixSumsIncrease | src/FairShareILS.java:132-136 | with positive scores the prefix sums strictly increase, so the wheel's slices do not overlap |
| Roulette.SelectsSlice | src/FairShareILS.java:130-136 | an index is selected exactly when the point lies in its slice (after the sum of earlier scores, up to the sum including its own) |
| Roulette.SelectsUnique | src/FairShareILS.java:130-136 | at most one index is selected for a given point |
| FairShare.Swap | src/FairShareILS.java:167-169 | the two entries are exchanged, every other entry is kept, the contents are a permutation |
| FairShare.FairShareILS.LocalSearch | src/FairShareILS.java:154-173 | with every draw in the active region: llhs_ls stays a permutation; e_proposed never increases and stays ≥ lb; the final value is local-optimal: every heuristic in llhs_ls was tried after the value was reached, without improvement; the value was reported by one of the heuristics, or is the value on entry; the number of draws is at most (decrease) * (k + 1) + k |
| FairShare.FairShareILS.ApplyOption | src/FairShareILS.java:140-152 | the candidate is the perturbation of heuristic llhs_pert[option], or a random solution for the last option, refined by local search: its value is ≥ lb and no worse than the perturbed value, and equals it when the local search never improved; the final value is locally optimal, because every heuristic in llhs_ls was applied after it was reached without beating it; llhs_ls stays a permutation; the invariant is kept |
| FairShare.FairShareILS.Accept | src/FairShareILS.java:175-182 | n_impr grows by one exactly on a strict improvement, whose amount is recorded; mu_impr stays the mean of the recorded amounts; the decision is Acceptance.Accepts; a strict improvement is always accepted |
| Acceptance.IncrementalMean | src/FairShareILS.java:177-180 | the update mu += (x - mu) / n keeps mu equal to the arithmetic mean of all recorded amounts |
| Acceptance.TotalPositive | src/FairShareILS.java:177-179 | positive improvements sum to at least their count |
| Acceptance.MeanPositive | src/FairShareILS.java:177-180 | after the first improvement mu_impr is positive |
| Acceptance.Accepts | src/FairShareILS.java:181 | with mu > 0 a strict improvement is accepted, an equal value is accepted, and a worse value is accepted exactly when u < exp(diff / (T * mu)); with mu = 0 exactly strict improvements are accepted |
| Acceptance.BetterCandidateAccepted | src/FairShareILS.java:181 | a candidate no worse than an accepted one is accepted too |
| Acceptance.LargerMeanMoreTolerant | src/FairShareILS.java:181 | a larger mean improvement never turns an acceptance into a rejection |
| DoubleArith.Divide | src/FairShareILS.java:181 | IEEE division: finite exactly for a non-zero divisor, with quotient * divisor = dividend; 0/0 is not-a-number; a positive dividend over zero is +infinity |
| DoubleArith.Scale | src/FairShareILS.java:199 | a finite factor times a finite quotient is their product; a positive factor keeps an infinite or not-a-number quotient |
| FairShare.FairShareILS.RecordOutcome | src/FairShareILS.java:70-78 | the option's duration grows by elapsed + 1 ≥ 1; a strict improvement that is not the same solution is recorded (n_impr + 1, its amount appended, so mu_impr is the mean including it), and nothing is recorded otherwise; the candidate is accepted exactly when it is not the same solution and passes Acceptance.Accepts under the updated mean; news[option] grows exactly on acceptance; e_current becomes e_proposed exactly on acceptance; only evaluations[option] is recomputed, to (1 + news) / duration; all other entries are kept; the invariant holds |
| FairShare.FairShareILS.Tally | src/FairShareILS.java:71-78 | the time is charged to the option, a success is counted when asked, its score is recomputed, every other option keeps its statistics, and successes ≤ applications ≤ time charged still holds |
| FairShare.FairShareILS.Restart | src/FairShareILS.java:184-205 | the new restart statistics and the answer are exactly RestartControl.Check of the old ones; the invariant is kept |
| RestartControl.Check | src/FairShareILS.java:184-205 | max_wait never decreases; e_run_best becomes min(e_run_best, e_current); e_best never increases; on a run improvement wait resets to 0 after being learned into max_wait, and there is no restart; otherwise wait grows by exactly 1 and nothing else changes; a new global best records its time; a tie keeps the smaller time; the answer is true exactly when the run did not improve, elapsed > 0, (wait + 1) * elapsed > max_wait * limit and limit - elapsed ≥ t_best |
| RestartControl.OutOfPatience | src/FairShareILS.java:198-200 | the double comparison wait > max_wait * (limit / elapsed) holds exactly when elapsed > 0 and wait * elapsed > max_wait * limit |
| RestartControl.PatienceAsProducts | src/FairShareILS.java:198-200 | for a positive elapsed time, comparing the wait with max_wait * (limit / elapsed) is comparing wait * elapsed with max_wait * limit |
| RestartControl.PatienceShrinks | src/FairShareILS.java:198-200 | a wait that exceeds the patience at one time exceeds it at every later time |
| RestartControl.PatienceThreshold | src/FairShareILS.java:197-200 | a wait at least as long as one that exceeds the patience exceeds it too |
| FairShare.FairShareILS.ApplyAndRecord | src/FairShareILS.java:69-78 | applying option `option` and recording it: the candidate is the locally optimal refinement of the perturbed value; the improvement record, the acceptance decision, e_current and the statistics of the option change as in RecordOutcome and no other option's statistics change; one more application is counted; llhs_ls stays a permutation; the invariant is kept |
| FairShare.FairShareILS.Step | src/FairShareILS.java:68-78 | the option chosen by roulette wheel is in range, and it is applied and recorded with every effect ApplyAndRecord states |
| FairShare.Gain | src/FairShareILS.java:176-179 | the acceptance rule records at most one amount per candidate, a positive one, and exactly when the candidate is a different solution and strictly better |
| FairShare.FairShareILS.RestartIfStuck | src/FairShareILS.java:79-82 | the decision is exactly RestartControl.Check of the controller state, the incumbent and the elapsed times; the new controller state is that check's, with e_run_best and wait reset by init when a restart fires; a restart leaves a fresh run; otherwise the run statistics, the acceptance statistics, the incumbent and the run start are kept |
| FairShare.FairShareILS.Iteration | src/FairShareILS.java:67-83 | one iteration of the search loop keeps the invariant; the option is in range; the candidate is the locally optimal refinement of the perturbed value; it is accepted exactly when it is a different solution and passes Acceptance.Accepts under the mean that includes its own improvement; the restart decision and the new controller state are RestartControl.Check on the incumbent after acceptance; a restart leaves a fresh run; otherwise e_current is the incumbent after acceptance, the improvement is recorded, and the chosen option alone has its time, successes and score updated |

## Left out

- The problem domain (applyHeuristic, initialiseSolution, getFunctionValue, compareSolutions, copySolution, getHeuristicsOfType) is foreign code: its results are method parameters, and the solution memory slots are not modelled.
- The random generator and the clock (rng, getElapsedTime, hasTimeExpired, getTimeLimit) are parameters with the ranges the framework guarantees; the extra hasTimeExpired calls inside apply_option and localsearch only poll the clock and are not modelled.
- The outer `while(!hasTimeExpired())` loop depends on the wall clock; the model gives one iteration, `FairShare.FairShareILS.Iteration`, and does not model termination of the loop.
- Each clock read in restart is the same `now` in the model; the source reads the clock once per use, moments apart.
- Floating-point rounding, underflow and overflow are not modelled: scores, the mean improvement and the time factor are exact reals, solution values are unbounded integers, and the int and long counters do not wrap. A zero norm from underflow in select_option therefore cannot occur in the model.
- `Math.exp` is a parameter with the properties the model needs (positive, at least 1 on the non-negatives, increasing), not the library function.
- `toString` and the two constructors only store parameters; the model's constructor takes the temperature and requires it to be positive, which the default of 0.5 is.
- The value a perturbation reports is `perturb(h)`, one value per heuristic within an iteration; how it varies between iterations is the domain's business.
- FairShare.FairShareILS.Step: does not restate that the option is the roulette-wheel pick (Roulette.Pick) of the scores on entry; FairShare.FairShareILS.SelectOption states it, and carrying it through the later updates of the scores is too costly for the verifier.
- FairShare.FairShareILS.Iteration: does not restate the roulette-wheel pick, for the reason given for Step, nor how the applications count grows; FairShare.FairShareILS.SelectOption and FairShare.FairShareILS.ApplyAndRecord state those.
- FairShare.FairShareILS.RecordOutcome: charges the time after the acceptance decision rather than before it; acceptance reads none of the option statistics, so the resulting state is the same.
