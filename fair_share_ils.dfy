/** The FairShareILS hyper-heuristic: an iterated local search that picks its perturbation (or a
    restart from a random solution) by roulette wheel over "fair share" scores, refines the
    candidate by a first-improvement local search, accepts it by an adaptive probabilistic rule and
    restarts the whole run when it stagnates for longer than a learned patience.

    The problem domain, the random generator and the clock are not part of this model: every value
    they deliver enters a method as a parameter, with the range the framework guarantees. */
module FairShare {
  import opened DoubleArith
  import Roulette
  import Acceptance
  import RestartControl

  /** The "fair share" score of an option: accepted improvements (plus one) per unit of time spent. */
  function Score(news: int, duration: int): (r: real)
    requires 0 <= news && 1 <= duration
    ensures r > 0.0
    ensures r * (duration as real) == 1.0 + news as real
    ensures news <= duration ==> r <= 2.0
  {
    (1.0 + news as real) / (duration as real)
  }

  /** The score every option starts a run with: Double.MAX_VALUE shared equally by the options. */
  function InitialScore(options: nat): (r: real)
    requires options >= 1
    ensures r > 0.0
    ensures r * (options as real) == DoubleMax as real
  {
    (DoubleMax as real) / (options as real)
  }

  /** An option not yet applied in this run outranks every option that has been, whatever its record. */
  lemma UntriedOptionOutranks(options: nat, news: int, duration: int)
    requires 1 <= options < DoubleMax / 2
    requires 0 <= news <= duration && 1 <= duration
    ensures Score(news, duration) < InitialScore(options)
  {
    QuotientAboveTwo(DoubleMax as real, options as real);
  }

  /** A draw below 1 scales a positive norm to a point strictly inside it. */
  lemma FractionBelow(u: real, x: real)
    requires 0.0 <= u < 1.0 && x > 0.0
    ensures u * x < x
  {
    assert x - u * x == (1.0 - u) * x;
  }

  /** A gap of at least one, scaled by c, leaves room for c more steps. */
  lemma GapScales(a: int, b: int, c: int)
    requires a < b && c >= 0
    ensures a * c + c <= b * c
  {
    assert b * c - a * c - c == (b - a - 1) * c;
  }

  /** m / k exceeds 2 when m exceeds 2 * k. */
  lemma QuotientAboveTwo(m: real, k: real)
    requires k > 0.0 && m > 2.0 * k
    ensures m / k > 2.0
  {
    assert (m / k - 2.0) * k == m - 2.0 * k;
  }

  /** A new array holding the elements of `a` followed by those of `b`. */
  method Concat(a: array<int>, b: array<int>) returns (c: array<int>)
    ensures fresh(c) && c[..] == a[..] + b[..]
  {
    c := new int[a.Length + b.Length];
    for i := 0 to a.Length
      invariant c[..i] == a[..i]
    {
      c[i] := a[i];
    }
    for i := 0 to b.Length
      invariant c[..a.Length] == a[..]
      invariant c[a.Length..a.Length + i] == b[..i]
    {
      c[i + a.Length] := b[i];
    }
    assert c[..] == c[..a.Length] + c[a.Length..a.Length + b.Length];
  }

  /** The improvement the acceptance rule records for a candidate of value `eProposed` against the
      incumbent's `eCurrent`: its amount when it is a different solution and strictly better. */
  function Gain(same: bool, eCurrent: int, eProposed: int): (g: seq<int>)
    ensures |g| <= 1 && Acceptance.AllPositive(g)
    ensures |g| == 1 <==> !same && eProposed < eCurrent
  {
    if !same && eProposed < eCurrent then [eCurrent - eProposed] else []
  }

  /** n zeros. */
  function Zeros(n: nat): (z: seq<int>)
    ensures |z| == n && forall k :: 0 <= k < n ==> z[k] == 0
  {
    if n == 0 then [] else Zeros(n - 1) + [0]
  }

  /** Exchanges a[i] and a[j]. */
  method Swap(a: array<int>, i: int, j: int)
    requires 0 <= i <= j < a.Length
    modifies a
    ensures a[i] == old(a[j]) && a[j] == old(a[i])
    ensures forall k :: 0 <= k < a.Length && k != i && k != j ==> a[k] == old(a[k])
    ensures multiset(a[..]) == old(multiset(a[..]))
  {
    a[i], a[j] := a[j], a[i];
  }

  /** rng.nextInt(lo, hi) at draw number s lies in [lo, hi). */
  ghost predicate DrawsInRange(pick: (nat, int, int) -> int)
  {
    forall s, lo, hi :: lo < hi ==> lo <= pick(s, lo, hi) < hi
  }

  /** Every objective value the problem domain reports is at least `lb`. */
  ghost predicate BoundedBelow(trial: (nat, int) -> int, lb: int)
  {
    forall s, h :: lb <= trial(s, h)
  }

  class FairShareILS {
    // parameter: the acceptance temperature
    const temperature: real

    // heuristic indices
    var llhsPert: array<int>
    var llhsLs: array<int>

    // search process information, replaced by every Init
    var news: array<int>
    var durations: array<int>
    var evaluations: array<real>

    // solution qualities
    var eProposed: int
    var eCurrent: int
    var eRunBest: int
    var eBest: int

    // acceptance statistics
    var muImpr: real
    var nImpr: int

    // restart statistics
    var tBest: int
    var tRunStart: int
    var maxWait: int
    var wait: int

    /** How often each option has been applied since the last Init. */
    ghost var applied: seq<int>
    /** The improvement amounts the acceptance rule has averaged since the last Init. */
    ghost var improvements: seq<int>

    /** What holds from setup on, across restarts. */
    ghost predicate Persistent()
      reads this`maxWait, this`tBest, this`llhsLs, this`llhsPert
    {
      temperature > 0.0 && maxWait >= 1 && tBest >= 0 && llhsLs != llhsPert
    }

    /** The acceptance statistics: mu_impr is the mean of the n_impr recorded (positive) improvements. */
    ghost predicate AcceptanceValid()
      reads this`nImpr, this`improvements, this`muImpr
    {
      temperature > 0.0
      && nImpr == |improvements|
      && Acceptance.AllPositive(improvements)
      && muImpr == Acceptance.Mean(improvements)
      && muImpr >= 0.0
    }

    /** The option statistics: one entry per option, successes never exceed applications, time spent
        is at least one unit per application, and each score is the initial one until the option is
        applied and its fair share afterwards. */
    ghost predicate StatsValid()
      reads this`news, this`durations, this`evaluations, this`applied, this`llhsPert, this`llhsLs, news, durations, evaluations
    {
      news.Length == durations.Length == evaluations.Length == |applied| == llhsPert.Length + 1
      && news != durations
      && news != llhsPert && news != llhsLs
      && durations != llhsPert && durations != llhsLs
      && (forall o :: 0 <= o < |applied| ==> 0 <= news[o] <= applied[o] <= durations[o])
      && (forall o :: 0 <= o < |applied| ==>
            evaluations[o] == if applied[o] == 0 then InitialScore(|applied|) else Score(news[o], durations[o]))
    }

    /** The class invariant: the three groups above, and a wait that is never negative. */
    ghost predicate Valid()
      reads this`maxWait, this`tBest, this`llhsLs, this`llhsPert, this`nImpr, this`improvements, this`muImpr, this`news, this`durations, this`evaluations, this`applied, this`wait, news, durations, evaluations
    {
      Persistent() && AcceptanceValid() && StatsValid() && wait >= 0
    }

    /** Every score on the wheel is positive. */
    lemma ScoresPositive()
      requires Valid()
      ensures evaluations.Length > 0 && Roulette.AllPositive(evaluations[..])
    {
      forall o | 0 <= o < evaluations.Length
        ensures evaluations[o] > 0.0
      {
        if applied[o] > 0 {
          assert evaluations[o] == Score(news[o], durations[o]);
        }
      }
    }

    /** The state Init leaves: a fresh run from the solution of value `eInitial`, started at `now`. */
    ghost predicate FreshRun(eInitial: int, now: int)
      reads this, news, durations, evaluations
    {
      |applied| == news.Length == durations.Length == evaluations.Length
      && (forall o :: 0 <= o < |applied| ==>
            applied[o] == 0 && news[o] == 0 && durations[o] == 0 && evaluations[o] == InitialScore(|applied|))
      && improvements == [] && nImpr == 0 && muImpr == 0.0
      && eCurrent == eInitial && eRunBest == eInitial && wait == 0 && tRunStart == now
    }

    /** The controller's part of the state. */
    function RestartState(): RestartControl.Controller
      reads this`eRunBest, this`eBest, this`tBest, this`maxWait, this`wait
    {
      RestartControl.Controller(eRunBest, eBest, tBest, maxWait, wait)
    }

    /** setup followed by the first init: the perturbation options are the mutation heuristics
        followed by the ruin-recreate heuristics; the search starts with no best value, a learned
        wait of 1 and no time-to-best. */
    constructor (temperature: real, mutLlh: array<int>, rcLlh: array<int>, lsLlh: array<int>, eInitial: int, now: int)
      requires temperature > 0.0
      ensures Valid() && FreshRun(eInitial, now)
      ensures this.temperature == temperature
      ensures fresh(llhsPert) && llhsPert[..] == mutLlh[..] + rcLlh[..]
      ensures llhsLs == lsLlh
      ensures eBest == DoubleMax && maxWait == 1 && tBest == 0
    {
      this.temperature := temperature;
      llhsLs := lsLlh;
      var pert := Concat(mutLlh, rcLlh);
      llhsPert := pert;
      eBest := DoubleMax;
      maxWait := 1;
      tBest := 0;
      // placeholders: Init below allocates the run statistics
      news := new int[0];
      durations := new int[0];
      evaluations := new real[0];
      new;
      Init(eInitial, now);
    }

    /** Starts a run: fresh option statistics, no recorded improvement, the run's best is the new
        solution's value `eInitial`, the wait is zero and the run starts at `now`. The values
        learned over the whole search are kept. */
    method Init(eInitial: int, now: int)
      requires Persistent()
      modifies this`news, this`durations, this`evaluations, this`applied, this`muImpr, this`nImpr
      modifies this`improvements, this`eCurrent, this`eRunBest, this`wait, this`tRunStart
      ensures Valid() && FreshRun(eInitial, now)
      ensures news.Length == llhsPert.Length + 1
      ensures fresh(news) && fresh(durations) && fresh(evaluations)
    {
      var n := llhsPert.Length + 1;
      news, durations, evaluations := NewStatistics(n);
      applied := Zeros(n);
      muImpr := 0.0;
      nImpr := 0;
      improvements := [];
      eCurrent := eInitial;
      eRunBest := eCurrent;
      wait := 0;
      tRunStart := now;
      FreshRunValid(eInitial, now);
    }

    /** A fresh run over fresh arrays, one entry per option, satisfies the invariant. */
    lemma FreshRunValid(eInitial: int, now: int)
      requires Persistent() && FreshRun(eInitial, now)
      requires news.Length == llhsPert.Length + 1
      requires news != durations && news != llhsPert && news != llhsLs && durations != llhsPert && durations != llhsLs
      ensures Valid()
    {
    }

    /** The statistics of a fresh run over n options: no success, no time spent, the initial score each. */
    static method NewStatistics(n: nat) returns (successes: array<int>, spent: array<int>, scores: array<real>)
      requires n >= 1
      ensures fresh(successes) && fresh(spent) && fresh(scores) && successes != spent
      ensures successes.Length == spent.Length == scores.Length == n
      ensures forall o :: 0 <= o < n ==> successes[o] == 0 && spent[o] == 0 && scores[o] == InitialScore(n)
    {
      successes := new int[n];
      spent := new int[n];
      scores := new real[n];
      for i := 0 to n
        modifies successes, spent, scores
        invariant forall o :: 0 <= o < i ==> successes[o] == 0 && spent[o] == 0 && scores[o] == InitialScore(n)
      {
        successes[i], spent[i], scores[i] := 0, 0, InitialScore(n);
      }
    }

    /** Roulette-wheel choice of an option: with `u` the uniform draw in [0, 1), the point
        `u * norm` on the wheel of scores is located by the scan `Roulette.Pick`, which
        `Roulette.PickSelects` shows to pick the least option whose inclusive prefix sum reaches it. */
    method SelectOption(u: real) returns (selected: int)
      requires evaluations.Length > 0 && Roulette.AllPositive(evaluations[..])
      requires 0.0 <= u < 1.0
      ensures 0 <= selected < evaluations.Length
      ensures u * Roulette.Sum(evaluations[..]) < Roulette.Inclusive(evaluations[..], evaluations.Length - 1)
      ensures selected == Roulette.Pick(evaluations[..], u * Roulette.Sum(evaluations[..]), 0)
    {
      ghost var s := evaluations[..];
      var norm := 0.0;
      var i := 0;
      while i < evaluations.Length
        invariant 0 <= i <= evaluations.Length
        invariant norm == Roulette.Sum(s[..i])
      {
        Roulette.SumExtend(s, i);
        norm := norm + evaluations[i];
        i := i + 1;
      }
      assert s[..|s|] == s;
      Roulette.SumPositive(s);
      var p := u * norm;
      FractionBelow(u, norm);
      assert p < Roulette.Inclusive(s, |s| - 1);
      selected := 0;
      var ac := evaluations[0];
      assert s[..1] == [s[0]];
      while ac < p
        invariant 0 <= selected < evaluations.Length
        invariant ac == Roulette.Inclusive(s, selected)
        invariant Roulette.Pick(s, p, 0) == Roulette.Pick(s, p, selected)
        decreases evaluations.Length - selected
      {
        selected := selected + 1;
        Roulette.SumExtend(s, selected);
        ac := ac + evaluations[selected];
      }
    }

    /** First-improvement local search over the local-search heuristics, shrinking an active region
        [i, n) of the buffer `llhsLs`: a draw `j` from the active region is applied; an improvement
        is adopted and makes the whole buffer active again, a failure is swapped to position i and
        leaves the active region. `pick(s, lo, hi)` is the s-th draw of rng.nextInt(lo, hi) and
        `trial(s, h)` the value the s-th application (of heuristic h) reports; draws are numbered
        from `t0` and the number after the last one is returned.

        On return the buffer is a permutation of what it was, the value never got worse, and the
        value is locally optimal: every heuristic in the buffer was applied, without improvement,
        after the value was reached at draw `reached` (by heuristic `lastOp`, or on entry). Each
        improvement costs at most n + 1 draws and lowers the value by at least one. */
    method LocalSearch(lb: int, pick: (nat, int, int) -> int, trial: (nat, int) -> int, t0: nat)
      returns (t: nat, ghost triedAt: seq<nat>, ghost reached: nat, ghost lastOp: int)
      requires DrawsInRange(pick) && BoundedBelow(trial, lb)
      requires lb <= eProposed
      modifies this`eProposed, llhsLs
      ensures multiset(llhsLs[..]) == old(multiset(llhsLs[..]))
      ensures lb <= eProposed <= old(eProposed)
      ensures t0 <= reached <= t
      ensures reached == t0 ==> eProposed == old(eProposed)
      ensures reached > t0 ==> eProposed == trial(reached - 1, lastOp) && lastOp in llhsLs[..]
      ensures |triedAt| == llhsLs.Length
      ensures forall p :: 0 <= p < llhsLs.Length ==>
                reached <= triedAt[p] < t && eProposed <= trial(triedAt[p], llhsLs[p])
      ensures t - t0 <= (old(eProposed) - eProposed) * (llhsLs.Length + 1) + llhsLs.Length
    {
      var n := llhsLs.Length;
      var i := 0;
      t := t0;
      triedAt := seq(n, _ => t0);
      reached := t0;
      lastOp := 0;
      ghost var lastAt := 0;
      ghost var bound := 0;
      while i < n
        invariant 0 <= i <= n && t0 <= reached <= t
        invariant multiset(llhsLs[..]) == old(multiset(llhsLs[..]))
        invariant lb <= eProposed <= old(eProposed)
        invariant reached == t0 ==> eProposed == old(eProposed)
        invariant reached > t0 ==> eProposed == trial(reached - 1, lastOp) && 0 <= lastAt < n && llhsLs[lastAt] == lastOp
        invariant |triedAt| == n
        invariant forall p :: 0 <= p < i ==> reached <= triedAt[p] < t && eProposed <= trial(triedAt[p], llhsLs[p])
        invariant bound == (old(eProposed) - eProposed) * (n + 1)
        invariant t - t0 <= bound + i
        decreases eProposed - lb, n - i
      {
        var j := pick(t, i, n);
        var eTemp := trial(t, llhsLs[j]);
        if eTemp < eProposed {
          GapScales(old(eProposed) - eProposed, old(eProposed) - eTemp, n + 1);
          bound := (old(eProposed) - eTemp) * (n + 1);
          eProposed := eTemp;
          reached, lastOp, lastAt := t + 1, llhsLs[j], j;
          // clear the inactive region
          i := 0;
        } else {
          // move j to the inactive region
          Swap(llhsLs, i, j);
          lastAt := if lastAt == i then j else if lastAt == j then i else lastAt;
          triedAt := triedAt[i := t];
          i := i + 1;
        }
        t := t + 1;
      }
      assert reached > t0 ==> llhsLs[..][lastAt] == lastOp;
    }

    /** Applies option `option`: perturbation heuristic llhsPert[option] of the incumbent (its value
        is `perturb(h)` for heuristic h), or, for the last option, a new random solution of value
        `reinitValue`; then refines the candidate by local search, which leaves it locally optimal
        (see LocalSearch). */
    method ApplyOption(option: int, perturb: int -> int, reinitValue: int,
                       lb: int, pick: (nat, int, int) -> int, trial: (nat, int) -> int, t0: nat)
      returns (t: nat, ghost triedAt: seq<nat>, ghost reached: nat)
      requires 0 <= option <= llhsPert.Length
      requires forall h :: lb <= perturb(h)
      requires lb <= reinitValue
      requires DrawsInRange(pick) && BoundedBelow(trial, lb)
      requires Valid()
      modifies this`eProposed, llhsLs
      ensures Valid()
      ensures lb <= eProposed <= (if option < llhsPert.Length then perturb(llhsPert[option]) else reinitValue)
      ensures multiset(llhsLs[..]) == old(multiset(llhsLs[..]))
      ensures t0 <= reached <= t
      ensures reached == t0 ==> eProposed == (if option < llhsPert.Length then perturb(llhsPert[option]) else reinitValue)
      ensures |triedAt| == llhsLs.Length
      ensures forall p :: 0 <= p < llhsLs.Length ==>
                reached <= triedAt[p] < t && eProposed <= trial(triedAt[p], llhsLs[p])
    {
      if option < llhsPert.Length {
        var h := llhsPert[option];
        assert lb <= perturb(h);
        eProposed := perturb(h);
      } else {
        eProposed := reinitValue;
      }
      ghost var lastOp;
      t, triedAt, reached, lastOp := LocalSearch(lb, pick, trial, t0);
    }

    /** The acceptance rule for the candidate: a strict improvement is recorded (count and running
        mean); the candidate passes when the uniform draw `u` lies below exp of the exponent.
        `exp` stands for Math.exp. */
    method Accept(u: real, exp: real -> real) returns (accepted: bool)
      requires AcceptanceValid()
      requires 0.0 <= u < 1.0 && ExpLike(exp)
      modifies this`nImpr, this`muImpr, this`improvements
      ensures AcceptanceValid()
      ensures improvements == old(improvements) + (if eProposed < eCurrent then [eCurrent - eProposed] else [])
      ensures nImpr == old(nImpr) + (if eProposed < eCurrent then 1 else 0)
      ensures accepted == Acceptance.Accepts(u, eCurrent, eProposed, temperature, muImpr, exp)
      ensures eProposed < eCurrent ==> muImpr > 0.0 && accepted
    {
      if eProposed < eCurrent {
        ghost var gain := eCurrent - eProposed;
        nImpr := nImpr + 1;
        Acceptance.IncrementalMean(improvements, gain);
        muImpr := muImpr + (((eCurrent - eProposed) as real) - muImpr) / (nImpr as real);
        improvements := improvements + [gain];
        Acceptance.MeanPositive(improvements);
      }
      accepted := BelowExp(u, Acceptance.Exponent(eCurrent, eProposed, temperature, muImpr), exp);
    }

    /** The bookkeeping after option `option` was applied between clock readings `before` and
        `after`: the time spent is charged to it, the candidate replaces the incumbent when it is
        not the same solution (`same` is the domain's comparison) and passes acceptance, and only
        that option's score is recomputed. The time is charged after the acceptance decision here,
        which reads none of the option statistics. */
    method RecordOutcome(option: int, before: int, after: int, same: bool, u: real, exp: real -> real)
      returns (accepted: bool)
      requires Valid()
      requires 0 <= option < news.Length
      requires before <= after
      requires 0.0 <= u < 1.0 && ExpLike(exp)
      modifies this`nImpr, this`muImpr, this`improvements, this`eCurrent, this`applied
      modifies news, durations, evaluations
      ensures Valid()
      ensures applied == old(applied)[option := old(applied[option]) + 1]
      ensures durations[option] == old(durations[option]) + (after - before + 1)
      ensures accepted == (!same && Acceptance.Accepts(u, old(eCurrent), eProposed, temperature, muImpr, exp))
      ensures !same && eProposed < old(eCurrent) ==> accepted
      ensures improvements == old(improvements) + Gain(same, old(eCurrent), eProposed)
      ensures nImpr == old(nImpr) + (if !same && eProposed < old(eCurrent) then 1 else 0)
      ensures news[option] == old(news[option]) + (if accepted then 1 else 0)
      ensures evaluations[option] == Score(news[option], durations[option])
      ensures forall o :: 0 <= o < news.Length && o != option ==>
                news[o] == old(news[o]) && durations[o] == old(durations[o]) && evaluations[o] == old(evaluations[o])
      ensures eCurrent == if accepted then eProposed else old(eCurrent)
    {
      accepted := false;
      if !same {
        accepted := Accept(u, exp);
      }
      if accepted {
        eCurrent := eProposed;
      }
      Tally(option, after - before + 1, accepted);
    }

    /** Charges `spent` time units to option `option`, counts a success when `success` and
        recomputes that option's score (SpeedNew); every other option keeps its statistics. */
    method Tally(option: int, spent: int, success: bool)
      requires StatsValid()
      requires 0 <= option < news.Length && spent >= 1
      modifies this`applied, news, durations, evaluations
      ensures StatsValid()
      ensures applied == old(applied)[option := old(applied[option]) + 1]
      ensures durations[option] == old(durations[option]) + spent
      ensures news[option] == old(news[option]) + (if success then 1 else 0)
      ensures evaluations[option] == Score(news[option], durations[option])
      ensures forall o :: 0 <= o < news.Length && o != option ==>
                news[o] == old(news[o]) && durations[o] == old(durations[o]) && evaluations[o] == old(evaluations[o])
    {
      durations[option] := durations[option] + spent;
      if success {
        news[option] := news[option] + 1;
      }
      // update evaluation (SpeedNew)
      evaluations[option] := Score(news[option], durations[option]);
      applied := applied[option := applied[option] + 1];
    }

    /** The restart check at elapsed time `now` with time limit `limit` (see RestartControl.Check). */
    method Restart(now: int, limit: int) returns (restart: bool)
      requires Valid()
      requires 0 <= tRunStart <= now && 0 <= limit
      modifies this`eRunBest, this`eBest, this`tBest, this`maxWait, this`wait
      ensures Valid()
      ensures RestartState() == RestartControl.Check(old(RestartState()), eCurrent, now - tRunStart, now, limit).next
      ensures restart == RestartControl.Check(old(RestartState()), eCurrent, now - tRunStart, now, limit).restart
    {
      restart := false;
      if eCurrent < eRunBest {
        eRunBest := eCurrent;
        maxWait := RestartControl.Max(wait, maxWait);
        wait := 0;
        if eRunBest < eBest {
          eBest := eRunBest;
          tBest := now - tRunStart;
        } else if eRunBest == eBest {
          tBest := RestartControl.Min(now - tRunStart, tBest);
        }
      } else {
        wait := wait + 1;
        if maxWait != -1 && RestartControl.OutOfPatience(wait, maxWait, limit, now) && limit - now >= tBest {
          restart := true;
        }
      }
    }

    /** Applies option `option` and records its outcome. */
    method ApplyAndRecord(option: int, perturb: int -> int, reinitValue: int,
                          lb: int, pick: (nat, int, int) -> int, trial: (nat, int) -> int, t0: nat,
                          before: int, after: int, same: bool, uAccept: real, exp: real -> real)
      returns (accepted: bool, ghost triedAt: seq<nat>, ghost reached: nat, ghost t: nat)
      requires Valid()
      requires 0 <= option < news.Length
      requires 0.0 <= uAccept < 1.0 && ExpLike(exp)
      requires forall h :: lb <= perturb(h)
      requires lb <= reinitValue
      requires DrawsInRange(pick) && BoundedBelow(trial, lb)
      requires before <= after
      modifies this`eProposed, this`nImpr, this`muImpr, this`improvements, this`eCurrent, this`applied
      modifies llhsLs, news, durations, evaluations
      ensures Valid()
      ensures multiset(llhsLs[..]) == old(multiset(llhsLs[..]))
      ensures applied == old(applied)[option := old(applied[option]) + 1]
      // the candidate: perturbed, then locally optimal for every local-search heuristic
      ensures lb <= eProposed <= (if option < llhsPert.Length then perturb(llhsPert[option]) else reinitValue)
      ensures t0 <= reached <= t && |triedAt| == llhsLs.Length
      ensures forall p :: 0 <= p < llhsLs.Length ==>
                reached <= triedAt[p] < t && eProposed <= trial(triedAt[p], llhsLs[p])
      // its acceptance
      ensures improvements == old(improvements) + Gain(same, old(eCurrent), eProposed)
      ensures nImpr == old(nImpr) + (if !same && eProposed < old(eCurrent) then 1 else 0)
      ensures accepted == (!same && Acceptance.Accepts(uAccept, old(eCurrent), eProposed, temperature, muImpr, exp))
      ensures eCurrent == if accepted then eProposed else old(eCurrent)
      // its bookkeeping
      ensures durations[option] == old(durations[option]) + (after - before + 1)
      ensures news[option] == old(news[option]) + (if accepted then 1 else 0)
      ensures evaluations[option] == Score(news[option], durations[option])
      ensures forall o :: 0 <= o < news.Length && o != option ==>
                news[o] == old(news[o]) && durations[o] == old(durations[o]) && evaluations[o] == old(evaluations[o])
    {
      var tLs;
      tLs, triedAt, reached := ApplyOption(option, perturb, reinitValue, lb, pick, trial, t0);
      t := tLs;
      accepted := RecordOutcome(option, before, after, same, uAccept, exp);
    }

    /** The body of the search loop up to the restart check: choose an option by roulette wheel
        (with draw `uSelect`), apply it and record its outcome. */
    method Step(uSelect: real, perturb: int -> int, reinitValue: int,
                lb: int, pick: (nat, int, int) -> int, trial: (nat, int) -> int, t0: nat,
                before: int, after: int, same: bool, uAccept: real, exp: real -> real)
      returns (option: int, accepted: bool, ghost triedAt: seq<nat>, ghost reached: nat, ghost t: nat)
      requires Valid()
      requires 0.0 <= uSelect < 1.0 && 0.0 <= uAccept < 1.0 && ExpLike(exp)
      requires forall h :: lb <= perturb(h)
      requires lb <= reinitValue
      requires DrawsInRange(pick) && BoundedBelow(trial, lb)
      requires before <= after
      modifies this`eProposed, this`nImpr, this`muImpr, this`improvements, this`eCurrent, this`applied
      modifies llhsLs, news, durations, evaluations
      ensures Valid()
      ensures 0 <= option < news.Length
      ensures multiset(llhsLs[..]) == old(multiset(llhsLs[..]))
      ensures applied == old(applied)[option := old(applied[option]) + 1]
      // the candidate: perturbed, then locally optimal for every local-search heuristic
      ensures lb <= eProposed <= (if option < llhsPert.Length then perturb(llhsPert[option]) else reinitValue)
      ensures t0 <= reached <= t && |triedAt| == llhsLs.Length
      ensures forall p :: 0 <= p < llhsLs.Length ==>
                reached <= triedAt[p] < t && eProposed <= trial(triedAt[p], llhsLs[p])
      // its acceptance
      ensures improvements == old(improvements) + Gain(same, old(eCurrent), eProposed)
      ensures nImpr == old(nImpr) + (if !same && eProposed < old(eCurrent) then 1 else 0)
      ensures accepted == (!same && Acceptance.Accepts(uAccept, old(eCurrent), eProposed, temperature, muImpr, exp))
      ensures eCurrent == if accepted then eProposed else old(eCurrent)
      // its bookkeeping
      ensures durations[option] == old(durations[option]) + (after - before + 1)
      ensures news[option] == old(news[option]) + (if accepted then 1 else 0)
      ensures evaluations[option] == Score(news[option], durations[option])
      ensures forall o :: 0 <= o < news.Length && o != option ==>
                news[o] == old(news[o]) && durations[o] == old(durations[o]) && evaluations[o] == old(evaluations[o])
    {
      ScoresPositive();
      option := SelectOption(uSelect);
      accepted, triedAt, reached, t := ApplyAndRecord(option, perturb, reinitValue, lb, pick, trial, t0,
                                                      before, after, same, uAccept, exp);
    }

    /** One iteration of the search loop: the step above, then the restart check and, if one is
        due, a new run from a random solution of value `eRestart`. Clock readings come in order:
        `before` the option, `after` it, `now` at the restart check, `nowRestart` at the new run's
        start. */
    method Iteration(uSelect: real, perturb: int -> int, reinitValue: int,
                     lb: int, pick: (nat, int, int) -> int, trial: (nat, int) -> int, t0: nat,
                     before: int, after: int, same: bool, uAccept: real, exp: real -> real,
                     now: int, limit: int, eRestart: int, nowRestart: int)
      returns (option: int, accepted: bool, restarted: bool,
               ghost triedAt: seq<nat>, ghost reached: nat, ghost t: nat,
               ghost muAccept: real, ghost eAccepted: int, ghost check: RestartControl.Outcome)
      requires Valid()
      requires 0.0 <= uSelect < 1.0 && 0.0 <= uAccept < 1.0 && ExpLike(exp)
      requires forall h :: lb <= perturb(h)
      requires lb <= reinitValue
      requires DrawsInRange(pick) && BoundedBelow(trial, lb)
      requires 0 <= tRunStart <= before <= after <= now <= nowRestart && 0 <= limit
      modifies this`eProposed, this`nImpr, this`muImpr, this`improvements, this`eCurrent, this`applied
      modifies this`eRunBest, this`eBest, this`tBest, this`maxWait, this`wait, this`tRunStart
      modifies this`news, this`durations, this`evaluations, llhsLs, news, durations, evaluations
      ensures Valid()
      ensures 0 <= option < old(evaluations.Length)
      ensures multiset(llhsLs[..]) == old(multiset(llhsLs[..]))
      // the candidate: perturbed, then locally optimal for every local-search heuristic
      ensures lb <= eProposed <= (if option < llhsPert.Length then perturb(llhsPert[option]) else reinitValue)
      ensures t0 <= reached <= t && |triedAt| == llhsLs.Length
      ensures forall p :: 0 <= p < llhsLs.Length ==>
                reached <= triedAt[p] < t && eProposed <= trial(triedAt[p], llhsLs[p])
      // acceptance, under the mean of the improvements including this candidate's
      ensures muAccept == Acceptance.Mean(old(improvements) + Gain(same, old(eCurrent), eProposed)) && muAccept >= 0.0
      ensures accepted == (!same && Acceptance.Accepts(uAccept, old(eCurrent), eProposed, temperature, muAccept, exp))
      ensures eAccepted == if accepted then eProposed else old(eCurrent)
      // the restart check, on the incumbent after acceptance
      ensures check == RestartControl.Check(old(RestartState()), eAccepted, now - old(tRunStart), now, limit)
      ensures restarted == check.restart
      ensures RestartState() == if restarted then check.next.(eRunBest := eRestart, wait := 0) else check.next
      ensures maxWait >= old(maxWait) && eBest <= old(eBest)
      ensures restarted ==> FreshRun(eRestart, nowRestart)
      // without a restart: the new incumbent, the recorded improvement and the option's statistics
      ensures !restarted ==> eCurrent == eAccepted
      ensures !restarted ==> improvements == old(improvements) + Gain(same, old(eCurrent), eProposed)
      ensures !restarted ==> news == old(news) && durations == old(durations) && evaluations == old(evaluations)
      ensures !restarted ==>
                durations[option] == old(durations[option]) + (after - before + 1)
                && news[option] == old(news[option]) + (if accepted then 1 else 0)
                && evaluations[option] == Score(news[option], durations[option])
      ensures !restarted ==> forall o :: 0 <= o < news.Length && o != option ==>
                news[o] == old(news[o]) && durations[o] == old(durations[o]) && evaluations[o] == old(evaluations[o])
    {
      option, accepted, triedAt, reached, t := Step(uSelect, perturb, reinitValue, lb, pick, trial, t0,
                                                    before, after, same, uAccept, exp);
      muAccept, eAccepted := muImpr, eCurrent;
      assert tRunStart == old(tRunStart);
      assert RestartState() == old(RestartState());
      restarted, check := RestartIfStuck(now, limit, eRestart, nowRestart);
    }

    /** The end of an iteration: the restart check at `now` and, if it asks for one, a new run from
        a random solution of value `eRestart` started at `nowRestart`. Without a restart the run
        goes on with the incumbent and the option statistics as they are. */
    method RestartIfStuck(now: int, limit: int, eRestart: int, nowRestart: int)
      returns (restarted: bool, ghost check: RestartControl.Outcome)
      requires Valid()
      requires 0 <= tRunStart <= now <= nowRestart && 0 <= limit
      modifies this`eRunBest, this`eBest, this`tBest, this`maxWait, this`wait
      modifies this`news, this`durations, this`evaluations, this`applied, this`muImpr, this`nImpr
      modifies this`improvements, this`eCurrent, this`tRunStart
      ensures Valid()
      ensures maxWait >= old(maxWait) && eBest <= old(eBest)
      ensures check == RestartControl.Check(old(RestartState()), old(eCurrent), now - old(tRunStart), now, limit)
      ensures restarted == check.restart
      ensures RestartState() == if restarted then check.next.(eRunBest := eRestart, wait := 0) else check.next
      ensures restarted ==> FreshRun(eRestart, nowRestart)
      ensures !restarted ==> tRunStart == old(tRunStart) && news == old(news) && durations == old(durations) && evaluations == old(evaluations)
      ensures !restarted ==> applied == old(applied) && eCurrent == old(eCurrent)
      ensures !restarted ==> improvements == old(improvements) && muImpr == old(muImpr) && nImpr == old(nImpr)
    {
      check := RestartControl.Check(RestartState(), eCurrent, now - tRunStart, now, limit);
      restarted := Restart(now, limit);
      if restarted {
        // re-initialize search
        Init(eRestart, nowRestart);
      }
    }
  }
}
