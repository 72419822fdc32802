/** The self-tuning probabilistic acceptance rule: a candidate is accepted with probability
    exp((e_current - e_proposed) / (T * mu)), where mu is the running mean of the improvements seen so far. */
module Acceptance {
  import opened DoubleArith

  /** The recorded improvement amounts added up from left to right. */
  function Total(s: seq<int>): int
  {
    if s == [] then 0 else Total(s[..|s| - 1]) + s[|s| - 1]
  }

  /** The arithmetic mean of the recorded improvements; zero while none is recorded. */
  function Mean(s: seq<int>): real
  {
    if s == [] then 0.0 else (Total(s) as real) / (|s| as real)
  }

  predicate AllPositive(s: seq<int>)
  {
    forall k :: 0 <= k < |s| ==> s[k] > 0
  }

  lemma {:induction false} TotalPositive(s: seq<int>)
    requires AllPositive(s) && s != []
    ensures Total(s) >= |s|
  {
    if |s| > 1 {
      TotalPositive(s[..|s| - 1]);
    }
  }

  /** The mean of strictly positive improvements is positive, so after the first improvement the
      exponent's divisor is no longer zero. */
  lemma MeanPositive(s: seq<int>)
    requires AllPositive(s) && s != []
    ensures Mean(s) > 0.0
  {
    TotalPositive(s);
  }

  /** The source's incremental update `mu += (x - mu) / n`, with n the new count, keeps mu equal to
      the arithmetic mean of all recorded improvements. */
  lemma IncrementalMean(s: seq<int>, x: int)
    ensures Mean(s + [x]) == Mean(s) + ((x as real) - Mean(s)) / ((|s| + 1) as real)
  {
    assert (s + [x])[..|s|] == s;
    var n := |s| as real;
    var m := Mean(s);
    assert Total(s + [x]) == Total(s) + x;
    assert m * n == Total(s) as real;
    calc {
      m + ((x as real) - m) / (n + 1.0);
      (m * (n + 1.0) + ((x as real) - m)) / (n + 1.0);
      (m * n + x as real) / (n + 1.0);
      Mean(s + [x]);
    }
  }

  /** The exponent (e_current - e_proposed) / (T * mu) of the acceptance probability. */
  function Exponent(eCurrent: int, eProposed: int, temperature: real, mu: real): Quotient
  {
    Divide((eCurrent - eProposed) as real, temperature * mu)
  }

  /** The acceptance decision for the uniform draw `u`: `u < exp(exponent)`. */
  function Accepts(u: real, eCurrent: int, eProposed: int, temperature: real, mu: real, exp: real -> real): (r: bool)
    requires 0.0 <= u < 1.0 && ExpLike(exp)
    requires temperature > 0.0 && mu >= 0.0
    ensures eProposed < eCurrent && mu > 0.0 ==> r
    ensures eProposed == eCurrent ==> (r <==> mu > 0.0)
    ensures eProposed > eCurrent ==> (r <==> mu > 0.0 && u < exp((eCurrent - eProposed) as real / (temperature * mu)))
    ensures mu == 0.0 ==> (r <==> eProposed < eCurrent)
  {
    BelowExp(u, Exponent(eCurrent, eProposed, temperature, mu), exp)
  }

  /** A worse candidate is never more likely to pass than a better one. */
  lemma BetterCandidateAccepted(u: real, eCurrent: int, better: int, worse: int, temperature: real, mu: real, exp: real -> real)
    requires 0.0 <= u < 1.0 && ExpLike(exp) && ExpIncreasing(exp)
    requires temperature > 0.0 && mu >= 0.0
    requires better <= worse
    requires Accepts(u, eCurrent, worse, temperature, mu, exp)
    ensures Accepts(u, eCurrent, better, temperature, mu, exp)
  {
    if better > eCurrent {
      var d := temperature * mu;
      assert d > 0.0;
      var a, b := (eCurrent - worse) as real, (eCurrent - better) as real;
      assert b / d - a / d == (b - a) / d;
      assert a / d <= b / d;
    }
  }

  /** The larger the typical improvement, the more tolerant the rule is of a given setback. */
  lemma LargerMeanMoreTolerant(u: real, eCurrent: int, eProposed: int, temperature: real, mu1: real, mu2: real, exp: real -> real)
    requires 0.0 <= u < 1.0 && ExpLike(exp) && ExpIncreasing(exp)
    requires temperature > 0.0 && 0.0 <= mu1 <= mu2
    requires Accepts(u, eCurrent, eProposed, temperature, mu1, exp)
    ensures Accepts(u, eCurrent, eProposed, temperature, mu2, exp)
  {
    if eProposed > eCurrent {
      var diff := (eCurrent - eProposed) as real;
      var d1, d2 := temperature * mu1, temperature * mu2;
      assert 0.0 < d1 <= d2;
      assert diff / d1 <= diff / d2;
    }
  }
}
