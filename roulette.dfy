/** Roulette-wheel (fitness-proportionate) choice over a sequence of positive scores. */
module Roulette {

  /** The scores added up from left to right, as the selector's accumulation loop adds them. */
  function Sum(s: seq<real>): real
  {
    if s == [] then 0.0 else Sum(s[..|s| - 1]) + s[|s| - 1]
  }

  predicate AllPositive(s: seq<real>)
  {
    forall k :: 0 <= k < |s| ==> s[k] > 0.0
  }

  /** The inclusive prefix sum up to index `j`. */
  function Inclusive(s: seq<real>, j: int): real
    requires 0 <= j < |s|
  {
    Sum(s[..j + 1])
  }

  /** `k` is the pick for the point `p` on the wheel: the least index whose inclusive prefix sum reaches `p`. */
  predicate Selects(s: seq<real>, p: real, k: int)
  {
    0 <= k < |s|
    && p <= Inclusive(s, k)
    && forall j :: 0 <= j < k ==> Inclusive(s, j) < p
  }

  /** The selector's scan: from index `from` on, the first index whose inclusive prefix sum reaches
      the point `p`. The point lies on the wheel, so the scan stops by the last index. */
  function Pick(s: seq<real>, p: real, from: int): (k: int)
    requires 0 <= from < |s| && p <= Inclusive(s, |s| - 1)
    ensures from <= k < |s|
    decreases |s| - from
  {
    if p <= Inclusive(s, from) then from else Pick(s, p, from + 1)
  }

  /** The scan from the start picks the least index whose inclusive prefix sum reaches the point. */
  lemma {:induction false} PickSelects(s: seq<real>, p: real, from: int)
    requires 0 <= from < |s| && p <= Inclusive(s, |s| - 1)
    requires forall j :: 0 <= j < from ==> Inclusive(s, j) < p
    ensures Selects(s, p, Pick(s, p, from))
    decreases |s| - from
  {
    if Inclusive(s, from) < p {
      PickSelects(s, p, from + 1);
    }
  }

  /** Extending a prefix by one score adds that score. */
  lemma SumExtend(s: seq<real>, k: int)
    requires 0 <= k < |s|
    ensures Sum(s[..k + 1]) == Sum(s[..k]) + s[k]
  {
    assert s[..k + 1][..k] == s[..k];
  }

  /** With positive scores the prefix sums strictly increase, so the wheel's slices do not overlap. */
  lemma {:induction false} PrefixSumsIncrease(s: seq<real>, a: int, b: int)
    requires AllPositive(s)
    requires 0 <= a < b <= |s|
    ensures Sum(s[..a]) < Sum(s[..b])
    decreases b - a
  {
    SumExtend(s, b - 1);
    if a < b - 1 {
      PrefixSumsIncrease(s, a, b - 1);
    }
  }

  /** The whole wheel has positive size. */
  lemma SumPositive(s: seq<real>)
    requires AllPositive(s) && |s| > 0
    ensures Sum(s) > 0.0
  {
    PrefixSumsIncrease(s, 0, |s|);
    assert s[..|s|] == s;
  }

  /** Index `k` owns exactly the slice of the wheel that starts after the scores before it and is
      `s[k]` wide, so a point drawn uniformly from [0, Sum(s)) picks `k` with probability s[k] / Sum(s). */
  lemma SelectsSlice(s: seq<real>, p: real, k: int)
    requires AllPositive(s)
    requires 0 <= k < |s|
    ensures Selects(s, p, k) <==> (k == 0 || Sum(s[..k]) < p) && p <= Sum(s[..k]) + s[k]
  {
    SumExtend(s, k);
    if k > 0 && Selects(s, p, k) {
      assert Inclusive(s, k - 1) < p;
    }
    if (k == 0 || Sum(s[..k]) < p) && p <= Sum(s[..k]) + s[k] {
      forall j | 0 <= j < k
        ensures Inclusive(s, j) < p
      {
        if j + 1 < k {
          PrefixSumsIncrease(s, j + 1, k);
        }
      }
    }
  }

  /** The slices do not overlap: one point picks one index. */
  lemma SelectsUnique(s: seq<real>, p: real, k1: int, k2: int)
    requires Selects(s, p, k1) && Selects(s, p, k2)
    ensures k1 == k2
  {
  }
}
