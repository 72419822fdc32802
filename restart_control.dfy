/** The restart controller: it tracks stagnation of the current run and decides when to start a
    fresh run, with a patience that is learned from earlier runs and shrinks as the budget is used. */
module RestartControl {
  import opened DoubleArith

  /** What the controller remembers: the run's best value, the best value of the whole search and
      the run-relative time at which it was reached, the longest wait seen before an improvement,
      and the iterations since the run's last improvement. */
  datatype Controller = Controller(eRunBest: int, eBest: int, tBest: int, maxWait: int, wait: int)

  /** The controller after one check, and whether that check asks for a restart. */
  datatype Outcome = Outcome(next: Controller, restart: bool)

  function Max(a: int, b: int): int { if a < b then b else a }

  function Min(a: int, b: int): int { if a < b then a else b }

  /** `wait > max_wait * (limit / now)` evaluated as the source evaluates it in doubles: at
      `now == 0` the time factor is +infinity (or not-a-number when the limit is 0 too) and the
      comparison is false. Otherwise it is the integer comparison `wait * now > max_wait * limit`. */
  function OutOfPatience(wait: int, maxWait: int, limit: int, now: int): (r: bool)
    requires maxWait >= 1 && limit >= 0 && now >= 0
    ensures r <==> now > 0 && wait * now > maxWait * limit
  {
    PatienceAsProducts(wait, maxWait, limit, now);
    Exceeds(wait as real, Scale(maxWait as real, Divide(limit as real, now as real)))
  }

  /** For a positive elapsed time, comparing with max_wait * (limit / now) is comparing the
      products with now. */
  lemma PatienceAsProducts(wait: int, maxWait: int, limit: int, now: int)
    requires now >= 0
    ensures now > 0 ==>
              ((wait as real) > (maxWait as real) * ((limit as real) / (now as real)) <==> wait * now > maxWait * limit)
  {
    if now > 0 {
      var f := (limit as real) / (now as real);
      assert f * (now as real) == limit as real;
      assert (wait as real) > (maxWait as real) * f <==> (wait as real) * (now as real) > (maxWait as real) * f * (now as real);
    }
  }

  /** One check of the controller against the incumbent value `eCurrent`, at elapsed time `now`,
      `sinceRunStart` after the run began, with total budget `limit`. */
  function Check(c: Controller, eCurrent: int, sinceRunStart: int, now: int, limit: int): (r: Outcome)
    requires c.maxWait >= 1 && limit >= 0 && now >= 0
    ensures r.next.maxWait >= c.maxWait
    ensures r.next.eRunBest == Min(c.eRunBest, eCurrent)
    ensures r.next.eBest <= c.eBest
    // an improvement of the run resets the wait, having learned it into max_wait
    ensures eCurrent < c.eRunBest ==> r.next.wait == 0 && r.next.maxWait == Max(c.wait, c.maxWait) && !r.restart
    // stagnation counts one more iteration and leaves the learned and global values alone
    ensures eCurrent >= c.eRunBest ==>
              r.next == c.(wait := c.wait + 1)
    // a new global best records when in its run it was reached; a tie keeps the earlier time
    ensures eCurrent < c.eRunBest && eCurrent < c.eBest ==> r.next.eBest == eCurrent && r.next.tBest == sinceRunStart
    ensures eCurrent < c.eRunBest && eCurrent == c.eBest ==> r.next.tBest == Min(c.tBest, sinceRunStart)
    ensures eCurrent < c.eRunBest && eCurrent > c.eBest ==> r.next.eBest == c.eBest && r.next.tBest == c.tBest
    // a restart happens exactly when the run stagnates longer than the patience allows and enough
    // of the budget remains to reach the best value again
    ensures r.restart <==> eCurrent >= c.eRunBest && now > 0 && (c.wait + 1) * now > c.maxWait * limit
                           && limit - now >= c.tBest
  {
    if eCurrent < c.eRunBest then
      var eRunBest := eCurrent;
      var maxWait := Max(c.wait, c.maxWait);
      var best :=
        if eRunBest < c.eBest then (eRunBest, sinceRunStart)
        else if eRunBest == c.eBest then (c.eBest, Min(sinceRunStart, c.tBest))
        else (c.eBest, c.tBest);
      Outcome(Controller(eRunBest, best.0, best.1, maxWait, 0), false)
    else
      var wait := c.wait + 1;
      var fire := c.maxWait != -1 && OutOfPatience(wait, c.maxWait, limit, now) && limit - now >= c.tBest;
      Outcome(c.(wait := wait), fire)
  }

  /** Patience shrinks as the budget is used: a wait that exhausts it at one moment exhausts it at
      every later moment. */
  lemma PatienceShrinks(wait: int, maxWait: int, limit: int, now1: int, now2: int)
    requires maxWait >= 1 && limit >= 0 && 0 <= now1 <= now2
    requires OutOfPatience(wait, maxWait, limit, now1)
    ensures OutOfPatience(wait, maxWait, limit, now2)
  {
    assert wait > 0;
    assert wait * now1 <= wait * now2;
  }

  /** With the time and budget fixed, the first restart fires at the first wait that exceeds the
      patience: every smaller wait keeps the run going. */
  lemma PatienceThreshold(wait1: int, wait2: int, maxWait: int, limit: int, now: int)
    requires maxWait >= 1 && limit >= 0 && now >= 0
    requires wait1 <= wait2
    requires OutOfPatience(wait1, maxWait, limit, now)
    ensures OutOfPatience(wait2, maxWait, limit, now)
  {
    assert wait1 * now <= wait2 * now;
  }
}
