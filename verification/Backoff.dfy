/** The retry schedule (crates/queue/src/backoff.rs). */
module Backoff {

  const MAX_LIFETIME_SECS: int := 5 * 24 * 3600
  const DELAYED_DSN_THRESHOLD_SECS: int := 30 * 60
  const SCHEDULE_MINUTES: seq<int> := [5, 15, 30, 60, 120, 240]
  const CAP_MINUTES: int := 480

  predicate JitterInRange(jitter: real) { -0.15 <= jitter <= 0.15 }

  function BaseSecs(attempts: int): int {
    60 * if 1 <= attempts <= |SCHEDULE_MINUTES| then SCHEDULE_MINUTES[attempts - 1] else CAP_MINUTES
  }

  /** Seconds until the next try after `attempts` failures. The random draw is a
      parameter; the product is positive, so the cast truncates downwards. */
  function NextDelaySecs(attempts: int, jitter: real): (delay: int)
    requires JitterInRange(jitter)
    ensures ShortestDelay(attempts) <= delay <= BaseSecs(attempts) * 115 / 100
  {
    (BaseSecs(attempts) as real * (1.0 + jitter)).Floor
  }

  function ShortestDelay(attempts: int): (d: int)
    ensures d >= 255
  {
    BaseSecs(attempts) * 85 / 100
  }

  /** The wait after the n-th failure is 5, 15 or 30 minutes, then 1, 2 or 4 hours, then 8
      hours, stretched or shortened by the draw and cut to whole seconds. */
  lemma {:induction false} DelayExactly(n: int, jitter: real)
    requires JitterInRange(jitter)
    ensures var minutes :=
        if n == 1 then 5.0 else if n == 2 then 15.0 else if n == 3 then 30.0 else if n == 4 then 60.0
        else if n == 5 then 120.0 else if n == 6 then 240.0 else 480.0;
      var exact := 60.0 * minutes + 60.0 * minutes * jitter;
      NextDelaySecs(n, jitter) as real <= exact < (NextDelaySecs(n, jitter) + 1) as real
    ensures 0.85 * BaseSecs(n) as real <= NextDelaySecs(n, jitter) as real + 1.0
  {
  }

  /** Least time between a message's creation and the moment its n-th retry
      falls due. */
  function ShortestWait(n: nat): (w: int)
    ensures w >= 0
  {
    if n == 0 then 0 else ShortestWait(n - 1) + ShortestDelay(n)
  }

  lemma {:induction false} ShortestWaitClosedForm(n: nat)
    requires n >= 6
    ensures ShortestWait(n) == 23970 + 24480 * (n - 6)
  {
    if n == 6 {
      assert ShortestWait(2) == 255 + 765;
      assert ShortestWait(4) == 255 + 765 + 1530 + 3060;
    } else {
      ShortestWaitClosedForm(n - 1);
    }
  }

  /** A retry can fall due inside the five-day lifetime only if it is one of
      the first 22. */
  lemma {:induction false} OnlyTwentyTwoRetriesFit(n: nat)
    ensures ShortestWait(n) < MAX_LIFETIME_SECS <==> n <= 22
  {
    if n >= 6 {
      ShortestWaitClosedForm(n);
    } else {
      ShortestWaitMonotone(n, 6);
      ShortestWaitClosedForm(6);
    }
  }

  lemma {:induction false} ShortestWaitMonotone(m: nat, n: nat)
    requires m <= n
    ensures ShortestWait(m) <= ShortestWait(n)
  {
    if m == n {
    } else {
      ShortestWaitMonotone(m, n - 1);
    }
  }
}
