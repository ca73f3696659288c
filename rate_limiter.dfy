/** `RateLimiter`: keeps a minimum spacing between recorded request start times. */
module RateLimit {

  /** The sleep `wait_if_needed` takes when called at `now` after a request recorded at
      `last`: the rest of the interval when less than `minInterval` has elapsed, else none. */
  function Wait(minInterval: int, last: int, now: int): (w: nat)
    ensures now - last < minInterval ==> w == minInterval - (now - last) && w > 0
    ensures now - last >= minInterval ==> w == 0
    ensures now + w - last >= minInterval
  {
    if now - last < minInterval then minInterval - (now - last) else 0
  }

  /** The start time recorded by a call at `now`: the clock read after the sleep, which is
      `drift` later than `now + Wait(..)` (a sleep never ends early, and the clock is monotone). */
  function NextStart(minInterval: int, last: int, now: int, drift: nat): (t: int)
    ensures t - last >= minInterval
    ensures t >= now
  {
    now + Wait(minInterval, last, now) + drift
  }

  /** One call of `wait_if_needed`: the clock read on entry and the extra time the sleep
      and the second clock read took. */
  datatype Request = Request(now: int, drift: nat)

  /** The start times recorded by a sequence of calls, from a limiter whose last start is `last`. */
  function Starts(minInterval: int, last: int, reqs: seq<Request>): (ts: seq<int>)
    ensures |ts| == |reqs|
    decreases |reqs|
  {
    if reqs == [] then []
    else
      var t := NextStart(minInterval, last, reqs[0].now, reqs[0].drift);
      [t] + Starts(minInterval, t, reqs[1..])
  }

  /** For any sequence of calls, consecutive recorded start times are at least
      `minInterval` apart, and the first is that far from the previous one. */
  lemma {:induction false} StartsSpaced(minInterval: int, last: int, reqs: seq<Request>, i: nat)
    requires i + 1 < |reqs|
    ensures Starts(minInterval, last, reqs)[i + 1] - Starts(minInterval, last, reqs)[i] >= minInterval
    ensures Starts(minInterval, last, reqs)[0] - last >= minInterval
    decreases i
  {
    var t := NextStart(minInterval, last, reqs[0].now, reqs[0].drift);
    if i > 0 {
      StartsSpaced(minInterval, t, reqs[1..], i - 1);
    } else {
      assert Starts(minInterval, t, reqs[1..])[0] == NextStart(minInterval, t, reqs[1].now, reqs[1].drift);
    }
  }

  /** The first recorded start of any non-empty sequence of calls is at least `minInterval`
      after the last start before it. */
  lemma FirstStartSpaced(minInterval: int, last: int, reqs: seq<Request>)
    requires |reqs| >= 1
    ensures Starts(minInterval, last, reqs)[0] - last >= minInterval
  {
  }

  class RateLimiter {
    const minInterval: int
    var lastRequestTime: int

    /** `min_interval` defaults to 100 ms; no request has been recorded yet (time 0). */
    constructor (minInterval: int := 100)
      ensures this.minInterval == minInterval && lastRequestTime == 0
    {
      this.minInterval := minInterval;
      lastRequestTime := 0;
    }

    /** `wait_if_needed` at clock reading `now`; `slept` is the sleep it takes. */
    method WaitIfNeeded(now: int, drift: nat) returns (slept: nat)
      modifies this
      ensures slept == Wait(minInterval, old(lastRequestTime), now)
      ensures lastRequestTime == now + slept + drift
      ensures lastRequestTime - old(lastRequestTime) >= minInterval
    {
      var sinceLast := now - lastRequestTime;
      slept := 0;
      if sinceLast < minInterval {
        slept := minInterval - sinceLast;
      }
      lastRequestTime := now + slept + drift;
    }
  }
}
