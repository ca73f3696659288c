/** `CircuitBreaker`: a three-state machine that stops calling a failing operation. */
module Breaker {
  import opened Outcomes

  datatype State = Closed | Open | HalfOpen

  /** The breaker's immutable configuration; times are in milliseconds. */
  datatype Config = Config(failureThreshold: int, recoveryTimeout: int)

  /** The breaker's mutable fields, as one value. `lastFailureTime == None` is Python's `None`. */
  datatype View = View(state: State, failureCount: nat, lastFailureTime: Option<int>)

  /** The fields as the constructor leaves them. */
  const Fresh := View(Closed, 0, None)

  /** What holds between two calls, whatever the threshold: the breaker is never left
      half-open, an open breaker has a failure time and at least `threshold` failures,
      and (for a positive threshold) a closed one has fewer. */
  predicate AtRest(c: Config, v: View) {
    v.state != HalfOpen &&
    (v.state == Open ==> v.lastFailureTime.Some? && v.failureCount >= c.failureThreshold) &&
    (v.state == Closed && c.failureThreshold >= 1 ==> v.failureCount < c.failureThreshold)
  }

  /** What holds once a call has passed the OPEN check and the operation is about to run. */
  predicate Admitted(c: Config, v: View) {
    (v.state == Closed && AtRest(c, v)) ||
    (v.state == HalfOpen && v.lastFailureTime.Some? && v.failureCount >= c.failureThreshold)
  }

  /** The OPEN check rejects the call: the recovery timeout has not yet strictly elapsed. */
  predicate Rejects(c: Config, v: View, now: int)
    requires v.state == Open ==> v.lastFailureTime.Some?
  {
    v.state == Open && now - v.lastFailureTime.value <= c.recoveryTimeout
  }

  /** The OPEN check when it lets the call through: an open breaker becomes half-open. */
  function Admit(c: Config, v: View, now: int): (w: View)
    requires AtRest(c, v) && !Rejects(c, v, now)
    ensures Admitted(c, w)
    ensures w.failureCount == v.failureCount && w.lastFailureTime == v.lastFailureTime
    ensures w.state == if v.state == Open then HalfOpen else Closed
  {
    if v.state == Open then v.(state := HalfOpen) else v
  }

  /** The bookkeeping after the operation ran: a success closes a half-open breaker and
      resets the count, and leaves a closed one alone; a failure counts, records its time
      and opens the breaker once the count reaches the threshold. */
  function Settle(c: Config, v: View, succeeded: bool, failTime: int): (w: View)
    requires Admitted(c, v)
    ensures AtRest(c, w)
    ensures succeeded && v.state == HalfOpen ==> w.state == Closed && w.failureCount == 0
    ensures succeeded ==> w.lastFailureTime == v.lastFailureTime
    ensures succeeded && v.state == Closed ==> w == v
    ensures !succeeded ==> w.failureCount == v.failureCount + 1
    ensures !succeeded ==> w.lastFailureTime == Some(failTime)
    ensures !succeeded ==> (w.state == Open <==> w.failureCount >= c.failureThreshold)
  {
    if succeeded then
      if v.state == HalfOpen then v.(state := Closed, failureCount := 0) else v
    else
      var n := v.failureCount + 1;
      View(if n >= c.failureThreshold then Open else v.state, n, Some(failTime))
  }

  /** One whole `call`: rejected and nothing changes, or admitted and settled. */
  function Step(c: Config, v: View, now: int, succeeded: bool, failTime: int): (w: View)
    requires AtRest(c, v)
    ensures AtRest(c, w)
    ensures Rejects(c, v, now) ==> w == v
    ensures !Rejects(c, v, now) && succeeded ==>
      w.state == Closed && w.failureCount == (if v.state == Open then 0 else v.failureCount) &&
      w.lastFailureTime == v.lastFailureTime
    ensures !Rejects(c, v, now) && !succeeded ==>
      w.failureCount == v.failureCount + 1 && w.lastFailureTime == Some(failTime) &&
      (w.state == Open <==> w.failureCount >= c.failureThreshold)
  {
    if Rejects(c, v, now) then v else Settle(c, Admit(c, v, now), succeeded, failTime)
  }

  /** With a positive threshold, a breaker at rest is closed exactly when its count is below the threshold. */
  lemma ClosedIffBelowThreshold(c: Config, v: View)
    requires c.failureThreshold >= 1 && AtRest(c, v)
    ensures v.state == Closed <==> v.failureCount < c.failureThreshold
    ensures v.state == Open ==> v.lastFailureTime.Some?
  {
  }

  /** One call of `call`, as seen from outside: the time it is made, whether the operation
      would succeed, and the clock reading taken if it fails. */
  datatype Event = Event(now: int, succeeded: bool, failTime: int)

  /** The breaker after a sequence of calls. */
  function Run(c: Config, v: View, events: seq<Event>): (w: View)
    requires AtRest(c, v)
    ensures AtRest(c, w)
    decreases |events|
  {
    if events == [] then v
    else Run(c, Step(c, v, events[0].now, events[0].succeeded, events[0].failTime), events[1..])
  }

  function Failures(events: seq<Event>): nat {
    if events == [] then 0 else (if events[0].succeeded then 0 else 1) + Failures(events[1..])
  }

  /** A success while closed does not reset the count: in the closed state, failures
      accumulate across intervening successes until the threshold is reached. */
  lemma {:induction false} ClosedCountsEveryFailure(c: Config, v: View, events: seq<Event>)
    requires AtRest(c, v) && v.state == Closed
    requires v.failureCount + Failures(events) < c.failureThreshold
    ensures Run(c, v, events).state == Closed
    ensures Run(c, v, events).failureCount == v.failureCount + Failures(events)
    decreases |events|
  {
    if events != [] {
      var e := events[0];
      var w := Step(c, v, e.now, e.succeeded, e.failTime);
      assert w.state == Closed && w.failureCount == v.failureCount + (if e.succeeded then 0 else 1);
      ClosedCountsEveryFailure(c, w, events[1..]);
    }
  }

  /** From a closed breaker, as many consecutive failures as the threshold still allows
      open it, with the count at the threshold and the last failure's time recorded. */
  lemma {:induction false} FailuresOpenBreaker(c: Config, v: View, events: seq<Event>)
    requires c.failureThreshold >= 1 && AtRest(c, v) && v.state == Closed
    requires |events| == c.failureThreshold - v.failureCount
    requires forall i :: 0 <= i < |events| ==> !events[i].succeeded
    ensures Run(c, v, events).state == Open
    ensures Run(c, v, events).failureCount == c.failureThreshold
    ensures Run(c, v, events).lastFailureTime == Some(events[|events| - 1].failTime)
    decreases |events|
  {
    var e := events[0];
    var w := Step(c, v, e.now, false, e.failTime);
    if |events| == 1 {
      assert Run(c, w, events[1..]) == w;
    } else {
      assert w.state == Closed;
      FailuresOpenBreaker(c, w, events[1..]);
    }
  }

  /** A fresh breaker fed `failureThreshold` failures rejects the next call made within
      the recovery timeout of the last failure, without running the operation. */
  lemma ThresholdFailuresThenRejected(c: Config, events: seq<Event>, now: int)
    requires c.failureThreshold >= 1 && |events| == c.failureThreshold
    requires forall i :: 0 <= i < |events| ==> !events[i].succeeded
    requires now - events[|events| - 1].failTime <= c.recoveryTimeout
    ensures Rejects(c, Run(c, Fresh, events), now)
    ensures Step(c, Run(c, Fresh, events), now, true, now) == Run(c, Fresh, events)
  {
    FailuresOpenBreaker(c, Fresh, events);
  }

  /** The breaker object: `call` updates `state`, `failure_count` and `last_failure_time`
      in place. */
  class CircuitBreaker {
    const config: Config
    var state: State
    var failureCount: nat
    var lastFailureTime: Option<int>

    function Current(): View
      reads this
    {
      View(state, failureCount, lastFailureTime)
    }

    ghost predicate Valid()
      reads this
    {
      AtRest(config, Current())
    }

    /** The defaults are five failures and sixty seconds. */
    constructor (failureThreshold: int := 5, recoveryTimeout: int := 60000)
      ensures Valid()
      ensures config == Config(failureThreshold, recoveryTimeout) && Current() == Fresh
    {
      config := Config(failureThreshold, recoveryTimeout);
      failureCount := 0;
      lastFailureTime := None;
      state := Closed;
    }

    /** The OPEN check of `call`: past the recovery timeout an open breaker turns half-open
        and admits the call; before it the call is refused and nothing changes. */
    method Gate(now: int) returns (admitted: bool)
      requires Valid()
      modifies this
      ensures admitted == !Rejects(config, old(Current()), now)
      ensures admitted ==> Current() == Admit(config, old(Current()), now) && Admitted(config, Current())
      ensures !admitted ==> Current() == old(Current())
    {
      admitted := true;
      if state == Open {
        if now - lastFailureTime.value > config.recoveryTimeout {
          state := HalfOpen;
        } else {
          admitted := false;
        }
      }
    }

    /** The bookkeeping of `call` after the operation ran. */
    method Record(succeeded: bool, failTime: int)
      requires Admitted(config, Current())
      modifies this
      ensures Valid()
      ensures Current() == Settle(config, old(Current()), succeeded, failTime)
    {
      if succeeded {
        if state == HalfOpen {
          state := Closed;
          failureCount := 0;
        }
      } else {
        failureCount := failureCount + 1;
        lastFailureTime := Some(failTime);
        if failureCount >= config.failureThreshold {
          state := Open;
        }
      }
    }

    /** `call`: `outcome` is what the wrapped operation produces if it runs, `now` the clock
        at the OPEN check and `failTime` the clock read after a failure. `invoked` tells
        whether the operation ran; a refused call raises `BreakerOpenError`, an admitted
        one returns or re-raises the operation's own outcome. */
    method Call<T>(outcome: Result<T>, now: int, failTime: int) returns (r: Result<T>, invoked: bool)
      requires Valid()
      modifies this
      ensures Valid()
      ensures invoked == !Rejects(config, old(Current()), now)
      ensures !invoked ==> r == Err(BreakerOpenError) && Current() == old(Current())
      ensures invoked ==> r == outcome
      ensures Current() == Step(config, old(Current()), now, outcome.Ok?, failTime)
    {
      invoked := Gate(now);
      if !invoked {
        return Err(BreakerOpenError), false;
      }
      r := outcome;
      Record(outcome.Ok?, failTime);
    }
  }
}
