/** The breaker wrapped around the retry handler, as the cross-region inference pattern
    composes them: `circuit_breaker.call(retry_handler.retry_with_backoff, invoke)`. */
module Composition {
  import opened Outcomes
  import opened Retry
  import opened Breaker

  /** One guarded request. The breaker's OPEN check comes first; only an admitted call runs
      the whole retry sequence, and the breaker then settles once on its final outcome.
      `now` is the clock at the OPEN check and `failTime` the clock read if the sequence fails. */
  method CallWithRetry<T>(cb: CircuitBreaker, h: RetryHandler, op: nat -> Result<T>, now: int, failTime: int)
    returns (r: Result<T>, attempts: nat, waits: seq<nat>)
    requires cb.Valid()
    modifies cb
    ensures cb.Valid()
    ensures Rejects(cb.config, old(cb.Current()), now) ==>
      r == Err(BreakerOpenError) && attempts == 0 && waits == [] && cb.Current() == old(cb.Current())
    ensures !Rejects(cb.config, old(cb.Current()), now) && h.maxRetries >= 0 ==>
      1 <= attempts <= h.maxRetries + 1 && r == op(attempts - 1) &&
      (forall k :: 0 <= k < attempts - 1 ==> op(k).Err?) &&
      waits == Schedule(h.backoff, attempts - 1) &&
      (r.Err? ==> attempts == h.maxRetries + 1)
    ensures !Rejects(cb.config, old(cb.Current()), now) && h.maxRetries < 0 ==>
      r == Err(NoExceptionToRaise) && attempts == 0
    ensures cb.Current() == Step(cb.config, old(cb.Current()), now, r.Ok?, failTime)
    ensures !Rejects(cb.config, old(cb.Current()), now) && r.Err? ==>
      cb.failureCount == old(cb.failureCount) + 1
  {
    var admitted := cb.Gate(now);
    if !admitted {
      return Err(BreakerOpenError), 0, [];
    }
    r, attempts, waits := RetryWithBackoff(h, op);
    cb.Record(r.Ok?, failTime);
  }

  /** With two retries and a threshold of three, against an operation that always fails,
      three guarded requests run nine attempts and leave the breaker open: each exhausted
      retry sequence counts as one breaker failure, not three. A fourth request within the
      recovery timeout is refused without running the operation. */
  method ExhaustedSequencesOpenBreaker(op: nat -> Result<int>) returns (state: State, count: nat, total: nat, fourth: Result<int>)
    requires forall k :: op(k).Err?
    ensures state == Open && count == 3 && total == 9
    ensures fourth == Err(BreakerOpenError)
  {
    var cb := new CircuitBreaker(3, 60000);
    var h := RetryHandler(2, 1000);
    var r, n, ws := CallWithRetry(cb, h, op, 0, 7000);
    total := n;
    r, n, ws := CallWithRetry(cb, h, op, 8000, 15000);
    total := total + n;
    r, n, ws := CallWithRetry(cb, h, op, 16000, 23000);
    total := total + n;
    fourth, n, ws := CallWithRetry(cb, h, op, 24000, 24000);
    state, count := cb.state, cb.failureCount;
  }
}
