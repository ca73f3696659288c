/** `RetryHandler`: re-invokes a fallible operation with exponential backoff. */
module Retry {
  import opened Outcomes

  /** The handler's configuration; neither field changes after construction.
      `backoff` is the base wait in milliseconds. */
  datatype RetryHandler = RetryHandler(maxRetries: int, backoff: nat)

  /** The constructor's defaults: three retries and a one-second base wait. */
  const DefaultHandler := RetryHandler(3, 1000)

  function Pow2(k: nat): (r: nat)
    ensures r >= 1
  {
    if k == 0 then 1 else 2 * Pow2(k - 1)
  }

  /** The wait after failed attempt `k` (0-based) when a retry follows it. */
  function Backoff(backoff: nat, k: nat): nat {
    backoff * Pow2(k)
  }

  /** The waits slept after the first `n` failed attempts, in order. */
  function Schedule(backoff: nat, n: nat): (ws: seq<nat>)
    ensures |ws| == n
    ensures forall k :: 0 <= k < n ==> ws[k] == Backoff(backoff, k)
  {
    if n == 0 then [] else Schedule(backoff, n - 1) + [Backoff(backoff, n - 1)]
  }

  function Sum(ws: seq<nat>): nat {
    if ws == [] then 0 else Sum(ws[..|ws| - 1]) + ws[|ws| - 1]
  }

  /** Each wait of the schedule is twice the one before it, so the schedule never decreases. */
  lemma {:induction false} ScheduleDoubles(backoff: nat, n: nat, k: nat)
    requires k + 1 < n
    ensures Schedule(backoff, n)[k + 1] == 2 * Schedule(backoff, n)[k]
    ensures Schedule(backoff, n)[k] <= Schedule(backoff, n)[k + 1]
  {
  }

  /** All the waits of a schedule of `n` retries add up to `backoff * (2^n - 1)`. */
  lemma {:induction false} ScheduleTotal(backoff: nat, n: nat)
    ensures Sum(Schedule(backoff, n)) == backoff * (Pow2(n) - 1)
  {
    if n > 0 {
      ScheduleTotal(backoff, n - 1);
      SumScheduleStep(backoff, n);
      Distribute(backoff, Pow2(n - 1));
    }
  }

  lemma SumScheduleStep(backoff: nat, n: nat)
    requires n > 0
    ensures Sum(Schedule(backoff, n)) == Sum(Schedule(backoff, n - 1)) + Backoff(backoff, n - 1)
  {
    var ws := Schedule(backoff, n);
    assert ws[..n - 1] == Schedule(backoff, n - 1);
  }

  lemma Distribute(b: int, p: int)
    ensures b * (p - 1) + b * p == b * (2 * p - 1)
  {
  }

  /** The default handler, against an operation that always fails, waits 1 s, 2 s and 4 s. */
  lemma DefaultSchedule()
    ensures Schedule(DefaultHandler.backoff, DefaultHandler.maxRetries) == [1000, 2000, 4000]
  {
  }

  /** `retry_with_backoff`: invoke `op` once per attempt, attempt `k` producing `op(k)`.
      Returns the first success; after a failed attempt `k` below `maxRetries` it sleeps
      `backoff * 2^k`; after the last failed attempt it re-raises that attempt's exception.
      `attempts` is how many times `op` ran and `waits` the sleeps, in order. */
  method RetryWithBackoff<T>(h: RetryHandler, op: nat -> Result<T>)
    returns (r: Result<T>, attempts: nat, waits: seq<nat>)
    ensures h.maxRetries < 0 ==> attempts == 0 && waits == [] && r == Err(NoExceptionToRaise)
    ensures h.maxRetries >= 0 ==> 1 <= attempts <= h.maxRetries + 1
    ensures forall k :: 0 <= k < attempts - 1 ==> op(k).Err?
    ensures attempts >= 1 ==> r == op(attempts - 1)
    ensures r.Err? && h.maxRetries >= 0 ==> attempts == h.maxRetries + 1
    ensures waits == Schedule(h.backoff, if attempts == 0 then 0 else attempts - 1)
  {
    var lastException: Option<Exception> := None;
    attempts, waits := 0, [];
    var attempt := 0;
    while attempt < h.maxRetries + 1
      invariant 0 <= attempt && (h.maxRetries < 0 ==> attempt == 0)
      invariant h.maxRetries >= 0 ==> attempt <= h.maxRetries
      invariant attempts == attempt
      invariant forall k :: 0 <= k < attempt ==> op(k).Err?
      invariant attempt == 0 <==> lastException == None
      invariant attempt > 0 ==> lastException == Some(op(attempt - 1).error)
      invariant waits == Schedule(h.backoff, attempt)
      decreases h.maxRetries + 1 - attempt
    {
      var outcome := op(attempt);
      attempts := attempts + 1;
      if outcome.Ok? {
        return outcome, attempts, waits;
      }
      lastException := Some(outcome.error);
      if attempt < h.maxRetries {
        waits := waits + [Backoff(h.backoff, attempt)];
      } else {
        break;
      }
      attempt := attempt + 1;
    }
    match lastException
    case None => r := Err(NoExceptionToRaise);
    case Some(e) => r := Err(e);
  }
}
