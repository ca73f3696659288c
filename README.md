# Reliability toolkit of the Bedrock reliability patterns, in Dafny

This project models the reliability toolkit in `patterns/security_utils.py` and proves what it
does. Every pattern script imports this toolkit. It covers:

- `RetryHandler.retry_with_backoff`: re-invokes a failing operation with exponential backoff
  (module `Retry`, file `retry.dfy`);
- `CircuitBreaker.call`: a CLOSED / OPEN / HALF_OPEN state machine over `failure_count` and
  `last_failure_time` (module `Breaker`, file `breaker.dfy`);
- `RateLimiter.wait_if_needed`: a minimum spacing between recorded request start times
  (module `RateLimit`, file `rate_limiter.dfy`);
- `ResourceManager`: an ordered list of resources. `cleanup` disposes of each one and
  swallows every error, and `__exit__` runs `cleanup` (module `Resources`, file `resources.dfy`);
- the input validators `validate_model_id`, `sanitize_prompt`, `sanitize_error_message`,
  `validate_config` and the region check of `get_secure_region` (module `Validators`,
  file `validators.dfy`);
- the breaker wrapped around the retry handler, as `invoke_model` in
  `patterns/aws_native/01_cross_region_inference.py` composes them (module `Composition`,
  file `composition.dfy`).

Shared types live in module `Outcomes` (`outcomes.dfy`). A `Result<T>` is what one call
produces: a value, or a raised `Exception`. The exception kinds are:

- an operation's own exception;
- the breaker's "Circuit breaker is OPEN" error;
- the `TypeError` of `raise None`;
- a validator's `ValueError`.

How the environment is modelled:

- **Time.** Time is an integer number of milliseconds, and every clock reading is a parameter.
- **Sleeps.** Sleeps are returned as values (`waits`, `slept`).
- **The wrapped operation.** For the retry handler it is an oracle `op: nat -> Result<T>`,
  where `op(k)` is what attempt `k` produces. `CircuitBreaker.Call` takes the outcome the
  operation would produce and reports through `invoked` whether it ran.
- **Mutable objects.** Objects whose fields the source updates in place are classes:
  `CircuitBreaker`, `RateLimiter` and `ResourceManager`.
- **Pure code.** `RetryHandler` never changes its fields, so it is a value. The validators
  are functions.

Behaviour of the code worth noting, which the model follows:

- A success while CLOSED does **not** reset `failure_count` (`security_utils.py:212-217`), so
  failures accumulate across successes until the breaker opens (`Breaker.ClosedCountsEveryFailure`).
- An OPEN breaker admits a probe only when **strictly more** than `recovery_timeout` has
  elapsed (`:207`).
- `cleanup` disposes of resources in **registration order**, not in reverse (`:239`).
- Every exception is retried; none is treated as permanent (`:184`).

## Model

| member | source | states |
|---|---|---|
| Retry.RetryWithBackoff | patterns/security_utils.py:177-192 | `op` runs at most `max_retries + 1` times. The result is the first success, with every earlier attempt a failure. If all attempts fail, it is exactly `max_retries + 1` attempts and the last attempt's own exception. A negative `max_retries` runs nothing and raises the `TypeError` of `raise None`. The waits are the backoff schedule for one fewer than the attempts made, so there is no wait before the first attempt and none after the last. |
| Retry.Schedule | patterns/security_utils.py:186-188 | The i-th wait is `backoff * 2^i`, and there is one wait per retried attempt. |
| Retry.ScheduleDoubles | patterns/security_utils.py:186-188 | Each wait is twice the previous one, so the schedule never decreases. |
| Retry.ScheduleTotal | patterns/security_utils.py:186-188 | `n` retries sleep `backoff * (2^n - 1)` in total. |
| Retry.SumScheduleStep | patterns/security_utils.py:186-188 | One more retry adds its own wait, `backoff * 2^(n-1)`, to the total sleep. |
| Retry.DefaultSchedule | patterns/security_utils.py:28-30 | With the defaults (3 retries, 1 s), the waits are 1 s, 2 s and 4 s. |
| Breaker.Admit | patterns/security_utils.py:206-208 | A call that passes the OPEN check turns an open breaker half-open. It leaves a closed one as it is and keeps the count and the failure time. |
| Breaker.Settle | patterns/security_utils.py:212-225 | A success closes a half-open breaker and resets the count to 0. A success leaves a closed breaker unchanged. A success never changes `last_failure_time`. A failure adds exactly 1 to the count and records its time, and the breaker is then open iff the count has reached the threshold. Afterwards the breaker is at rest. |
| Breaker.Step | patterns/security_utils.py:204-225 | A whole `call`: a rejected call changes nothing. An admitted success leaves the breaker CLOSED, resets the count only if the breaker was OPEN, and keeps `last_failure_time`. An admitted failure follows the failure rule above. It preserves the at-rest invariant: never HALF_OPEN between calls, OPEN implies a failure time is set and the count is at least the threshold, and CLOSED with a positive threshold implies the count is below it. |
| Breaker.ClosedIffBelowThreshold | patterns/security_utils.py:197-225 | With `failure_threshold >= 1`, a breaker at rest is CLOSED iff `failure_count < failure_threshold`. If it is OPEN, `last_failure_time` is set. |
| Breaker.Run | patterns/security_utils.py:204-225 | Any sequence of calls leaves the breaker at rest. |
| Breaker.ClosedCountsEveryFailure | patterns/security_utils.py:212-224 | While the threshold is not reached, a closed breaker stays closed and its count grows by the number of failures, whatever successes come in between. |
| Breaker.FailuresOpenBreaker | patterns/security_utils.py:218-225 | From CLOSED, `threshold - count` consecutive failures open the breaker. The count ends at the threshold and the last failure's time is recorded. |
| Breaker.ThresholdFailuresThenRejected | patterns/security_utils.py:206-210 | A fresh breaker fed `failure_threshold` failures rejects the next call made within the recovery timeout, and that call changes nothing. |
| Breaker.CircuitBreaker.constructor | patterns/security_utils.py:197-202 | The breaker starts CLOSED, with a count of 0 and no failure time. The settings default to five failures and 60 seconds. |
| Breaker.CircuitBreaker.Gate | patterns/security_utils.py:206-210 | The OPEN check. Before the timeout has strictly elapsed, the call is refused and nothing changes. Otherwise the breaker becomes HALF_OPEN and the call proceeds. |
| Breaker.CircuitBreaker.Record | patterns/security_utils.py:212-225 | The fields after the operation ran are exactly `Settle` of the fields before. |
| Breaker.CircuitBreaker.Call | patterns/security_utils.py:204-225 | The operation runs iff the OPEN check admits the call. A refused call raises the breaker-open error and leaves the fields unchanged. An admitted call returns or re-raises the operation's own outcome unchanged. The new fields are `Step` of the old ones. |
| RateLimit.Wait | patterns/security_utils.py:162-167 | The sleep is `min_interval - elapsed` when less than `min_interval` has elapsed (and is then positive), and 0 otherwise. After it, at least `min_interval` has passed since the last start. |
| RateLimit.NextStart | patterns/security_utils.py:162-168 | The recorded start is no earlier than the call and at least `min_interval` after the previous recorded start. |
| RateLimit.Starts | patterns/security_utils.py:162-168 | A sequence of calls records one start time per call. |
| RateLimit.StartsSpaced | patterns/security_utils.py:162-168 | For any sequence of calls, consecutive recorded start times are at least `min_interval` apart. |
| RateLimit.FirstStartSpaced | patterns/security_utils.py:162-168 | For any non-empty sequence of calls, the first recorded start is at least `min_interval` after the last start before the sequence. |
| RateLimit.RateLimiter.constructor | patterns/security_utils.py:158-160 | The limiter keeps its interval and has last start time 0. The interval defaults to 100 ms. |
| RateLimit.RateLimiter.WaitIfNeeded | patterns/security_utils.py:162-168 | It sleeps exactly `Wait`, records the clock read after the sleep, and the new start is at least `min_interval` after the old one. |
| Resources.Dispose | patterns/security_utils.py:240-246 | It calls `close` when present, else `cleanup`, else nothing. A raised error is recorded and goes no further. |
| Resources.Disposals | patterns/security_utils.py:237-247 | There is one disposal per registered resource, the i-th disposal being that of the i-th resource. |
| Resources.DisposalsFollowRegistration | patterns/security_utils.py:237-247 | The disposal log names exactly the registered resources, in registration order, each exactly once, whichever disposals raise. |
| Resources.DisposalsAppend | patterns/security_utils.py:233-247 | Resources registered in two batches are disposed of batch by batch, in order. |
| Resources.ResourceManager.constructor | patterns/security_utils.py:230-231 | The resource list starts empty. |
| Resources.ResourceManager.AddResource | patterns/security_utils.py:233-235 | The resource is appended to the end of the list. |
| Resources.ResourceManager.Cleanup | patterns/security_utils.py:237-247 | It disposes of every registered resource in order, raises nothing, and leaves the list empty. |
| Resources.ResourceManager.Exit | patterns/security_utils.py:252-253 | It cleans up as `cleanup` does. The body's exception propagates unchanged, or nothing does if there was none. |
| Validators.AnyPrefix | patterns/security_utils.py:50 | The `any` over the patterns is true iff some allowed prefix starts the id. |
| Validators.ValidateModelId | patterns/security_utils.py:48-50 | True iff the value is a string of at most 200 characters that starts with one of the eight allowed prefixes. |
| Validators.ModelIdExamples | patterns/security_utils.py:42-46 | The documented examples: the Claude Haiku id is accepted, and `invalid.model` and a non-string are refused. |
| Validators.Lead | patterns/security_utils.py:73 | The index where `lstrip` cuts: every character before it is whitespace, and the character at it is not. |
| Validators.Trail | patterns/security_utils.py:73 | The index where `rstrip` cuts: every character from it on is whitespace, and the character before it is not. |
| Validators.Strip | patterns/security_utils.py:73 | The result is the input's own slice that remains once its whitespace-only prefix and suffix are cut. Every character cut is whitespace, and the result has no whitespace at either end, so exactly the surrounding whitespace is removed. |
| Validators.StripIdempotent | patterns/security_utils.py:73 | Stripping twice is the same as stripping once. |
| Validators.SanitizePrompt | patterns/security_utils.py:69-73 | A non-string raises "Prompt must be a string". Over 10000 characters raises "Prompt too long". Otherwise the result is `Strip` of the prompt: the prompt less exactly its surrounding whitespace. |
| Validators.SanitizePromptExample | patterns/security_utils.py:65-67 | The documented example: `" Hello world "` sanitizes to `"Hello world"`. |
| Validators.SanitizePromptIdempotent | patterns/security_utils.py:69-73 | Sanitizing a sanitized prompt returns it unchanged. |
| Validators.Replace | patterns/security_utils.py:77 | Replacing a non-empty target with a no-longer string never lengthens the message. With an empty target the result has `(len + 1)` copies of the replacement added to the message's length. |
| Validators.ReplaceFromNext | patterns/security_utils.py:77 | Scanning from a position, the text up to the next occurrence of the target is copied, that occurrence becomes the replacement, and the scan resumes right after it. |
| Validators.ReplaceFirstOccurrence | patterns/security_utils.py:77 | The first occurrence of the home directory becomes `~`: the text before it is kept unchanged, and the rest of the message is processed the same way from just after the occurrence. |
| Validators.ReplaceFromAbsent | patterns/security_utils.py:77 | Scanning from a position after which the target does not occur copies the rest of the message unchanged. |
| Validators.ReplaceAbsent | patterns/security_utils.py:77 | A message that does not contain the target is left as it is. |
| Validators.SanitizeErrorMessage | patterns/security_utils.py:77-78 | The output has at most 203 characters. After home substitution, a message of at most 200 characters is unchanged. A longer one keeps its first 200 characters followed by `...`. |
| Validators.ShortMessageUnchanged | patterns/security_utils.py:77-78 | A message of at most 200 characters that does not mention the home directory is returned unchanged. |
| Validators.RegionRun | patterns/security_utils.py:83 | The greedy `[a-z0-9-]+` run from the start of the string: every character in it is a region character, and the character after it is not. |
| Validators.RegionMatchAsWritten | patterns/security_utils.py:83 | The pattern as written accepts exactly a non-empty string of region characters, optionally followed by a single `\n`. |
| Validators.TrailingNewlineRegionAccepted | patterns/security_utils.py:83 | The region pattern as written accepts `"us-east-1\n"`, which the intended format refuses. |
| Validators.RegionCorrectionOnlyDropsNewline | patterns/security_utils.py:83 | Every valid region passes the pattern as written. The only strings the pattern accepts that the intended format refuses are a valid region followed by one newline. |
| Validators.GetSecureRegion | patterns/security_utils.py:80-85 | The result is the variable's value, or `us-east-1` when unset, iff that value has the region format. Otherwise it raises "Invalid region format". Every region returned has the format. |
| Validators.ValidateConfigAsWritten | patterns/security_utils.py:87-109 | The result has exactly the keys `timeout`, `max_tokens` and `temperature`, and `max_tokens` is an int in (0, 4000]. |
| Validators.NaNTimeoutAccepted | patterns/security_utils.py:93 | As written, a NaN timeout is kept, and it is not in (0, 300]. |
| Validators.NaNTemperatureAccepted | patterns/security_utils.py:105 | As written, a NaN temperature is kept, and it is not in [0, 1]. |
| Validators.ValidateConfig | patterns/security_utils.py:87-109 | The result has exactly the three keys. `timeout` is in (0, 300], `max_tokens` is an int in (0, 4000] and `temperature` is in [0, 1]. Each setting is kept when in range and otherwise replaced by its default (30, 1000, 0.7). |
| Validators.ValidateConfigAgreesWithoutNaN | patterns/security_utils.py:87-109 | Unless the timeout or the temperature is NaN, the intended and the written versions return the same configuration. |
| Composition.CallWithRetry | patterns/aws_native/01_cross_region_inference.py:117-119 | A refused request runs no attempt. An admitted one runs the whole retry sequence inside one breaker call. The breaker takes exactly one `Step` on the sequence's final outcome, so an exhausted sequence adds exactly 1 to `failure_count`. |
| Composition.ExhaustedSequencesOpenBreaker | patterns/aws_native/01_cross_region_inference.py:117-119 | Take 2 retries, a threshold of 3 and an always-failing operation. Three requests run 9 attempts and open the breaker with a count of 3. A fourth request within the timeout is refused. |

## Findings

| source | as written | input that shows it | evidently intended | confidence | as-written member | corrected member |
|---|---|---|---|---|---|---|
| patterns/security_utils.py:83 | `re.match(r'^[a-z0-9-]+$', region)`: in Python, `$` also matches just before a newline that ends the string. | `AWS_DEFAULT_REGION="us-east-1\n"` passes the check and is returned as the region. | A region made only of `a-z`, `0-9` and `-` (`re.fullmatch`, or `\Z`). | high; not executed | Validators.TrailingNewlineRegionAccepted | Validators.GetSecureRegion |
| patterns/security_utils.py:93 | `timeout <= 0 or timeout > 300` (and `temperature < 0 or temperature > 1` at line 105) are both false for NaN, so NaN is kept. | `validate_config({'timeout': float('nan')})` returns a NaN timeout. | Keep a setting only when it lies inside its range. | medium; not executed | Validators.NaNTimeoutAccepted | Validators.ValidateConfig |

`Validators.RegionMatchAsWritten` and `Validators.ValidateConfigAsWritten` model the code as
written. `Validators.GetSecureRegion` and `Validators.ValidateConfig` are the corrected definitions.

## Left out

- `timeout_context` (`security_utils.py:141-153`) depends on process-wide `SIGALRM` delivery, which
  has no sequential model. It disarms the alarm and restores the previous handler in `finally`.
- `setup_logging` and `create_secure_log_file` are logging and filesystem I/O.
- The environment read in `get_secure_region` is a parameter (`Option<string>`). `Path.home()`
  in `sanitize_error_message` is the parameter `home`. `str(error_msg)` is not modelled: the
  message is already a string.
- Real time, `time.time` and `time.sleep` are not modelled. Durations are integer
  milliseconds, not floating-point seconds, so rounding is not modelled.
- `RateLimit.RateLimiter.WaitIfNeeded`: the clock read after the sleep is `now + slept + drift`
  with `drift >= 0`. This encodes that a sleep never ends early and the clock never goes back.
- Retry.RetryWithBackoff: `backoff` is a natural number. A negative backoff, for which
  `time.sleep` raises `ValueError` at the first retry, is not modelled.
- Breaker.CircuitBreaker.Call: the operation's outcome is a parameter, so side effects of
  running it are not modelled. `invoked` says whether it would have run.
- Only exceptions derived from `Exception` are caught by the source. `BaseException`s such as
  `KeyboardInterrupt` pass through every `except Exception`; they are not modelled.
- Concurrency is not modelled. The classes take no locks, and the model is single-threaded.
- `ResourceManager.__enter__` returns the manager itself; there is nothing to model.
- A resource is reduced to which disposal methods it has and whether disposal raises. What
  `close` or `cleanup` do to the resource is not modelled.
- Regular expressions are not modelled as such. The model-id patterns are literal-prefix
  checks, which is what `^prefix.*` means under `re.match`. The region pattern is the
  character-class check above.
- The demonstration scripts under `patterns/aws_native/` and `patterns/custom/` are left out,
  as are `setup.py` and `precheck.py`. They contain network calls, printing, log files, and
  ordered first-success loops over network calls. The `sanitize_error_message` copies in
  `setup.py` and `precheck.py` are identical to the one modelled.
- Python `float` infinities in `validate_config` are modelled (`VInf`); other exotic numeric
  types are treated as non-numbers.
