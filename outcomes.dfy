/** Values and failures shared by every component of the reliability toolkit. */
module Outcomes {

  datatype Option<+T> = None | Some(value: T)

  /** The exceptions that can leave the toolkit's operations. */
  datatype Exception =
    | OpError(code: int)       // an exception raised by the wrapped operation, identified by `code`
    | BreakerOpenError         // `Exception("Circuit breaker is OPEN")`: the call was not attempted
    | NoExceptionToRaise       // the `TypeError` of `raise None` (a retry handler with max_retries < 0)
    | ValueError(msg: string)  // a validator's `ValueError`

  /** What one call of a fallible operation produces: a value, or a raised exception. */
  datatype Result<+T> = Ok(value: T) | Err(error: Exception)
}
