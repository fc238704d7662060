/** Option, Result and Outcome: absence markers and the error path of a fetch. */
module Wrappers {

  /** A value that may be absent; stands for JavaScript's `null` / `undefined`. */
  datatype Option<+T> = None | Some(value: T)

  /** A computation that either produced a value or threw. */
  datatype Result<+T, +E> = Success(value: T) | Failure(error: E)

  /** A computation run for its effect that either completed or threw. */
  datatype Outcome<+E> = Pass | Fail(error: E)

  function Min(a: int, b: int): (m: int)
    ensures m <= a && m <= b && (m == a || m == b)
  {
    if a <= b then a else b
  }
}
