/** Optional values and error-or-value results, used for every `?` field and
    every operation of the decoder that can throw. */
module Wrappers {

  /** A value that may be absent (`undefined` / `null` in the decoder). */
  datatype Option<+T> = None | Some(value: T)

  /** Either a value or the error that the original code throws. */
  datatype Result<+T, +E> = Success(value: T) | Failure(error: E)

  /** A check that either passes or fails with an error (a `void` function that may throw). */
  datatype Outcome<+E> = Pass | Fail(error: E)
}
