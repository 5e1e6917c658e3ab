/** Optional values and fallible results used by the rest of the model. */
module Wrappers {

  /** An optional value: `None` stands for JavaScript's `undefined`/`null`. */
  datatype Option<+T> = None | Some(value: T)

  /** A computation that either succeeds or aborts with an error. */
  datatype Result<+R, +E> = Success(value: R) | Failure(error: E)
}
