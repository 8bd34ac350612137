/** Option and Result values used in place of the source's panics and `Option`s. */
module Wrappers {

  datatype Option<+T> = None | Some(value: T)

  /** A computation that either produced `value` or aborted with `error`. */
  datatype Result<+R, +E> = Success(value: R) | Failure(error: E)
}
