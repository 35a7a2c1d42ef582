/** Failure-carrying result types shared by the whole model. */
module Wrappers {

  /** A value that may be absent (the source's `null` / `undefined`). */
  datatype Option<+T> = None | Some(value: T)

  /** A value or the error the source throws instead of returning one. */
  datatype Result<+T, +E> = Ok(value: T) | Err(error: E)
}
