module Wrappers {
  datatype Option<+T> = None | Some(value: T)

  /** The outcome of an operation that either yields a value or stops with a
      reason. */
  datatype Result<+R, +E> = Ok(value: R) | Err(error: E)
}
