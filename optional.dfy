/** Failure-compatible wrappers: a value that may be missing, and a computation that may fail. */
module Optional {

  /** A value that may be missing (Python's `None`). */
  datatype Option<T> = None | Some(value: T)

  /** The outcome of a step that either succeeds with a value or stops with an error. */
  datatype Result<T, E> = Ok(value: T) | Err(error: E)
}
