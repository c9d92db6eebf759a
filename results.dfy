/** Python's `Optional` and the errors the entry point reports, shared by
    the other modules. */
module Results {

  /** `None` or a value, as Python's `Optional`. */
  datatype Option<+T> = None | Some(value: T)

  /** A value, or the error that aborted the computation. */
  datatype Result<+T, +E> = Ok(value: T) | Err(error: E)
}
