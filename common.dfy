/** Failure-compatible wrappers shared by the IPv4 layer model. */
module Common {

  /** A value that may be absent: Python's `None` or a value. */
  datatype Option<+T> = None | Some(value: T)

  /** The value of an operation that either produces a result or raises. */
  datatype Result<+T, +E> = Success(value: T) | Failure(error: E)

  /** The end of an operation that produces no value but may raise. */
  datatype Outcome<+E> = Pass | Fail(error: E)
}
