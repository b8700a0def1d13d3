/** Success/failure values standing for the checked exceptions of the Java code. */
module Results {

  /** A value, or the exception that was thrown instead of returning one. */
  datatype Result<+T, +E> = Ok(value: T) | Err(error: E)

  /** Completion of an operation that returns nothing, or the exception it threw. */
  datatype Outcome<+E> = Pass | Fail(error: E)
}
