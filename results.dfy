/** Results of operations that may raise: a value or the error raised. */
module Results {

  /** A value, or the error an operation raised instead of returning it. */
  datatype Result<T, E> = Ok(value: T) | Err(error: E)

  /** Normal completion, or the error raised; for operations that return nothing. */
  datatype Outcome<E> = Pass | Fail(error: E)
}
