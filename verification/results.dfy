/** Failure-carrying result types used by every codec and validator in the model. */
module Results {

  /** An optional value: an environment variable that may be unset, a search that may find nothing. */
  datatype Option<+T> = None | Some(value: T)

  /** A value or the error that prevented it, as Go's `(value, error)` pairs. */
  datatype Result<+T, +E> = Ok(value: T) | Err(error: E)

  /** Success with no value, or an error: Go's plain `error` return. */
  datatype Outcome<+E> = Pass | Fail(error: E)
}
