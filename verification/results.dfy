/** Failure-carrying values shared by the client model. */
module Results {

  /** A value that may be absent, as an unset environment variable is. */
  datatype Option<+T> = None | Some(value: T)

  /** Either a computed value or the reason the computation stopped. */
  datatype Result<+T, +E> = Success(value: T) | Failure(error: E)
}
