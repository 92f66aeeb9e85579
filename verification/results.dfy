/** Failure-carrying return values shared by the grid store and the session. */
module Results {

  /** A value that may be absent, as a JavaScript `Map.get` that may return `undefined`. */
  datatype Option<+T> = None | Some(value: T)

  /** Either a successful value or the reason an operation was refused. */
  datatype Result<+T, +E> = Ok(value: T) | Err(error: E)
}
