/** Failure-carrying return values of the engine. */
module Results {

  /** A value that may be absent; the engine's "path or None". */
  datatype Option<+T> = None | Some(value: T)

  /** A value or the error that prevented it; the engine's constructor
      either builds an engine or raises. */
  datatype Result<+T, +E> = Ok(value: T) | Err(error: E)
}
