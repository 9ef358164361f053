/** Failure-carrying values shared by every stage of the colour pipeline. */
module Results {

  /** A value that may be missing: a regular-expression search without a match. */
  datatype Option<+T> = None | Some(value: T)

  /** Either a value or the error that Python would raise instead of returning one. */
  datatype Result<+T, +E> = Ok(value: T) | Err(error: E)
}
