/** Value-carrying and value-less outcomes, used where the source throws. */
module Results {

  /** A value, or the error that the source raises instead of returning one. */
  datatype Result<+T, +E> = Ok(value: T) | Err(error: E)

  /** Success, or the error that the source raises instead of completing. */
  datatype Outcome<+E> = Pass | Fail(error: E)
}
