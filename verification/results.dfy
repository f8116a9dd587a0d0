/** Failure-carrying datatypes shared by the report sections. */
module Results {

  /** An optional value: a table lookup that may find nothing, a parse that may fail. */
  datatype Option<+T> = None | Some(value: T)

  /** A value, or the error that stopped its computation (the source raises an exception). */
  datatype Result<+T, +E> = Success(value: T) | Failure(error: E)
}
