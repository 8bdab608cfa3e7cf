/** Failure-carrying return types shared by the reader and the writer. */
module Results {

  /** An optional value: the position of a byte that may be absent. */
  datatype Option<+T> = None | Some(value: T)

  /** The outcome of an operation that the source reports by throwing. */
  datatype Result<+T, +E> = Success(value: T) | Failure(error: E)
}
