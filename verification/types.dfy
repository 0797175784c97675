/** Failure-carrying wrappers shared by every module of the model. */
module Types {

  /** Python's `Optional[T]`: `None` or a present value. */
  datatype Option<+T> = None | Some(value: T)

  /** The value of a computation, or the exception that the Python code would raise instead. */
  datatype Result<+T, +E> = Success(value: T) | Failure(error: E)
}
