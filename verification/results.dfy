/** Option and Result wrappers shared by every module of the model. */
module Results {

  /** A value that may be absent; stands for Python's `None`. */
  datatype Option<+T> = None | Some(value: T)

  /** The outcome of an operation that can raise: a value or an error. */
  datatype Result<+T, +E> = Ok(value: T) | Err(error: E)
}
