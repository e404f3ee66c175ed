// Option and Result types shared by every module of the model.
module Results {
  datatype Option<T> = None | Some(value: T)

  /** The outcome of an operation that either yields a value or reports an error. */
  datatype Result<T, E> = Ok(value: T) | Err(error: E)
}
