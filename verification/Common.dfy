/** Vocabulary shared by every module of the model. */
module Common {
  /** A nullable value: a database NULL or a Python `None`. */
  datatype Option<+T> = None | Some(value: T)

  /** The outcome of an operation that can raise. */
  datatype Result<+T, +E> = Success(value: T) | Failure(error: E)

  /** A row identifier. Only equality matters, so UUIDs are natural numbers. */
  type Uuid = nat
}
