/** Option and Result, the shapes the services return: Optional<T>, or a value or a thrown exception. */
module Wrappers {

  /** java.util.Optional: empty or present. */
  datatype Option<+T> = None | Some(value: T)

  /** A value, or the exception a service method throws instead of returning. */
  datatype Result<+T, +E> = Ok(value: T) | Err(error: E)
}
