/** Success-or-failure values shared by the encoder and the serde boundary. */
module Results {

  /** The outcome of an operation that may fail: a value or an error. */
  datatype Result<+T, +E> = Ok(value: T) | Err(error: E)
}
