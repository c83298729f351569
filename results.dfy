/** The outcome of an operation that either returns a value or raises an error. */
module Results {

  datatype Result<+T, +E> = Ok(value: T) | Err(error: E)
}
