/** The exceptions the containers throw, and the outcome of an operation that may throw one. */
module Results {

  /** std::out_of_range (vector accessors) and std::runtime_error (list search). */
  datatype Exception = OutOfRange | RuntimeError

  /** Either the value an operation returns or the exception it throws. */
  datatype Result<T> = Ok(value: T) | Err(error: Exception)
}
