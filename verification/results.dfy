/** Failure-carrying values shared by the other modules. */
module Results {

  /** An optional value: `None` plays the part of Python's `None` result of `find`. */
  datatype Option<+T> = None | Some(value: T)

  /** Either a value or the error that stopped the computation (a raised exception). */
  datatype Result<+R, +E> = Success(value: R) | Failure(error: E)
}
