/** Small failure-carrying datatypes shared by the whole model. */
module Results {

  /** A possibly-absent value: Go's nil pointer or nil error. */
  datatype Option<+T> = None | Some(value: T)

  /** The outcome of a remote call: either its response or the error it reported. */
  datatype Result<+T, +E> = Success(value: T) | Failure(error: E)

  /** Go's `(T, error)` return pair: a value is always returned, and the error
      beside it is nil (`None`) or not. Callers may use the value while ignoring
      the error, which is why this is not a `Result`. */
  datatype Returns<+T, +E> = Returns(value: T, err: Option<E>)
}
