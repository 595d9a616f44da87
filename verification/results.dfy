/** Failure-carrying result types shared by the model: a Python call either
    returns a value or raises an exception, which the model names. */
module Results {

  /** An optional value, used for attributes that an object may not have set. */
  datatype Option<+T> = None | Some(value: T)

  /** A call that returns `value` or raises `error`. */
  datatype Result<+R, +E> = Success(value: R) | Failure(error: E)
}
