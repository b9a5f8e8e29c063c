/** Optional values and success/failure outcomes shared by the model. */
module Results {

  /** A value that may be missing: an optional field, an absent key, a `null` result. */
  datatype Option<+T> = None | Some(value: T)

  /** The outcome of an operation that can fail: a returned value or a thrown error. */
  datatype Result<+T, +E> = Success(value: T) | Failure(error: E)
}
