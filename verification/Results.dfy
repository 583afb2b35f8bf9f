/** Failure-carrying results: Kotlin's nullable values and thrown exceptions
    become explicit datatypes. */
module Results {

  /** A Kotlin `T?`: either absent (`null`) or a value. */
  datatype Option<+T> = None | Some(value: T)

  /** The outcome of a Kotlin call that may throw: a value, or the exception it raises. */
  datatype Result<+T, +E> = Success(value: T) | Failure(error: E)
}
