/** Optional values and results shared by the cipher and the lifecycle engine. */
module Results {

  /** An optional value: the model of a nullable column or an optional form field. */
  datatype Option<+T> = None | Some(value: T)

  /** Either a value or the error kind that the source raises instead of returning. */
  datatype Result<+T, +E> = Success(value: T) | Failure(error: E)
}
