/** Optional values and fallible results shared by the model's modules. */
module Wrappers {

  /** A nullable value: Kotlin's `T?`. */
  datatype Option<+T> = None | Some(value: T)

  /** The outcome of a store write: the generated value, or the error the store raised. */
  datatype Result<+T, +E> = Success(value: T) | Failure(error: E)
}
