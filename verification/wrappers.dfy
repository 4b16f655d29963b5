/** Optional values and success-or-error results, used for Swift optionals and throwing decoders. */
module Wrappers {

  /** A Swift optional: `nil` or a wrapped value. */
  datatype Option<+T> = None | Some(value: T)

  /** The outcome of a throwing call: a value, or the error it threw. */
  datatype Result<+T, +E> = Success(value: T) | Failure(error: E)
}
