/** Optional values and fallible results, used for the component's optional props
    and for the one validated construction (the masking character). */
module Wrappers {

  /** An optional value; `None` stands for a prop or field that is `undefined`. */
  datatype Option<+T> = None | Some(value: T)

  /** The outcome of an operation that may fail with an error value. */
  datatype Result<+R, +E> = Success(value: R) | Failure(error: E)
}
