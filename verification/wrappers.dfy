/** The two small failure-compatible shapes the model needs: an optional value
    (JavaScript's `undefined` versus a present value) and a success/error result. */
module Wrappers {

  /** `None` plays the part of an absent (undefined) argument or option. */
  datatype Option<+T> = None | Some(value: T)

  /** A computation that either produced a value or threw an error message. */
  datatype Result<+R, +E> = Success(value: R) | Failure(error: E)
}
