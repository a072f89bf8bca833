/** Small value types shared by the whole model: an optional value (the
    JavaScript `T | undefined`), and the two shapes a remote call can settle
    in (a promise that resolves with a value or is rejected). */
module Wrappers {

  /** `None` plays the role of `undefined`. */
  datatype Option<+T> = None | Some(value: T)

  /** How a remote call that returns data settles. */
  datatype Response<+T> = Resolved(value: T) | Rejected

  /** How a remote call that only acknowledges settles. */
  datatype Outcome = Success | Failure
}
