/** Absence-of-result and success/failure wrappers shared by the codec modules. */
module Outcomes {

  /** `null` versus a value, as the codec's nullable tuple returns. */
  datatype Option<+T> = None | Some(value: T)

  /** A value, or the reason the operation stopped without one. */
  datatype Result<+T, +E> = Success(value: T) | Failure(error: E)
}
