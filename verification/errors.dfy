/** Failure-carrying values shared by the whole model.

  Go reports failure through a nil-able `error`; here an `Outcome` is either
  `Pass` (the nil error) or `Fail` carrying the text the error would print.
 */
module Errors {

  datatype Option<+T> = None | Some(value: T)

  /** A Go error value: nil, or an error whose `Error()` text is `error`. */
  datatype Outcome = Pass | Fail(error: string)

  /** A value, or the text of the error that prevented computing it. */
  datatype Result<+T> = Success(value: T) | Failure(error: string)
}
