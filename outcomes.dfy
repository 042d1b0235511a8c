/** Result values of the repository operations. Go returns an `error` whose
    text is all a caller can inspect, so every failure carries that text. */
module Outcomes {

  datatype Option<+T> = None | Some(value: T)

  /** A value together with a nil error, or a non-nil error. */
  datatype Result<+T> = Ok(value: T) | Err(error: string)

  /** An `error` return on its own: nil (Pass) or an error with its text. */
  datatype Outcome = Pass | Fail(error: string)
}
