/** Failure-carrying result types shared by the codec modules. */
module Outcomes {

  /** An optional value: `None` where the source leaves a variable unassigned. */
  datatype Option<+T> = None | Some(value: T)

  /** The two ways a conversion can fail. */
  datatype Error =
    | InvalidCodepoint   // the encoder's tier chain matched no branch
    | InvalidEncoding    // the decoder's range chain matched no branch

  /** The outcome of one encode or decode call. */
  datatype Result<+T> = Ok(value: T) | Err(error: Error)
}
