/** Failure-carrying results for operations that the tools report as errors
    (a notification or a thrown `Error`) instead of completing. */
module Wrappers {

  datatype Option<+T> = None | Some(value: T)

  /** `Err` carries the message the tool shows to the user. */
  datatype Result<+T> = Ok(value: T) | Err(message: string)
}
