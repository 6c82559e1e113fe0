/** Outcome types shared by the store and the request handlers.

    A handler either succeeds with a value or fails with one of the three
    error kinds the service distinguishes: a mentor id that does not
    resolve (404), a student id that does not resolve (404), or an error
    raised by the document store itself (500).
 */
module Outcomes {

  /** An optional value; `None` stands for an absent (null) reference. */
  datatype Option<+T> = None | Some(value: T)

  /** The error kinds a handler reports to its caller. */
  datatype Error = MentorNotFound | StudentNotFound | StorageFailure

  /** The outcome of one handler: a value, or the error it reports. */
  datatype Result<+T> = Ok(value: T) | Err(error: Error)
}
