/** Failure-carrying values shared by the hooks: optional values, results, and
    what a JavaScript `catch` clause receives. */
module Wrappers {

  datatype Option<+T> = None | Some(value: T)

  datatype Result<+R, +E> = Success(value: R) | Failure(error: E)

  /** A thrown JavaScript value, as far as the hooks look at it: either an
      `Error` object (whose `message` they read) or anything else. */
  datatype Thrown = ErrorObject(message: string) | NonError

  /** `err instanceof Error ? err.message : fallback`, the message both hooks
      derive from what they catch. */
  function CaughtMessage(thrown: Thrown, fallback: string): (m: string)
    ensures thrown.ErrorObject? ==> m == thrown.message
    ensures thrown.NonError? ==> m == fallback
  {
    match thrown
    case ErrorObject(message) => message
    case NonError => fallback
  }
}
