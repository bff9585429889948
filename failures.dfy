/**
 * The failure-carrying values the service passes around: an optional
 * value for Java references that may be null, and the outcome of an
 * operation that either returns a value or throws.
 */
module Failures {

  /** A Java reference that may be null. */
  datatype Option<+T> = None | Some(value: T)

  /**
   * The two kinds of exception the controller tells apart:
   * IllegalArgumentException, and every other exception, which the
   * controller only inspects through its message.
   */
  datatype Failure =
    | IllegalArgument(message: string)
    | OtherException(message: string)

  /** What a call returns: a value, or the exception it throws. */
  datatype Result<+T> = Ok(value: T) | Thrown(failure: Failure)
}
