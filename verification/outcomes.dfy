/** Failure-carrying results shared by every component of the model.

    The source signals errors with JVM exceptions; here each exception a
    component throws is a `Fault` value returned through `Result`. */
module Outcomes {

  /** A value that may be absent: the model of a nullable reference. */
  datatype Option<+T> = None | Some(value: T) {
    function GetOr(default: T): T {
      match this
      case Some(v) => v
      case None => default
    }
  }

  /** Either the value an operation returns or the error it throws. */
  datatype Result<+T, +E> = Ok(value: T) | Err(error: E) {
    predicate IsFailure() {
      Err?
    }

    function PropagateFailure<U>(): Result<U, E>
      requires Err?
    {
      Err(error)
    }

    function Extract(): T
      requires Ok?
    {
      value
    }
  }

  /** The JVM exception classes thrown by the modelled code, each with the
      message the source attaches to it. */
  datatype Fault =
    | IllegalArgument(message: string)
    | IllegalState(message: string)
    | NullPointer(message: string)
    | NoSuchElement(message: string)
    | Cancellation(message: string)
}
