/** Failure-carrying result types shared by every module of the model.
    `Error` names the Python exception the original code raises, with its message. */
module Wrappers {

  datatype Option<+T> = None | Some(value: T)

  /** The exceptions the modelled code raises, each with the text the source gives it. */
  datatype Error =
    | ValueError(message: string)
    | FileNotFoundError(message: string)
    | JsonDecodeError(path: string)
    | RuntimeError(message: string)

  datatype Result<+T> = Success(value: T) | Failure(error: Error) {
    predicate IsFailure() { Failure? }

    function PropagateFailure<U>(): Result<U>
      requires Failure?
    {
      Failure(error)
    }

    function Extract(): T
      requires Success?
    {
      value
    }
  }
}
