/** Failure-compatible wrappers and the exception kinds the library raises. */
module Wrappers {

  /** The conventional Some/None datatype, standing for a value or Python's None. */
  datatype Option<+T> = None | Some(value: T)

  /** The Python exceptions that escape the modelled operations. */
  datatype Error =
    | KeyError
    | ValueError
    | IndexError
    | NotImplementedError
    | RuntimeError

  /** Either the value an operation returns or the exception it raises. */
  datatype Result<+R> = Success(value: R) | Failure(error: Error) {
    predicate IsFailure() {
      Failure?
    }

    function PropagateFailure<U>(): Result<U>
      requires Failure?
    {
      Failure(error)
    }

    function Extract(): R
      requires Success?
    {
      value
    }
  }
}
