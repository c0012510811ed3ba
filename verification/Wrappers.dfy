/** Success or failure, for the source's return values and exceptions. */
module Wrappers {

  datatype Option<+T> = None | Some(value: T)

  /** A `Failure` stands for any raised exception; the exception's class is not kept. */
  datatype Result<+T> = Failure | Success(value: T) {

    predicate IsFailure() {
      Failure?
    }

    function PropagateFailure<U>(): Result<U>
      requires Failure?
    {
      Failure
    }

    function Extract(): T
      requires Success?
    {
      value
    }
  }
}
