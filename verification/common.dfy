/** Failure-carrying wrappers shared by every module of the model. */
module Common {

  /** An optional value: the source's `null`/`undefined` versus a present value. */
  datatype Option<+T> = None | Some(value: T)

  /** The result of an operation that can throw: `Failure` carries what was thrown. */
  datatype Result<+T, +E> = Success(value: T) | Failure(error: E)
  {
    predicate IsFailure() { Failure? }

    function PropagateFailure<U>(): Result<U, E>
      requires Failure?
    {
      Failure(error)
    }

    function Extract(): T
      requires Success?
    {
      value
    }
  }
}
