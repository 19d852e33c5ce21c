/** Option and Result values, and the exceptions the solver raises, as data. */
module Wrappers {

  datatype Option<T> = None | Some(value: T)

  /** The exception classes raised by the modelled code. */
  datatype Error =
    | SolverException
    | InvalidConstraint
    | InvalidDependencyString
    | NoPackageFound
    | KeyError
    | ValueError
    | TypeError
    | AttributeError
    | IndexError
    | AssertionError

  datatype Result<T> = Ok(value: T) | Err(error: Error)
  {
    predicate IsFailure() { Err? }

    function PropagateFailure<U>(): Result<U>
      requires Err?
    {
      Err(error)
    }

    function Extract(): T
      requires Ok?
    {
      value
    }
  }
}
