/** Option and Result wrappers, and the Python exceptions the modelled code raises. */
module Wrappers {

  datatype Option<T> = None | Some(value: T)

  /** The exception classes raised by the modelled functions. `Raised` stands for a bare `Exception`. */
  datatype Error = ValueError | IndexError | TypeError | AttributeError | AssertionError | UnboundLocalError | Raised

  datatype Result<T> = Ok(value: T) | Err(error: Error)
  {
    predicate IsFailure() { Err? }

    function PropagateFailure<U>(): Result<U>
      requires Err?
    {
      Err(error)
    }

    function Extract(): T
      requires Ok?
    {
      value
    }
  }
}
