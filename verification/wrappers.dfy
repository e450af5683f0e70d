/** Failure-carrying results shared by the whole model.

    The C# code signals failure by throwing; every operation that can throw
    returns a `Result` here, and the exception class becomes an `Error`.
 */
module Wrappers {

  /** An optional value; `None` also stands for a C# `null` reference. */
  datatype Option<+T> = None | Some(value: T)

  /** The .NET exception classes the modelled code throws. */
  datatype Error =
    | ArgumentNull            // ArgumentNullException
    | Argument(message: string) // ArgumentException
    | ArgumentOutOfRange      // ArgumentOutOfRangeException (Array.Resize with a negative size)
    | IndexOutOfRange         // IndexOutOfRangeException
    | InvalidOperation        // InvalidOperationException (including Enumerable.Single)
    | KeyNotFound             // KeyNotFoundException (dictionary indexer on a missing key)

  datatype Result<+T> = Ok(value: T) | Err(error: Error) {
    predicate IsFailure() {
      Err?
    }

    function PropagateFailure<U>(): Result<U>
      requires Err?
    {
      Err(error)
    }

    function Extract(): T
      requires Ok?
    {
      value
    }
  }
}
