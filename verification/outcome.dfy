/** Failure-compatible wrappers used by the readers and the scanner.
    - Option<T>: a value that may be absent (Python's `None`)
    - Result<T, E>: a value or the error that aborted its computation
    Both can be used with `:-`.
 */
module Outcome {

  /** An optional value; `None` stands for Python's `None` and, for the
      byte readers, for a short read. */
  datatype Option<+T> = None | Some(value: T) {

    predicate IsFailure() {
      None?
    }

    function PropagateFailure<U>(): Option<U>
      requires None?
    {
      None
    }

    function Extract(): T
      requires Some?
    {
      value
    }
  }

  /** A computed value or the error that stopped the computation. */
  datatype Result<+T, +E> = Ok(value: T) | Err(error: E) {

    predicate IsFailure() {
      Err?
    }

    function PropagateFailure<U>(): Result<U, E>
      requires Err?
    {
      Err(error)
    }

    function Extract(): T
      requires Ok?
    {
      value
    }
  }
}
