/** Result and outcome values standing in for Go's `(value, error)` pairs and
    for the places where the program would call `logger.Fatal`, `CheckError`
    or panic. */
module Wrappers {

  datatype Option<+T> = None | Some(value: T)

  /** A value or the error that replaced it; usable with `:-`. */
  datatype Result<+T, +E> = Ok(value: T) | Err(error: E) {
    predicate IsFailure() {
      Err?
    }

    function PropagateFailure<U>(): Result<U, E>
      requires Err?
    {
      Err(error)
    }

    function Extract(): T
      requires Ok?
    {
      value
    }
  }

  /** Success, or the error a Go function would have returned. */
  datatype Outcome<+E> = Pass | Fail(error: E)
}
