/** Failure-compatible result types shared by every cipher module, and the
    errors the library raises. */
module Wrappers {

  datatype Option<+T> = None | Some(value: T)

  datatype Result<+T, +E> = Success(value: T) | Failure(error: E) {
    predicate IsFailure() { Failure? }

    function PropagateFailure<U>(): Result<U, E>
      requires Failure?
    {
      Failure(error)
    }

    function Extract(): T
      requires Success?
    {
      value
    }
  }

  datatype Outcome<+E> = Pass | Fail(error: E) {
    predicate IsFailure() { Fail? }

    function PropagateFailure<U>(): Result<U, E>
      requires Fail?
    {
      Failure(error)
    }
  }

  /** The exceptions the library lets escape: a `ValueError` with its
      message; the `ZeroDivisionError` of a `%` by zero; the `TypeError`
      with its message that `ord` raises on a string longer than one
      character; and, standing for a
      code point that Python's `chr` accepts but a Dafny `char` cannot hold
      (a lone surrogate), `Unrepresentable`. */
  datatype Error =
    | ValueError(message: string)
    | ModuloByZero
    | TypeError(message: string)
    | Unrepresentable(codePoint: int)
}
