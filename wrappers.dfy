/** Outcomes of operations that may throw a Java exception, and optional values. */
module Wrappers {
  /** The Java exceptions the modelled code throws on purpose or by an out-of-range access. */
  datatype JavaException =
    | IllegalArgument
    | IllegalState
    | IndexOutOfBounds
    | NegativeArraySize
    | NullPointer
    | NumberFormat
    | Runtime

  /** The result of a call: a value, or the exception it throws. */
  datatype Outcome<T> = Ok(value: T) | Throws(exception: JavaException)
  {
    predicate IsOk() { Ok? }
  }

  /** A Java reference that may be `null`, or a `double` that may be `NaN`. */
  datatype Option<T> = None | Some(value: T)
}
