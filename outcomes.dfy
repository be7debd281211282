/** Failure-carrying result types shared by the vector, matrix and elimination modules. */
module Outcomes {

  /** Why an operation stops instead of producing a value. Rust panics on an
      out-of-range index and on a failed `assert!`; a zero divisor gives a
      non-finite float for `f64` (and a panic for integer scalars). */
  datatype FaultKind = IndexOutOfRange | LengthMismatch | DivisionByZero

  /** Rust's `Option`. */
  datatype Option<+T> = None | Some(value: T)

  /** The value an operation returns, or the fault that stops it. */
  datatype Result<+T> = Ok(value: T) | Fault(kind: FaultKind)
}
