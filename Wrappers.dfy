/** Failure-carrying results, and the JVM exceptions the dialogue code can raise. */
module Wrappers {

  /** A value or the exception that stopped the computation. */
  datatype Result<+T, +E> = Success(value: T) | Failure(error: E)

  /** Completion of an operation that returns nothing (Kotlin `Unit`) or throws. */
  datatype Outcome<+E> = Pass | Fail(error: E)

  /** The exceptions the modelled code throws, by kind. */
  datatype JavaException =
    | IllegalArgument(message: string)   // IllegalArgumentException with its message
    | IndexOutOfBounds                   // ArrayList / Array index outside the valid range
    | ClassCast                          // `as Boolean` applied to a value that is not a Boolean
}
