/** Failure-carrying result types shared by the model. */
module Wrappers {

  /** A value or nothing: the model of a Java method that may return `null`. */
  datatype Option<+T> = None | Some(value: T)

  /** A value or an error: the model of a call that may throw. */
  datatype Result<+T, +E> = Success(value: T) | Failure(error: E)

  /** The outcome of a loop the source runs without a bound: it either halts
      with a value or runs forever. */
  datatype Halting<+T> = Halts(value: T) | Diverges
}
