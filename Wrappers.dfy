/** Failure-carrying result types shared by all modules. A Java `null`
    argument is modelled as `None`; a thrown exception as `Failure`/`Fail`. */
module Wrappers {

  datatype Option<+T> = None | Some(value: T)

  /** The exceptions the modelled classes throw on bad input. */
  datatype Error =
    | IllegalArgument       // java.lang.IllegalArgumentException
    | NoSuchElement         // java.util.NoSuchElementException
    | UnsupportedOperation  // java.lang.UnsupportedOperationException
    | ArrayIndexOutOfBounds // java.lang.ArrayIndexOutOfBoundsException

  datatype Result<+R> = Success(value: R) | Failure(error: Error)

  /** The outcome of a `void` method that may throw. */
  datatype Outcome = Pass | Fail(error: Error)
}
