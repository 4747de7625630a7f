/** Option and Result types standing for Java's null and for the exceptions the containers throw. */
module Wrappers {

  /** None stands for a Java null reference (an absent argument or an absent answer). */
  datatype Option<T> = None | Some(value: T)

  /** The Java exceptions raised by the containers. */
  datatype Exception =
    | NullPointer            // java.lang.NullPointerException
    | IllegalArgument        // java.lang.IllegalArgumentException
    | IndexOutOfBounds       // java.lang.IndexOutOfBoundsException
    | ArrayIndexOutOfBounds  // java.lang.ArrayIndexOutOfBoundsException
    | NoSuchElement          // java.util.NoSuchElementException

  /** A call either returns a value or throws. */
  datatype Result<T> = Success(value: T) | Failure(error: Exception)
}
