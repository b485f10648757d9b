/** Optional values (Java `null`) and results that may carry a thrown exception. */
module Wrappers {

  /** A value that may be absent, standing for a nullable Java reference. */
  datatype Option<+T> = None | Some(value: T)

  /** The runtime exceptions the modelled code can raise. */
  datatype Error =
    /** `List.subList` called with a negative start index. */
    | IndexOutOfBounds

  /** A normal return, or the exception that ends the call. */
  datatype Result<+T> = Success(value: T) | Failure(error: Error)
}
