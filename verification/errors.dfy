/** Exceptions the event buffer's code can raise, and the Result type that
    carries them instead of Python's non-local exit. */
module Errors {

  datatype Error =
    /** numpy refuses to allocate a tensor with a negative dimension. */
    | NegativeDimension
    /** A float division or floor division by zero: a zero step length, or a
        zero cell size inside the coordinate projection. */
    | ZeroDivision
    /** `round` of a NaN offset (Python raises ValueError). */
    | NaNOffset
    /** `round` of an infinite offset (Python raises OverflowError). */
    | InfiniteOffset

  datatype Result<+T> = Success(value: T) | Failure(error: Error)
}
