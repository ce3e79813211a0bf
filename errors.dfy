/**
 * Failure values of the graph library. Every Java exception the core can
 * raise becomes a `Failure` carrying one of these kinds.
 */
module Errors {

  datatype Error =
    | IllegalArgument             // IllegalArgumentException: bad distance, or a negative HashMap capacity
    | UnsupportedFormat(fmt: int) // IllegalArgumentException raised by the METIS header check
    | LookupFailure(index: int)   // NullPointerException: vertex absent from the adjacency map
    | NoSuchElement               // NoSuchElementException: empty list, missing line or empty reduce
    | InputMismatch               // Scanner.nextInt on a token that is not an int
    | IndexOutOfBounds(at: int)   // IndexOutOfBoundsException: List.get past the end

  datatype Option<+T> = None | Some(value: T)

  datatype Result<+T> = Success(value: T) | Failure(error: Error)
}
