/** The two result types the models share: a missing value and a domain failure. */
module Wrappers {
  datatype Option<+T> = None | Some(value: T)

  datatype Result<+T, +E> = Success(value: T) | Failure(error: E)

  function GetOr<T>(a: Option<T>, default: T): T {
    if a.Some? then a.value else default
  }
}
