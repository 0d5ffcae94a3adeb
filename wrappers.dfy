/** Optional values and the service's not-found results. */
module Wrappers {

  datatype Option<T> = None | Some(value: T)

  /** A value, or the message of the `NotFoundException` the service throws instead. */
  datatype Result<T> = Success(value: T) | Failure(message: string)
}
