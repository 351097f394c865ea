/** Failure-carrying results shared by the collection model. */
module Wrappers {

  /** A possibly absent value: PHP's `false`/`null` "not found" answers. */
  datatype Option<+T> = None | Some(value: T) {
    function GetOr(default: T): T {
      match this
      case Some(v) => v
      case None => default
    }
  }

  /** The only failure the collection raises: PHP's InvalidArgumentException,
      thrown by a validator that rejects an element. */
  datatype Error = InvalidArgument

  /** Either the value an operation returns or the exception it throws. */
  datatype Result<+T> = Ok(value: T) | Err(error: Error)
}
