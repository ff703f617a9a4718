/** Optional values and handler outcomes, shared by every module of the model. */
module Wrappers {

  /** An optional value: a JavaScript `undefined`/`null` result or a found element. */
  datatype Option<+T> = None | Some(value: T) {

    /** The wrapped value, or `default` when there is none (JavaScript's `x || default` on a lookup). */
    function GetOr(default: T): T {
      match this
      case Some(v) => v
      case None => default
    }
  }

  /** The outcome of a request handler: an updated value, or the error page it answers with. */
  datatype Result<+T, +E> = Ok(value: T) | Err(error: E)
}
