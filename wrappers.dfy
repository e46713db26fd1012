/** Python's `None`-or-value results and raised-or-returned outcomes, shared by every module of the model. */
module Wrappers {

  datatype Option<+T> = None | Some(value: T)
  {
    /** Python's `x if x is not None else default`. */
    function UnwrapOr(default: T): T
    {
      match this
      case Some(v) => v
      case None => default
    }
  }

  /** A call that either returns `value` or raises `error`. */
  datatype Result<+T, +E> = Ok(value: T) | Err(error: E)
}
