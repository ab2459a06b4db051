/** Result types shared by the model: a value that may be missing, and a call that may throw. */
module Wrappers {

  datatype Option<+T> = None | Some(value: T) {
    function UnwrapOr(default: T): T {
      if Some? then value else default
    }

    /** This value, or the other one where it is missing. */
    function Else(other: Option<T>): Option<T> {
      if Some? then this else other
    }
  }

  /** The objection, if there is cause for it. */
  function If<T>(cause: bool, objection: T): Option<T> {
    if cause then Some(objection) else None
  }

  datatype Result<+T, +E> = Ok(value: T) | Err(error: E)

  function Max(a: int, b: int): int { if a < b then b else a }

  function Min(a: int, b: int): int { if a < b then a else b }
}
