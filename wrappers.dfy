/** Option and Result values used by every module of the model.
    A JavaScript `null`/missing value becomes `None`; a thrown Error becomes `Err`. */
module Wrappers {

  datatype Option<+T> = None | Some(value: T) {
    function GetOr(default: T): T {
      match this
      case Some(v) => v
      case None => default
    }
  }

  datatype Result<+T, +E> = Ok(value: T) | Err(error: E)
}
