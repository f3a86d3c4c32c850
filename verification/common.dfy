/** Small value types shared by the model: an optional value and a result
    that either carries a value or the message of the exception the Python
    code would raise. */
module Common {

  /** A value that may be absent; stands for a dictionary key that was never set. */
  datatype Option<+T> = None | Some(value: T) {

    /** Returns the carried value, or `default` when there is none. */
    function GetOr(default: T): T {
      match this
      case Some(v) => v
      case None => default
    }
  }

  /** Either a value or the text of the exception that ends the call. */
  datatype Result<+T> = Ok(value: T) | Err(message: string)
}
