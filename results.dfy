/** Swift's optionals and thrown errors, written as values. */
module Results {

  /** `T?`: a value or `nil`. */
  datatype Option<+T> = None | Some(value: T) {

    /** Swift's `??`: the value, or `default` when there is none. */
    function GetOr(default: T): T {
      if Some? then value else default
    }
  }

  /** What a `throws` function gives back: its value, or the error it threw. */
  datatype Result<+T, +E> = Ok(value: T) | Err(error: E)
}
