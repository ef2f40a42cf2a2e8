/** Optional values and success-or-error results used throughout the model.
    Python code signals absence with `None` and failure with an exception;
    both become explicit values here. */
module Results {

  datatype Option<T> = None | Some(value: T) {

    /** The wrapped value, or `default` when there is none. */
    function GetOr(default: T): T {
      match this
      case Some(v) => v
      case None => default
    }
  }

  datatype Result<T, E> = Ok(value: T) | Err(error: E)
}
