/** Option and Result values for the optional extras of an intent and for the
    faults of the activity. */
module Results {

  datatype Option<T> = None | Some(value: T) {
    /** The value, or `default` when there is none (Kotlin's `?:`). */
    function GetOr(default: T): T {
      match this
      case Some(v) => v
      case None => default
    }
  }

  datatype Result<T, E> = Ok(value: T) | Err(error: E)
}
