/** Value wrappers shared by every module: optional values (Python's None),
    results with an error (a raised exception), and timestamps. */
module Types {

  datatype Option<T> = None | Some(value: T) {
    function GetOr(default: T): T {
      match this
      case Some(v) => v
      case None => default
    }
  }

  datatype Result<T, E> = Ok(value: T) | Err(error: E)

  /** A naive UTC timestamp, in whole seconds since 1970-01-01 00:00:00 UTC. */
  type Instant = int
}
