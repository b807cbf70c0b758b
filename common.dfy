/** Small wrappers shared by every module of the backend model. */
module Common {

  /** A value that may be absent (JavaScript's `undefined`). */
  datatype Option<T> = None | Some(value: T) {
    /** The value, or `default` when absent (a schema default, for one). */
    function GetOr(default: T): T {
      match this
      case Some(v) => v
      case None => default
    }
  }

  /** What a controller sends back: a status code with a JSON body, or a status code with `{ message }`. */
  datatype Response<T> = Ok(status: int, body: T) | Fail(status: int, message: string)
}
