/** Option and Result as the Rust core uses them, and the I/O error it reports. */
module Wrappers {

  /** Rust's Option<T>. */
  datatype Option<+T> = None | Some(value: T)

  /** Rust's Result<T, E>. */
  datatype Result<+T, +E> = Ok(value: T) | Err(error: E)

  /** std::io::Error as the core creates it: `Error::last_os_error()` carries the
      code the OS reported for the failing call; `Error::new(ErrorKind::Other, msg)`
      carries a message. */
  datatype IoError = Os(code: int) | Custom(message: string)

  /** Rust's `Result::ok`: the success value, if any. */
  function OkValue<T, E>(r: Result<T, E>): Option<T>
  {
    match r
    case Ok(v) => Some(v)
    case Err(_) => None
  }
}
