/** Shared wrappers: optional values, the application's error value and
    the `AppResult` used by every command. */
module Base {

  /** An optional value, as Rust's `Option`. */
  datatype Option<+T> = None | Some(value: T)

  /** The error kinds this core raises; every error here is a state error. */
  datatype ErrorKind = StateError

  /** An error carrying a kind and a human-readable message. */
  datatype AppError = AppError(kind: ErrorKind, message: string)

  /** A value or an error, as Rust's `Result<T, AppError>`. */
  datatype Result<+T> = Ok(value: T) | Err(error: AppError)

  /** The result of a command that produces no value (`AppResult<()>`). */
  type AppResult = Result<()>

  /** Path values are handled as plain strings. */
  type Path = string
}
