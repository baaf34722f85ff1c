/** The library's error taxonomy, and the small wrappers its operations return
    in place of thrown exceptions. */
module Errors {

  /** One constructor per exception class the operations raise; each carries
      the path string the exception message is built around. */
  datatype FsError =
    | NotAFile(path: string)
    | NotADirectory(path: string)
    | PathExists(path: string)
    | PathNotReadable(path: string)
    | PathNotWritable(path: string)
    | InvalidArgument(path: string)

  datatype Option<T> = None | Some(value: T)

  /** A value, or the error that was raised instead. */
  datatype Result<T> = Ok(value: T) | Err(error: FsError)

  /** Success of an operation that returns nothing, or the error raised. */
  datatype Outcome = Pass | Fail(error: FsError)
}
