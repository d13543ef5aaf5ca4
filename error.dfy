/** The crate's error type and the result wrappers the operations return. */
module Errors {

  /** A message error (what `Error::from(&str)` builds), an I/O failure, or a failure of the storage backend. */
  datatype Error = Custom(msg: string) | Io | Db(reason: string)

  datatype Option<+T> = None | Some(value: T)

  /** `Result<T>` of the crate: `Ok` or an `Error`; usable with `:-`. */
  datatype Result<+T> = Ok(value: T) | Err(error: Error) {
    predicate IsFailure() {
      Err?
    }

    function PropagateFailure<U>(): Result<U>
      requires Err?
    {
      Err(error)
    }

    function Extract(): T
      requires Ok?
    {
      value
    }
  }
}
