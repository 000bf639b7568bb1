/** Success and failure values shared by the validator, the user store and the
    authentication flows. A failure carries the message that the handler rejects
    its promise with. */
module Results {

  /** A value that may be absent; `None` also stands for JavaScript's `undefined`. */
  datatype Option<+T> = None | Some(value: T)

  /** The settled state of a promise: fulfilled with a value or rejected with an error message. */
  datatype Result<+T> = Ok(value: T) | Err(msg: string)

  /** The settled state of a promise that fulfils with no value. */
  datatype Outcome = Pass | Fail(msg: string)
}
