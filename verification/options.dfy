/** Failure-carrying wrappers used where the scripts produce "no value"
    (a NaN column) or stop with an error. */
module Options {

  /** A value that may be absent; `None` stands for a column of NaN. */
  datatype Option<+T> = None | Some(value: T)

  /** The outcome of a step that may stop the script with an error. */
  datatype Result<+T, +E> = Ok(value: T) | Err(error: E)
}
