/** Error values and the Option/Result wrappers used by the record store model. */
module Errors {

  /** The failures the store surfaces to its caller. */
  datatype IoError =
    | StatFailed      // os.Stat of the backing file failed while opening the store
    | WriteFailed     // the buffered writer reported an error (sticky once set)
    | NegativeOffset  // a positional read was given an offset that is negative as an int64
    | ReadPastEnd     // a positional read could not be satisfied in full (io.EOF)
    | CloseFailed     // closing the backing file reported an error

  datatype Option<T> = None | Some(value: T)

  datatype Result<T> = Ok(value: T) | Err(error: IoError)
}
