/** Outcomes shared by the two batch tools: every failure in them is fatal
    (the Go code calls log.Fatalln or log.Panicln), so a run either completes
    with a value or stops with the first failure it meets. */
module Outcomes {

  /** The kinds of fatal failure the two tools can meet. */
  datatype Failure =
    | TransportError  // http.Get failed
    | ReadError       // reading a response body or a file failed
    | DecodeError     // a page body was not valid JSON
    | StoreError      // creating a directory or writing a file failed
    | FormatError     // the `dart format` process failed

  datatype Result<T> = Ok(value: T) | Err(error: Failure)

  datatype Option<T> = None | Some(value: T)
}
