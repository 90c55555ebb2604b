/** Option and Result, and the error taxonomy shared by every component. */
module Wrappers {

  datatype Option<+T> = None | Some(value: T)

  /** The kinds of failure the program distinguishes. `Abort` stands for a Rust
      panic (`unwrap`, `expect`, an out-of-range `Vec` index): the process dies. */
  datatype Error =
    | ProcessError(context: string)   // a subprocess exited non-zero
    | ProtocolError(context: string)  // chooser output or exit code not understood
    | ParseError(line: string)        // a history listing line has the wrong shape
    | Abort(reason: string)           // a panic

  datatype Result<+T> = Ok(value: T) | Err(error: Error) {
    predicate IsFailure() { Err? }
    function PropagateFailure<U>(): Result<U>
      requires Err?
    {
      Err(error)
    }
    function Extract(): T
      requires Ok?
    {
      value
    }
  }
}
