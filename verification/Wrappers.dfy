/** Failure-compatible result types shared by every module. */
module Wrappers {

  datatype Option<+T> = None | Some(value: T)

  /** Why an operation of the streamer stops. `Panicked` stands for a failed `assert!` or `unwrap()`. */
  datatype Error =
    | UnexpectedEof
    | DecodeFailed
    | Malformed
    | BadHeader
    | UnmatchedRemaps
    | UnexpectedMarker
    | UnexpectedData
    | UnexpectedImageEof
    | NoShards
    | RequestedTwice
    | Panicked

  datatype Result<+T> = Ok(value: T) | Err(error: Error) {
    predicate IsFailure() {
      Err?
    }

    function PropagateFailure<U>(): Result<U>
      requires Err?
    {
      Err(error)
    }

    function Extract(): T
      requires Ok?
    {
      value
    }
  }
}
