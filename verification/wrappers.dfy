/** Option and Result, the two failure-carrying shapes the server's
    interface uses (`Option<u32>` for a queued frame, `PduResult` for
    channel processing). */
module Wrappers {

  datatype Option<+T> = None | Some(value: T)

  datatype Result<+T, +E> = Success(value: T) | Failure(error: E)
}
