/** Option and Result, the two wrappers the model uses for absent values and
    for operations that can fail. */
module Wrappers {

  /** `None` stands for a JavaScript value that is `undefined` or `null`. */
  datatype Option<+T> = None | Some(value: T)

  datatype Result<+R, +E> = Success(value: R) | Failure(error: E)
}
