/** Error values and the success/failure wrappers the codec returns in place of
    Python's exceptions and None. */
module Status {

  datatype Option<+T> = None | Some(value: T)

  /** The kinds of ValueError the codec raises; the wrapping kinds mirror the
      "Encoding failed: ..." and "Combined encoding failed: ..." re-raises. */
  datatype Error =
    | NoImageLoaded
    | EmptyMessage
    | MessageTooLarge
    | NoAlphaChannel
    | InvalidCharacter
    | EncodingFailed(cause: Error)
    | CombinedEncodingFailed(cause: Error)

  datatype Result<+T> = Success(value: T) | Failure(error: Error)

  /** The outcome of an operation that returns nothing but may raise. */
  datatype Outcome = Pass | Fail(error: Error)
}
