/** Outcomes of the library's one-shot asynchronous operations.
    Every observable in the library emits exactly one value or exactly one
    error, so each operation is modelled as a single `Result`. */
module Results {

  /** The failures that reach a subscriber. */
  datatype Error =
    | PlatformError(message: string)  // a rejected WebCrypto promise; only its message is forwarded
    | RangeError                      // a 16-bit view over a buffer of odd byte length
    | SyntaxError                     // JSON or base64 text that cannot be decoded
    | NotFound(identifier: string)    // a storage identifier with no stored item

  datatype Result<+T> = Success(value: T) | Failure(error: Error)

  datatype Option<+T> = None | Some(value: T)
}
