/** Option and Result types, and the errors the decoder raises. */
module Wrappers {

  datatype Option<+T> = None | Some(value: T)

  /** The failures of `stream_inflate`. `BackwardsTooFar` is the bare `Exception`
      raised by `from_cache`; `IndexOutOfRange` is the `IndexError` raised when a
      decoded symbol indexes past the end of a length or distance table. */
  datatype Error =
    | TruncatedData
    | UnsupportedBlockType(blockType: int)
    | BackwardsTooFar
    | IndexOutOfRange

  datatype Result<+T> = Ok(value: T) | Err(error: Error)
}
