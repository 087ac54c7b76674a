/** Optional values and success/failure outcomes shared by the decoders. */
module Wrappers {

  /** Python's `None` versus a present value. */
  datatype Option<+T> = None | Some(value: T)

  /** The outcome of a decoder call that may raise. */
  datatype Result<+R, +E> = Success(value: R) | Failure(error: E)
}
