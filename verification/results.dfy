/** Failure-carrying return types shared by the decoders and the infrared controller. */
module Results {

  /** Either a decoded value or the reason the input was rejected. */
  datatype Result<+T, +E> = Ok(value: T) | Err(error: E)

  /** A value that may be absent. */
  datatype Option<+T> = None | Some(value: T)
}
