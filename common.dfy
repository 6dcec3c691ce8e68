/** Values shared by the codecs and the template formatter. */
module Common {

  /** An octet, as Python's `bytes` holds them. */
  type byte = x: int | 0 <= x < 0x100

  /** A value that may be absent (a decoder that rejects its input). */
  datatype Option<+T> = None | Some(value: T)

  /** A value or the reason it could not be computed (an exception in the source). */
  datatype Result<+T, +E> = Ok(value: T) | Err(error: E)
}
