/** Small shared vocabulary: an optional value and an 8-bit channel value. */
module Base {

  /** A value that may be absent (Python's `None`). */
  datatype Option<+T> = None | Some(value: T)

  /** One unsigned 8-bit image channel, as stored in a `uint8` pixel buffer. */
  type Byte = x: int | 0 <= x < 256
}
