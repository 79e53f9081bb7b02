/**
 * Values shared by the models of the Python code: bytes and optional results.
 */
module Common {
  /** A byte value, as the MIDI stream and the codecs handle it. */
  type Byte = x: int | 0 <= x < 256

  /** A result that may be missing, e.g. a read that ran out of bytes. */
  datatype Option<T> = None | Some(value: T)
}
