/** Shared value types: an optional value, for missing keys and failed parses, and a byte. */
module Common {
  datatype Option<+T> = None | Some(value: T)

  type Byte = b: int | 0 <= b < 256
}
