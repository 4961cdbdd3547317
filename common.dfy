/** Small shared vocabulary: an optional value and the byte type used for serialized programs. */
module Common {

  datatype Option<+T> = None | Some(value: T)

  /** One octet of a Go []byte. */
  type byte = b: int | 0 <= b < 256
}
