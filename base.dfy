/** Small shared vocabulary: optional values and bytes. */
module Base {

  /** A value that may be absent. */
  datatype Option<+T> = None | Some(value: T)

  /** One octet, as the Rust code's `u8`. */
  newtype byte = b: int | 0 <= b < 0x100
}
