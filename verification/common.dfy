/** Shared vocabulary: bytes, 16-bit unsigned values and an optional value. */
module Common {

  /** One octet of a Node `Buffer`. */
  type byte = x: int | 0 <= x < 0x100

  /** The range of `Buffer.readUInt16LE`. */
  type uint16 = x: int | 0 <= x < 0x1_0000

  /** A value that may be missing; `None` stands for the JavaScript `null` the source returns. */
  datatype Option<+T> = None | Some(value: T)
}
