/** Small shared value types: an optional value and the byte type the encoders work on. */
module Wrappers {
  /** An optional value; `None` stands for Python's `None` and JavaScript's `null`. */
  datatype Option<+T> = None | Some(value: T)
}

module Bytes {
  /** An octet, as in a Python `bytes` object or a Node.js `Buffer`. */
  newtype byte = x: int | 0 <= x < 0x100
}
