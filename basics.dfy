/** Optional values, used for the results of the reference decoders. */
module Wrappers {
  datatype Option<+T> = None | Some(value: T)
}

/** Python `bytes` elements: integers in 0..255. */
module Bytes {
  type byte = b: int | 0 <= b < 256
}
