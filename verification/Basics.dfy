/** Types shared by every module: bytes, machine words and optional values. */
module Basics {

  type byte = x: int | 0 <= x < 0x100
  type Bytes = seq<byte>

  /** A Go string used as a cache key: an arbitrary byte sequence. */
  type Key = Bytes

  const TWO_TO_THE_32: int := 0x1_0000_0000
  const TWO_TO_THE_64: int := 0x1_0000_0000_0000_0000

  type uint32 = x: int | 0 <= x < TWO_TO_THE_32
  type uint64 = x: int | 0 <= x < TWO_TO_THE_64

  datatype Option<+T> = None | Some(value: T)
}
