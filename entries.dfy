/** The Entry capability that every ring of the library is generic over,
    and the fixed-width unsigned integers the library computes with. */
module Entries {

  /** A value placed on a ring: a stable identity key (`Key()`) and the
      diagnostic text form (`String()`). Only the key is ever compared. */
  datatype Entry = Entry(key: string, text: string)

  datatype Option<T> = None | Some(value: T)

  const TwoTo32: int := 0x1_0000_0000
  const TwoTo64: int := 0x1_0000_0000_0000_0000

  /** Go's `uint32`. */
  type u32 = x: int | 0 <= x < 0x1_0000_0000

  /** Go's `uint64`. */
  type u64 = x: int | 0 <= x < 0x1_0000_0000_0000_0000
}
