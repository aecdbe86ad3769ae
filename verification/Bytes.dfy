/** Byte sequences and the small result types shared by every other module. */
module Bytes {

  datatype Option<+T> = None | Some(value: T)

  type byte = x: int | 0 <= x < 256

  type Bytes = seq<byte>

  const TWO_32 := 0x1_0000_0000
  const TWO_63 := 0x8000_0000_0000_0000
  const TWO_64 := 0x1_0000_0000_0000_0000

  type uint32 = n: int | 0 <= n < TWO_32

  type uint64 = n: int | 0 <= n < TWO_64

  type int64 = n: int | -TWO_63 <= n < TWO_63

  predicate StartsWith(s: Bytes, prefix: Bytes) {
    |prefix| <= |s| && s[..|prefix|] == prefix
  }
}
