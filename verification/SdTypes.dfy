/** The integers and strings of the speed daemon's protocol. */
module SdTypes {
  type U8 = n: int | 0 <= n < 0x100
  type U16 = n: int | 0 <= n < 0x1_0000
  type U32 = n: int | 0 <= n < 0x1_0000_0000

  /** A string is its bytes. */
  type Str = seq<U8>
}
