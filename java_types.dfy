/** The fixed-width Java primitive types the library's signatures use. */
module JavaTypes {

  /** Java `int`. */
  newtype int32 = x: int | -0x8000_0000 <= x < 0x8000_0000

  /** Java `long`. */
  newtype int64 = x: int | -0x8000_0000_0000_0000 <= x < 0x8000_0000_0000_0000

  /** An octet, read as the unsigned value of its eight bits. Java's `byte` is
      signed, but every consumer here (`Hex.encodeHexString`, the HMAC) only
      looks at the bit pattern, so the unsigned reading loses nothing. */
  newtype byte = x: int | 0 <= x < 256
}
