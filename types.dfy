/** Fixed-width integer types of the C++ interface, and an Option type. */
module Types {

  /** One byte of a buffer (`char`), as an unsigned value. */
  newtype Byte = x: int | 0 <= x < 256

  /** An `uint32_t`. */
  type U32 = x: nat | x < 0x1_0000_0000

  /** A C++ `int` (32-bit, two's complement). */
  type Int32 = x: int | -0x8000_0000 <= x < 0x8000_0000

  datatype Option<+T> = None | Some(value: T)
}
