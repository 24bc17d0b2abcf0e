/** Bytes as the C++ code handles them: unsigned (quint8) values, and the
    signed reading that `char` and qint8 give the same bits. */
module Bytes {

  /** An unsigned byte (quint8). */
  newtype Byte = x: int | 0 <= x < 256

  /** The value of a byte read as a signed char or qint8 (two's
      complement). */
  function SignedByte(b: Byte): (v: int)
    ensures -0x80 <= v < 0x80
    ensures v % 0x100 == b as int
    ensures v == b as int || v == b as int - 0x100
  {
    if b < 0x80 then b as int else b as int - 0x100
  }
}
