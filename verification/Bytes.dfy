/** Fixed-width integers of the C sources, as ranges of the mathematical integers. */
module Bytes {
  type byte = b: int | 0 <= b < 256
  type uint16 = w: int | 0 <= w < 65536
  type int16 = w: int | -32768 <= w < 32768

  /** The big-endian 16-bit word of two bytes. */
  function Word(hi: byte, lo: byte): uint16 {
    256 * (hi as int) + lo
  }

  function Hi(w: uint16): byte {
    w / 256
  }

  function Lo(w: uint16): byte {
    w % 256
  }
}
