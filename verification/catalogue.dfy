/** The reference input against which CRC catalogues quote every CRC's
    check value. */
module Catalogue {
  /** The ASCII bytes "123456789". */
  const CheckInput: seq<bv8> := [0x31, 0x32, 0x33, 0x34, 0x35, 0x36, 0x37, 0x38, 0x39]
}
