/** CRC-32 with the Castagnoli polynomial, reflected, as Go's hash/crc32 computes it. */
module Crc32c {
  import opened Bytes

  const POLY: nat := 0x82F6_3B78
  const ONES: nat := 0xFFFF_FFFF

  function Xor(a: nat, b: nat): nat {
    if a == 0 then b
    else if b == 0 then a
    else (a % 2 + b % 2) % 2 + 2 * Xor(a / 2, b / 2)
  }

  function ShiftBits(c: nat, bits: nat): nat
    decreases bits, c
  {
    if bits == 0 then c
    else ShiftBits(if c % 2 == 1 then Xor(c / 2, POLY) else c / 2, bits - 1)
  }

  function Fold(data: seq<byte>, c: nat): nat
    decreases |data|
  {
    if data == [] then c else Fold(data[1..], ShiftBits(Xor(c, data[0]), 8))
  }

  /** All intermediate values fit 32 bits, so the final reduction changes nothing. */
  function Checksum(data: seq<byte>): u32 {
    Xor(Fold(data, ONES), ONES) % TWO_32
  }
}
