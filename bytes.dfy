/** Unsigned machine integers and the big-endian `u16` framing used on the wire and in flash. */
module Bytes {

  newtype u8 = x: int | 0 <= x < 0x100
  newtype u16 = x: int | 0 <= x < 0x1_0000

  const U16_MODULUS: nat := 0x1_0000

  /** `u16::to_be_bytes(n as u16)`: the cast keeps the low 16 bits, high byte first. */
  function BeU16(n: nat): (r: seq<u8>)
    ensures |r| == 2
    ensures BeU16Value(r[0], r[1]) == n % U16_MODULUS
  {
    var m := n % U16_MODULUS;
    [(m / 0x100) as u8, (m % 0x100) as u8]
  }

  /** `u16::from_be_bytes([hi, lo])`. */
  function BeU16Value(hi: u8, lo: u8): (n: nat)
    ensures n < U16_MODULUS
    ensures n / 0x100 == hi as int && n % 0x100 == lo as int
  {
    hi as int * 0x100 + lo as int
  }

  /** Reading two bytes as a `u16` and writing the value back gives the same two bytes. */
  lemma BeU16OfValue(hi: u8, lo: u8)
    ensures BeU16(BeU16Value(hi, lo)) == [hi, lo]
  {
    var n := BeU16Value(hi, lo);
    assert n % U16_MODULUS == n;
  }

  /** The `as u16` cast leaves a value that already fits unchanged. */
  lemma FitsU16(n: nat)
    requires n < U16_MODULUS
    ensures n % U16_MODULUS == n
  {
  }
}
