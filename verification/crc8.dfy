/** The 8-bit CRC of the `crc` package that both framing layers use:
    polynomial x^8 + x^2 + x + 1 (0x07), initial value 0, no reflection and
    no final xor. */
module Crc {
  import opened Bytes

  const Polynomial: bv8 := 0x07

  /** One bit of the shift register: shift left, and fold the polynomial
      back in when a one drops out of the top bit. */
  function ShiftBit(c: bv8): bv8 {
    if c & 0x80 == 0 then c << 1 else (c << 1) ^ Polynomial
  }

  /** The register value of a byte. */
  function ToBits(b: Byte): bv8 {
    b as bv8
  }

  /** Feeds one byte into the register `crc`. */
  function UpdateByte(crc: bv8, b: Byte): bv8 {
    var c := crc ^ ToBits(b);
    ShiftBit(ShiftBit(ShiftBit(ShiftBit(ShiftBit(ShiftBit(ShiftBit(ShiftBit(c))))))))
  }

  /** Feeds `s` byte by byte, from the first to the last, into the register `crc`. */
  function CrcFrom(crc: bv8, s: seq<Byte>): bv8
    decreases |s|
  {
    if |s| == 0 then crc else CrcFrom(UpdateByte(crc, s[0]), s[1..])
  }

  /** The byte a register holds. */
  function FromBits(c: bv8): Byte {
    c as int as Byte
  }

  /** Reading a register out as a byte and feeding it back in gives the same
      register. */
  lemma BitsRoundTrip(c: bv8)
    ensures ToBits(FromBits(c)) == c
  {
  }

  /** `crc8` of the `crc` package. */
  function Crc8(s: seq<Byte>): Byte {
    FromBits(CrcFrom(0, s))
  }

  /** The register can be carried across a split of the input: the CRC of a
      concatenation is the CRC of the second part started from the first's. */
  lemma {:induction false} CrcFromConcat(crc: bv8, a: seq<Byte>, b: seq<Byte>)
    ensures CrcFrom(crc, a + b) == CrcFrom(CrcFrom(crc, a), b)
    decreases |a|
  {
    if |a| == 0 {
      assert a + b == b;
    } else {
      assert (a + b)[0] == a[0];
      assert (a + b)[1..] == a[1..] + b;
      CrcFromConcat(UpdateByte(crc, a[0]), a[1..], b);
    }
  }

  /** Appending a message's own CRC drives the register to zero, which is
      what makes a trailing check byte verifiable. */
  lemma CrcResidueZero(s: seq<Byte>)
    ensures Crc8(s + [Crc8(s)]) == 0
  {
    var c := CrcFrom(0, s);
    CrcFromConcat(0, s, [Crc8(s)]);
    assert CrcFrom(c, [Crc8(s)]) == CrcFrom(UpdateByte(c, Crc8(s)), []);
    UpdateOwnValue(c);
  }

  /** Feeding the register its own value clears it. */
  lemma UpdateOwnValue(c: bv8)
    ensures UpdateByte(c, FromBits(c)) == 0
    ensures FromBits(UpdateByte(c, FromBits(c))) == 0
  {
    BitsRoundTrip(c);
    assert c ^ ToBits(FromBits(c)) == 0;
    assert ShiftBit(0) == 0;
  }

  /** One byte of a CRC computation: on the input's `k`-th byte, `b`, the
      register moves from `c` to `c'`. */
  lemma CrcStep(c: bv8, s: seq<Byte>, k: nat, b: Byte, c': bv8)
    requires k < |s| && s[k] == b && UpdateByte(c, b) == c'
    ensures CrcFrom(c, s[k..]) == CrcFrom(c', s[k + 1..])
  {
    assert s[k..][1..] == s[k + 1..];
  }
}
