/** Bytes, and numbers as bytes in little-endian order. */
module Bytes {

  type Byte = b: int | 0 <= b < 0x100

  /** Byte i of a 32-bit number, from the low end. */
  function ValueByte(val: nat, i: nat): Byte
    requires i < 4
  {
    if i == 0 then val % 0x100 else if i == 1 then val / 0x100 % 0x100
    else if i == 2 then val / 0x1_0000 % 0x100 else val / 0x100_0000 % 0x100
  }

  lemma Packed16(val: nat)
    ensures ValueByte(val, 0) + 0x100 * ValueByte(val, 1) == val % 0x1_0000
  {
  }

  lemma Packed32(val: nat)
    requires val < 0x1_0000_0000
    ensures ValueByte(val, 0) + 0x100 * ValueByte(val, 1) + 0x1_0000 * ValueByte(val, 2)
      + 0x100_0000 * ValueByte(val, 3) == val
  {
    Quotients(val);
    var q1 := val / 0x100;
    var q2 := q1 / 0x100;
    var q3 := q2 / 0x100;
    LowByte(val);
    LowByte(q1);
    LowByte(q2);
    LowByte(q3);
  }

  lemma LowByte(v: nat)
    ensures v == v % 0x100 + 0x100 * (v / 0x100)
  {
  }

  lemma Quotients(v: nat)
    ensures v / 0x1_0000 == v / 0x100 / 0x100 && v / 0x100_0000 == v / 0x100 / 0x100 / 0x100
  {
  }
}
