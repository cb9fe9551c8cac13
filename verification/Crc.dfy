/** The check sum of XMODEM packets: the remainder of the data, as a polynomial over the integers modulo 2,
    times x to the 16th, on division by x^16 + x^12 + x^5 + 1. */
module Crc {
  import opened Bytes

  function Xor(a: bv16, b: bv16): bv16 {
    a ^ b
  }

  predicate Top(r: bv16) {
    r & 0x8000 != 0
  }

  function Double(r: bv16): bv16 {
    r << 1
  }

  const DIVISOR: bv16 := 0x1021
  const TOP: bv16 := 0x8000

  /** Multiplies a remainder by x: by long division, the divisor is subtracted when x^16 appears. */
  function TimesX(r: bv16): bv16 {
    if Top(r) then Xor(Double(r), DIVISOR) else Double(r)
  }

  function Bit(b: bool, one: bv16): bv16 {
    if b then one else 0
  }

  /** The remainder of a polynomial with these coefficients, the highest one first. */
  function Remainder(bits: seq<bool>): bv16 {
    if bits == [] then 0 else Xor(TimesX(Remainder(bits[..|bits| - 1])), Bit(bits[|bits| - 1], 1))
  }

  function Zeros(n: nat): seq<bool> {
    if n == 0 then [] else Zeros(n - 1) + [false]
  }

  /** n multiplications by x. */
  function Shifted(r: bv16, n: nat): bv16 {
    if n == 0 then r else TimesX(Shifted(r, n - 1))
  }

  lemma TopXor(a: bv16, b: bv16)
    ensures Top(Xor(a, b)) == (Top(a) != Top(b))
  {
  }

  lemma DoubleXor(a: bv16, b: bv16)
    ensures Double(Xor(a, b)) == Xor(Double(a), Double(b))
  {
  }

  lemma XorAssociative(a: bv16, b: bv16, c: bv16)
    ensures Xor(Xor(a, b), c) == Xor(a, Xor(b, c))
  {
  }

  lemma XorCommutative(a: bv16, b: bv16)
    ensures Xor(a, b) == Xor(b, a) && Xor(a, a) == 0
  {
  }

  lemma XorTwice(a: bv16, b: bv16, p: bv16)
    ensures Xor(Xor(a, p), Xor(b, p)) == Xor(a, b) && Xor(Xor(a, b), p) == Xor(Xor(a, p), b) == Xor(a, Xor(b, p))
  {
    hide Xor;
    XorAssociative(a, p, Xor(b, p));
    XorCommutative(p, Xor(b, p));
    XorAssociative(b, p, p);
    XorCommutative(p, p);
    XorNothing(b);
    XorAssociative(a, b, p);
    XorAssociative(a, p, b);
    XorCommutative(b, p);
  }

  lemma XorNothing(r: bv16)
    ensures Xor(r, 0) == r && Xor(0, r) == r
  {
  }

  lemma Linear(a: bv16, b: bv16)
    ensures TimesX(Xor(a, b)) == Xor(TimesX(a), TimesX(b))
  {
    hide Top, Double, Xor;
    TopXor(a, b);
    DoubleXor(a, b);
    XorTwice(Double(a), Double(b), DIVISOR);
  }

  lemma {:induction false} ShiftedSum(a: bv16, b: bv16, n: nat)
    ensures Shifted(Xor(a, b), n) == Xor(Shifted(a, n), Shifted(b, n))
    decreases n
  {
    hide TimesX, Xor;
    if n > 0 {
      ShiftedSum(a, b, n - 1);
      Linear(Shifted(a, n - 1), Shifted(b, n - 1));
    }
  }

  lemma {:induction false} ShiftedMore(r: bv16, n: nat)
    ensures Shifted(TimesX(r), n) == TimesX(Shifted(r, n))
    decreases n
  {
    hide TimesX;
    if n > 0 {
      ShiftedMore(r, n - 1);
    }
  }

  lemma {:induction false} RemainderShifted(bits: seq<bool>, n: nat)
    ensures Remainder(bits + Zeros(n)) == Shifted(Remainder(bits), n)
    decreases n
  {
    hide TimesX, Xor;
    if n == 0 {
      assert bits + Zeros(0) == bits;
    } else {
      var s := bits + Zeros(n);
      assert s[..|s| - 1] == bits + Zeros(n - 1) && !s[|s| - 1];
      RemainderShifted(bits, n - 1);
      XorNothing(TimesX(Remainder(s[..|s| - 1])));
    }
  }

  /** The remainder of the polynomial times x^16. */
  function Check(bits: seq<bool>): bv16 {
    Remainder(bits + Zeros(16))
  }

  /** One bit more: it enters at the upper end. */
  lemma CheckBit(bits: seq<bool>, b: bool)
    ensures Check(bits + [b]) == TimesX(Xor(Check(bits), Bit(b, TOP)))
  {
    hide TimesX, Xor, Bit, Shifted, Zeros;
    RemainderShifted(bits + [b], 16);
    RemainderShifted(bits, 16);
    assert (bits + [b])[..|bits|] == bits;
    var r := Remainder(bits);
    ShiftedSum(TimesX(r), Bit(b, 1), 16);
    ShiftedMore(r, 16);
    Linear(Shifted(r, 16), Bit(b, TOP));
    ShiftedBit(b);
  }

  lemma CheckNone()
    ensures Check([]) == 0 && DataBits([]) == []
  {
    RemainderShifted([], 16);
    ShiftedBit(false);
  }

  /** x^16 leaves the remainder x^12 + x^5 + 1. */
  lemma ShiftedBit(b: bool)
    ensures Shifted(Bit(b, 1), 16) == TimesX(Bit(b, TOP)) && Shifted(0, 16) == 0
  {
    Steps(0);
    Steps(1);
  }

  lemma Unshifted(r: bv16, n: nat)
    ensures n > 0 ==> Shifted(r, n) == TimesX(Shifted(r, n - 1))
    ensures Shifted(r, 0) == r
  {
  }

  lemma Steps(r: bv16)
    requires r == 0 || r == 1
    ensures Shifted(r, 16) == if r == 0 then 0 else DIVISOR
  {
    assert Shifted(r, 4) == r << 4 by {
      assert Shifted(r, 2) == r << 2;
    }
    assert Shifted(r, 8) == r << 8 by {
      assert Shifted(r, 6) == r << 6;
    }
    assert Shifted(r, 12) == r << 12 by {
      assert Shifted(r, 10) == r << 10;
    }
    assert Shifted(r, 14) == r << 14;
    assert Shifted(r, 15) == r << 15;
  }

  predicate Top8(b: bv8) {
    b & 0x80 != 0
  }

  /** The bits of a byte, the highest one first. */
  function BitsOf(b: bv8, n: nat): (r: seq<bool>)
    ensures |r| == n
    decreases n
  {
    if n == 0 then [] else [Top8(b)] + BitsOf(b << 1, n - 1)
  }

  function DataBits(data: seq<Byte>): seq<bool> {
    if data == [] then [] else DataBits(data[..|data| - 1]) + BitsOf(data[|data| - 1] as bv8, 8)
  }

  /** A byte at the upper end of a remainder. */
  function Upper(b: bv8): bv16 {
    (b as bv16) << 8
  }

  function Left(b: bv8, n: nat): bv8
    decreases n
  {
    if n == 0 then b else Left(b << 1, n - 1)
  }

  /** Bits that enter one after the other. */
  function Fed(c: bv16, b: bv8, n: nat): bv16
    decreases n
  {
    if n == 0 then c else Fed(TimesX(Xor(c, Bit(Top8(b), TOP))), b << 1, n - 1)
  }

  lemma UpperParts(b: bv8)
    ensures Upper(b) == Xor(Bit(Top8(b), TOP), Upper(b & 0x7F)) && TimesX(Upper(b & 0x7F)) == Upper(b << 1)
  {
  }

  /** A byte that enters at once does the same as its bits. */
  lemma {:induction false} FedAtOnce(c: bv16, b: bv8, n: nat)
    ensures Shifted(Xor(c, Upper(b)), n) == Xor(Fed(c, b, n), Upper(Left(b, n)))
    decreases n
  {
    hide Xor, TimesX, Upper, Bit, Top8;
    if n > 0 {
      var t := Bit(Top8(b), TOP);
      UpperParts(b);
      XorAssociative(c, t, Upper(b & 0x7F));
      Linear(Xor(c, t), Upper(b & 0x7F));
      ShiftedMore(Xor(c, Upper(b)), n - 1);
      FedAtOnce(TimesX(Xor(c, t)), b << 1, n - 1);
    }
  }

  lemma NoneLeft(b: bv8)
    ensures b << 1 << 1 << 1 << 1 << 1 << 1 << 1 << 1 == 0
  {
  }

  lemma AllOut(b: bv8)
    ensures Left(b, 8) == 0 && Upper(0) == 0
  {
    var b1 := b << 1;
    var b2 := b1 << 1;
    var b3 := b2 << 1;
    var b4 := b3 << 1;
    var b5 := b4 << 1;
    var b6 := b5 << 1;
    var b7 := b6 << 1;
    assert Left(b, 8) == Left(b1, 7) && Left(b1, 7) == Left(b2, 6) && Left(b2, 6) == Left(b3, 5)
      && Left(b3, 5) == Left(b4, 4);
    assert Left(b4, 4) == Left(b5, 3) && Left(b5, 3) == Left(b6, 2) && Left(b6, 2) == Left(b7, 1)
      && Left(b7, 1) == b7 << 1;
    NoneLeft(b);
  }

  lemma {:induction false} FedIsCheck(bits: seq<bool>, b: bv8, n: nat)
    ensures Fed(Check(bits), b, n) == Check(bits + BitsOf(b, n))
    decreases n
  {
    hide Xor, TimesX, Check, Bit, Top8;
    if n == 0 {
      assert bits + [] == bits;
    } else {
      CheckBit(bits, Top8(b));
      FedIsCheck(bits + [Top8(b)], b << 1, n - 1);
      assert bits + [Top8(b)] + BitsOf(b << 1, n - 1) == bits + BitsOf(b, n);
    }
  }

  /** One byte more: it is added at the upper end, and the sum multiplied 8 times. */
  lemma CheckByte(data: seq<Byte>, b: Byte)
    ensures Check(DataBits(data + [b])) == Shifted(Xor(Check(DataBits(data)), Upper(b as bv8)), 8)
  {
    hide Check, Xor, BitsOf, Fed, Shifted, Left, Upper;
    assert (data + [b])[..|data|] == data;
    FedAtOnce(Check(DataBits(data)), b as bv8, 8);
    AllOut(b as bv8);
    XorNothing(Fed(Check(DataBits(data)), b as bv8, 8));
    FedIsCheck(DataBits(data), b as bv8, 8);
  }

  /** The lower half of a register. */
  function Low(c: bv32): bv16 {
    (c & 0xFFFF) as bv16
  }

  predicate Top32(c: bv32) {
    c & 0x8000 != 0
  }

  function Double32(c: bv32): bv32 {
    c << 1
  }

  function Divided(c: bv32): bv32 {
    c ^ 0x1021
  }

  function Step(c: bv32): bv32 {
    if Top32(c) then Divided(Double32(c)) else Double32(c)
  }

  lemma LowTop(c: bv32)
    ensures Top32(c) == Top(Low(c))
  {
  }

  lemma LowDouble(c: bv32)
    ensures Low(Double32(c)) == Double(Low(c))
  {
    DoubleBits(c);
    assert Low(c) == (c & 0xFFFF) as bv16;
    hide *;
  }

  lemma DoubleBits(c: bv32)
    ensures Low(c << 1) == Double((c & 0xFFFF) as bv16)
  {
  }

  lemma LowDivided(c: bv32)
    ensures Low(Divided(c)) == Xor(Low(c), DIVISOR)
  {
    DividedBits(c);
    assert Low(c) == (c & 0xFFFF) as bv16;
    hide *;
  }

  lemma DividedBits(c: bv32)
    ensures Low(c ^ 0x1021) == Xor((c & 0xFFFF) as bv16, DIVISOR)
  {
  }

  /** The upper half of the register does not matter. */
  lemma LowStep(c: bv32)
    ensures Low(Step(c)) == TimesX(Low(c))
  {
    hide Low, Top, Double, Xor, Top32, Double32, Divided;
    LowTop(c);
    LowDouble(c);
    LowDivided(Double32(c));
  }

  function Entered(c: bv32, b: bv8): bv32 {
    c ^ ((b as bv32) << 8)
  }

  lemma LowByte(c: bv32, b: bv8)
    ensures Low(Entered(c, b)) == Xor(Low(c), Upper(b))
  {
  }

  lemma LowMask(c: bv32)
    ensures (c & 0xFFFF) < 0x1_0000 && Low(c & 0xFFFF) == Low(c) && Low(0) == 0
  {
  }

  method EightSteps(chk0: bv32) returns (chk: bv32)
    ensures Low(chk) == Shifted(Low(chk0), 8)
  {
    hide Low, Step, Shifted;
    chk := chk0;
    var j := 0;
    Unshifted(Low(chk0), 0);
    while j < 8
      invariant j <= 8 && Low(chk) == Shifted(Low(chk0), j)
    {
      LowStep(chk);
      Unshifted(Low(chk0), j + 1);
      chk := Step(chk);
      j := j + 1;
    }
  }

  method AddByte(chk0: bv32, b: Byte, ghost data: seq<Byte>) returns (chk: bv32)
    requires Low(chk0) == Check(DataBits(data))
    ensures Low(chk) == Check(DataBits(data + [b]))
  {
    hide Check, Low, Shifted, Xor, Upper, Entered, DataBits;
    CheckByte(data, b);
    LowByte(chk0, b as bv8);
    chk := EightSteps(Entered(chk0, b as bv8));
  }

  /** The check sum of n bytes, in a register of 32 bits that is never cut down to 16 on the way. */
  method CheckSum(pbuf: array<Byte>, from: nat, n: nat) returns (chk: bv32)
    requires from + n <= pbuf.Length
    ensures chk < 0x1_0000 && Low(chk) == Check(DataBits(pbuf[from..from + n]))
  {
    hide Check, Low, DataBits;
    LowMask(0);
    CheckNone();
    chk := 0;
    var size := 0;
    assert pbuf[from..from + size] == [];
    while size < n
      invariant size <= n && Low(chk) == Check(DataBits(pbuf[from..from + size]))
    {
      ghost var data := pbuf[from..from + size];
      var b := pbuf[from + size];
      chk := AddByte(chk, b, data);
      size := size + 1;
      assert pbuf[from..from + size] == data + [b];
    }
    LowMask(chk);
    chk := chk & 0xFFFF;
  }
}
