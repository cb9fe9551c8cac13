/** The arithmetic of bins: bit maps over the 32 bins of a kind. */
module BinBits {
  import opened Powers

  function Half(x: bv32): bv32 {
    x >> 1
  }

  predicate Odd(x: bv32) {
    x & 1 == 1
  }

  /** Is bit i of a map set? */
  predicate Marked(bits: bv32, i: nat) {
    if i == 0 then Odd(bits) else Marked(Half(bits), i - 1)
  }

  /** The map with only bit i. */
  function BitOf(i: nat): bv32 {
    if i == 0 then 1 else BitOf(i - 1) << 1
  }

  function Mark(bits: bv32, b: bv32): bv32 {
    bits | b
  }

  function Clear(bits: bv32, b: bv32): bv32 {
    bits & !b
  }

  /** The lowest bit of a map. */
  function LeastBit(x: bv32): bv32 {
    x & -x
  }

  /** All bits to the left of the lowest bit of x. */
  function LeftBits(x: bv32): bv32 {
    (x << 1) | -(x << 1)
  }

  /** The number of the only bit of x, computed by halving. */
  function BitToIndex(x: bv32): bv32 {
    var y0 := x - 1;
    var k1 := (y0 >> 12) & 16;
    var y1 := y0 >> k1;
    var k2 := (y1 >> 5) & 8;
    var y2 := y1 >> k2;
    var k3 := (y2 >> 2) & 4;
    var y3 := y2 >> k3;
    var k4 := (y3 >> 1) & 2;
    var y4 := y3 >> k4;
    var k5 := y4 & 1;
    var y5 := y4 >> k5;
    k1 + k2 + k3 + k4 + k5 + y5
  }

  lemma Doubled(x: bv32)
    requires x as nat < 0x8000_0000
    ensures (x << 1) as nat == 2 * (x as nat)
  {
  }

  lemma HalfOfDouble(x: bv32)
    requires x as nat < 0x8000_0000
    ensures Half(x << 1) == x && !Odd(x << 1) && x < 0x8000_0000
  {
  }

  lemma Zero()
    ensures Half(0) == 0 && !Odd(0) && Odd(1)
  {
  }

  lemma {:induction false} BitValue(i: nat)
    requires i < 32
    ensures BitOf(i) as nat == Pow2(i)
  {
    BitUnfold(i);
    if i > 0 {
      hide BitOf;
      BitValue(i - 1);
      BitBelow(i - 1);
      Doubled(BitOf(i - 1));
    } else {
      hide BitOf;
      One(BitOf(0));
    }
  }

  lemma One(x: bv32)
    requires x == 1
    ensures x as nat == 1
  {
  }

  lemma BitBelow(i: nat)
    requires i < 31
    ensures Pow2(i) < 0x8000_0000
  {
    Pow2Values();
    Pow2Mono(i + 1, 31);
  }

  lemma BitShift(i: nat)
    requires 0 < i < 32
    ensures BitOf(i) == BitOf(i - 1) << 1 && Half(BitOf(i)) == BitOf(i - 1) && !Odd(BitOf(i))
    ensures BitOf(i - 1) < 0x8000_0000
  {
    BitUnfold(i);
    hide BitOf, Half, Odd;
    BitValue(i - 1);
    BitBelow(i - 1);
    HalfOfDouble(BitOf(i - 1));
  }

  lemma BitUnfold(i: nat)
    ensures 0 < i ==> BitOf(i) == BitOf(i - 1) << 1
    ensures BitOf(0) == 1
  {
  }

  lemma TopBit()
    ensures BitOf(31) == 0x8000_0000
  {
    BitValue(31);
    Pow2Values();
    OneValue(BitOf(31));
  }

  lemma OneValue(b: bv32)
    ensures b as nat == 0x8000_0000 ==> b == 0x8000_0000
  {
  }

  lemma {:induction false} MarkedNone(i: nat)
    ensures !Marked(0, i)
  {
    hide Half, Odd;
    Zero();
    if i > 0 {
      MarkedNone(i - 1);
    }
  }

  /** Marking and clearing act on each bit. */
  lemma HalfMark(x: bv32, b: bv32)
    ensures Half(Mark(x, b)) == Mark(Half(x), Half(b))
  {
  }

  lemma HalfClear(x: bv32, b: bv32)
    ensures Half(Clear(x, b)) == Clear(Half(x), Half(b))
  {
  }

  lemma OddMark(x: bv32, b: bv32)
    ensures Odd(Mark(x, b)) <==> Odd(x) || Odd(b)
  {
  }

  lemma OddClear(x: bv32, b: bv32)
    ensures Odd(Clear(x, b)) <==> Odd(x) && !Odd(b)
  {
  }

  lemma MarkNothing(x: bv32)
    ensures Mark(x, 0) == x && Clear(x, 0) == x
  {
  }

  /** What marking and clearing bit i does, bit by bit. */
  lemma {:induction false} MarkedAfter(bits: bv32, i: nat, j: nat)
    requires i < 32
    ensures Marked(Mark(bits, BitOf(i)), j) <==> j == i || Marked(bits, j)
    ensures Marked(Clear(bits, BitOf(i)), j) <==> j != i && Marked(bits, j)
    decreases j
  {
    BitUnfold(i);
    hide Mark, Clear, Half, Odd, BitOf;
    HalfMark(bits, BitOf(i));
    HalfClear(bits, BitOf(i));
    OddMark(bits, BitOf(i));
    OddClear(bits, BitOf(i));
    if i == 0 {
      Zero();
      HalfOne();
      MarkNothing(Half(bits));
    } else {
      BitShift(i);
      if j > 0 {
        MarkedAfter(Half(bits), i - 1, j - 1);
      }
    }
  }

  predicate Test(bits: bv32, b: bv32) {
    bits & b != 0
  }

  /** Testing a bit. */
  lemma {:induction false} Tested(bits: bv32, i: nat)
    requires i < 32
    ensures Test(bits, BitOf(i)) <==> Marked(bits, i)
    decreases i
  {
    hide Half, Odd, BitOf, Test;
    BitUnfold(i);
    if i == 0 {
      TestedLow(bits);
    } else {
      Tested(Half(bits), i - 1);
      BitShift(i);
      TestedHalf(bits, BitOf(i));
    }
  }

  lemma TestedLow(bits: bv32)
    ensures Test(bits, 1) <==> Odd(bits)
  {
  }

  lemma TestedHalf(x: bv32, b: bv32)
    requires !Odd(b)
    ensures Test(x, b) <==> Test(Half(x), Half(b))
  {
  }

  lemma HalfOne()
    ensures Half(1) == 0
  {
  }

  /** The lowest bit of a map that has one, and its number. */
  lemma {:induction false} LeastBitOf(x: bv32, n: nat) returns (i: nat)
    requires x != 0 && Fits(x, n)
    ensures i < n && LeastBit(x) == BitOf(i) && Marked(x, i) && forall j :: 0 <= j < i ==> !Marked(x, j)
    decreases n
  {
    hide LeastBit, Half, Odd;
    LeastOdd(x);
    if Odd(x) {
      i := 0;
    } else {
      i := LeastBitOf(Half(x), n - 1);
      i := i + 1;
    }
  }

  /** The map has no bits from n on. */
  predicate Fits(bits: bv32, n: nat) {
    if n == 0 then bits == 0 else Fits(Half(bits), n - 1)
  }

  lemma {:induction false} FitsBelow(bits: bv32, n: nat)
    requires n <= 32 && (n < 32 ==> bits < BitOf(n))
    ensures Fits(bits, n)
  {
    if n > 0 {
      Halves(bits, BitOf(n - 1));
      if n < 32 {
        BitShift(n);
      } else {
        TopBit();
      }
      hide BitOf, Half;
      FitsBelow(Half(bits), n - 1);
    } else {
      ZeroFits(bits);
    }
  }

  lemma ZeroFits(bits: bv32)
    requires bits < BitOf(0)
    ensures bits == 0
  {
  }

  lemma Halves(x: bv32, b: bv32)
    ensures b < 0x8000_0000 && x < b << 1 ==> Half(x) < b
    ensures Half(x) < 0x8000_0000
  {
  }

  lemma LeastOdd(x: bv32)
    ensures Odd(x) ==> LeastBit(x) == 1
    ensures !Odd(x) ==> LeastBit(x) == LeastBit(Half(x)) << 1
    ensures !Odd(x) && x != 0 ==> Half(x) != 0
  {
  }

  predicate Single(x: bv32) {
    x != 0 && x & (x - 1) == 0
  }

  /** Halving finds the number of a bit. */
  lemma {:induction false} IndexOfBit(i: nat)
    requires i < 32
    ensures BitToIndex(BitOf(i)) as nat == i && Single(BitOf(i))
  {
    BitUnfold(i);
    if i == 0 {
      IndexOfOne();
    } else {
      BitShift(i);
      hide BitToIndex, BitOf, Single;
      IndexOfBit(i - 1);
      IndexOfDouble(BitOf(i - 1));
      OneMore(BitToIndex(BitOf(i - 1)), i - 1);
    }
  }

  lemma IndexOfOne()
    ensures BitToIndex(1) == 0 && Single(1)
  {
  }

  lemma IndexOfDouble(x: bv32)
    requires Single(x) && x < 0x8000_0000
    ensures Single(x << 1) && BitToIndex(x << 1) == BitToIndex(x) + 1
  {
  }

  lemma OneMore(x: bv32, i: nat)
    requires x as nat == i < 31
    ensures (x + 1) as nat == i + 1
  {
  }

  /** The bits to the left of bit i are those behind it. */
  lemma {:induction false} LeftOfBit(bits: bv32, i: nat, j: nat)
    requires i < 32
    ensures Marked(Both(LeftBits(BitOf(i)), bits), j) <==> i < j && Marked(bits, j)
    decreases j
  {
    BitUnfold(i);
    hide Half, Odd, BitOf, LeftBits, Both;
    if i == 0 {
      LeftOfOne(bits);
    } else {
      BitShift(i);
      LeftOfDouble(bits, BitOf(i - 1));
      if j > 0 {
        LeftOfBit(Half(bits), i - 1, j - 1);
      }
    }
  }

  function Both(x: bv32, y: bv32): bv32 {
    x & y
  }

  lemma LeftOfOne(bits: bv32)
    ensures Half(Both(LeftBits(1), bits)) == Half(bits) && !Odd(Both(LeftBits(1), bits))
  {
  }

  lemma LeftOfDouble(bits: bv32, b: bv32)
    requires b < 0x8000_0000
    ensures Half(Both(LeftBits(b << 1), bits)) == Both(LeftBits(b), Half(bits)) && !Odd(Both(LeftBits(b << 1), bits))
  {
  }

  /** Marking a bit that is set changes nothing. */
  lemma {:induction false} MarkTwice(bits: bv32, i: nat)
    requires i < 32 && Marked(bits, i)
    ensures Mark(bits, BitOf(i)) == bits
    decreases i
  {
    BitUnfold(i);
    hide Mark, Half, Odd, BitOf;
    HalfMark(bits, BitOf(i));
    OddMark(bits, BitOf(i));
    if i == 0 {
      Zero();
      HalfOne();
      MarkNothing(Half(bits));
    } else {
      BitShift(i);
      MarkTwice(Half(bits), i - 1);
    }
    SameHalves(bits, Mark(bits, BitOf(i)));
  }

  lemma SameHalves(x: bv32, y: bv32)
    requires Half(x) == Half(y) && Odd(x) == Odd(y)
    ensures x == y
  {
  }

  /** The map without its lower n bits, moved to the right. */
  function Shr(bits: bv32, n: nat): bv32
    decreases n
  {
    if n == 0 then bits else Shr(Half(bits), n - 1)
  }

  function Double(bits: bv32): bv32 {
    bits << 1
  }

  /** The map moved to the left by n bits. */
  function Shl(bits: bv32, n: nat): bv32
    decreases n
  {
    if n == 0 then bits else Shl(Double(bits), n - 1)
  }

  lemma {:induction false} MarkedShr(bits: bv32, n: nat, j: nat)
    ensures Marked(Shr(bits, n), j) <==> Marked(bits, j + n)
    decreases n
  {
    hide Half, Odd;
    if n > 0 {
      MarkedShr(Half(bits), n - 1, j);
    }
  }

  lemma MarkedDouble(bits: bv32, j: nat)
    requires j < 32
    ensures Marked(Double(bits), j) <==> 0 < j && Marked(bits, j - 1)
  {
    DoubleFacts(bits);
    hide Half, Odd, Double, Clear;
    if j > 0 {
      TopBit();
      MarkedAfter(bits, 31, j - 1);
    }
  }

  lemma DoubleFacts(x: bv32)
    ensures !Odd(Double(x)) && Half(Double(x)) == Clear(x, 0x8000_0000)
  {
  }

  lemma {:induction false} MarkedShl(bits: bv32, n: nat, j: nat)
    requires j < 32
    ensures Marked(Shl(bits, n), j) <==> n <= j && Marked(bits, j - n)
    decreases n
  {
    hide Half, Odd, Double;
    if n > 0 {
      MarkedShl(Double(bits), n - 1, j);
      if n <= j + 1 {
        MarkedDouble(bits, j - (n - 1));
      }
    }
  }

  lemma LowBits(x: bv32)
    ensures x & 3 != 0 <==> Odd(x) || Odd(Half(x))
    ensures !x & 1 == if Odd(x) then 0 else 1
  {
  }

  /** A map without bits is 0. */
  lemma {:induction false} NoBits(bits: bv32, n: nat)
    requires Fits(bits, n) && forall j :: 0 <= j < n ==> !Marked(bits, j)
    ensures bits == 0
    decreases n
  {
    hide Half, Odd;
    if n > 0 {
      forall j | 0 <= j < n - 1 ensures !Marked(Half(bits), j) {
        assert !Marked(bits, j + 1);
      }
      NoBits(Half(bits), n - 1);
      assert !Marked(bits, 0);
      Zero();
      SameHalves(bits, 0);
    }
  }

  lemma {:induction false} MarkedFits(bits: bv32, i: nat, n: nat)
    requires Marked(bits, i) && Fits(bits, n)
    ensures i < n
    decreases n
  {
    hide Half, Odd;
    if n == 0 {
      MarkedNone(i);
    } else if i > 0 {
      MarkedFits(Half(bits), i - 1, n - 1);
    }
  }
}
