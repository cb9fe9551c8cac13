/** Which tree bin a size belongs to, and the bits that lead to it inside the bin. */
module TreeIndex {
  import opened Powers

  const WORD := 0x1_0000_0000

  /** Subtraction of machine words. */
  function Sub32(a: int, b: int): (r: nat)
    ensures r < WORD
  {
    (a - b) % WORD
  }

  /** Left shift of a machine word. */
  function Shl32(x: nat, n: nat): (r: nat)
    ensures r < WORD
  {
    x * Pow2(n) % WORD
  }

  /** The bit of x that has the value b. */
  function BitAnd(x: nat, b: nat): nat
    requires b > 0
  {
    x / b % 2 * b
  }

  /** The number of the tree bin for a size, computed by moving the highest bit of the size to the
      left in steps of 8, 4 and 2. */
  function ComputeTreeIndex(s: nat): nat {
    var x := s / 0x100;
    if x == 0 then 0 else if x > 0xFFFF then 31 else
      var n := BitAnd(Sub32(x, 0x100) / 0x1_0000, 8);
      var y := Shl32(x, n);
      var k2 := BitAnd(Sub32(y, 0x1000) / 0x1_0000, 4);
      var y2 := Shl32(y, k2);
      var k3 := BitAnd(Sub32(y2, 0x4000) / 0x1_0000, 2);
      var y3 := Shl32(y2, k3);
      var k := Sub32(14 + y3 / 0x8000, n + k2 + k3);
      2 * k + s / Pow2(k + 7) % 2
  }

  /** The smallest size in a tree bin. */
  function MinSizeForIndex(i: nat): nat {
    Pow2(i / 2 + 8) + i % 2 * Pow2(i / 2 + 7)
  }

  /** Where the interval of sizes begins that the trie of a bin divides. */
  function BinLow(i: nat): nat {
    if i == 31 then 0 else MinSizeForIndex(i)
  }

  /** The number of bits by which the sizes in a bin can differ. */
  function BinWidth(i: nat): nat {
    if i == 31 then 32 else i / 2 + 7
  }

  function LeftShiftForIndex(i: nat): nat
    requires i < 32
  {
    if i == 31 then 0 else 31 - (i / 2 + 8 - 2)
  }

  lemma StageBit(y: nat, limit: nat, b: nat)
    requires y <= 0xFFFF && limit <= 0x1_0000 && b in {8, 4, 2}
    ensures BitAnd(Sub32(y, limit) / 0x1_0000, b) == if y < limit then b else 0
  {
    if y < limit {
      assert Sub32(y, limit) / 0x1_0000 == 0xFFFF;
    } else {
      assert Sub32(y, limit) == y - limit;
    }
  }

  lemma MulOrder(a: nat, b: nat, c: nat)
    requires c > 0
    ensures a < b <==> a * c < b * c
  {
    if a < b {
      assert (b - a) * c > 0;
    } else {
      assert (a - b) * c >= 0;
    }
  }

  /** One step moves the highest bit to the left by b, if there is room. */
  lemma Stage(y: nat, limit: nat, b: nat, x: nat, n: nat)
    requires b in {8, 4, 2} && limit * Pow2(b) == 0x1_0000 && 0 < y <= 0xFFFF && y == x * Pow2(n)
    ensures var k := BitAnd(Sub32(y, limit) / 0x1_0000, b);
      && k == (if y < limit then b else 0) && Shl32(y, k) == x * Pow2(n + k) && 0 < Shl32(y, k) <= 0xFFFF
      && Shl32(y, k) == (if y < limit then y * Pow2(b) else y)
  {
    hide BitAnd, Sub32;
    StageBit(y, limit, b);
    var k := if y < limit then b else 0;
    Shifted(x, n, k);
    if y < limit {
      MulOrder(y, limit, Pow2(b));
      MulOrder(0, y, Pow2(b));
    } else {
      assert Pow2(0) == 1;
    }
  }

  lemma Shifted(x: nat, n: nat, k: nat)
    ensures x * Pow2(n) * Pow2(k) == x * Pow2(n + k)
  {
    Pow2Sum(n, k);
    assert x * (Pow2(n) * Pow2(k)) == x * Pow2(n) * Pow2(k);
  }

  /** The three steps move the highest bit of x to position 14 or 15. */
  lemma HighestBit(x: nat) returns (n: nat, y: nat)
    requires 0 < x <= 0xFFFF
    ensures 0x4000 <= y <= 0xFFFF && y == x * Pow2(n) && n <= 14
    ensures var n1 := BitAnd(Sub32(x, 0x100) / 0x1_0000, 8);
      var y1 := Shl32(x, n1);
      var k2 := BitAnd(Sub32(y1, 0x1000) / 0x1_0000, 4);
      var y2 := Shl32(y1, k2);
      var k3 := BitAnd(Sub32(y2, 0x4000) / 0x1_0000, 2);
      n == n1 + k2 + k3 && y == Shl32(y2, k3)
  {
    hide BitAnd, Sub32, Shl32;
    assert Pow2(8) == 0x100 && Pow2(4) == 0x10 && Pow2(2) == 4 && x * Pow2(0) == x;
    var n1 := BitAnd(Sub32(x, 0x100) / 0x1_0000, 8);
    Stage(x, 0x100, 8, x, 0);
    var y1 := Shl32(x, n1);
    assert 0x100 <= y1;
    var k2 := BitAnd(Sub32(y1, 0x1000) / 0x1_0000, 4);
    Stage(y1, 0x1000, 4, x, n1);
    var y2 := Shl32(y1, k2);
    assert 0x1000 <= y2;
    var k3 := BitAnd(Sub32(y2, 0x4000) / 0x1_0000, 2);
    Stage(y2, 0x4000, 2, x, n1 + k2);
    n, y := n1 + k2 + k3, Shl32(y2, k3);
  }

  /** For sizes below 2^24 the index tells the highest bit and the one below it. */
  lemma IndexOfHighestBit(s: nat) returns (k: nat)
    requires 0x100 <= s < 0x100_0000
    ensures k <= 15 && Pow2(k + 8) <= s < Pow2(k + 9)
    ensures ComputeTreeIndex(s) == 2 * k + s / Pow2(k + 7) % 2
  {
    var x := s / 0x100;
    var n, y := HighestBit(x);
    k := 14 + y / 0x8000 - n;
    assert Pow2(14) == 0x4000 && Pow2(15) == 0x8000 && Pow2(16) == 0x1_0000 && Pow2(8) == 0x100;
    Pow2Sum(k, n);
    Pow2Sum(k + 1, n);
    Pow2Sum(k, 8);
    Pow2Sum(k + 1, 8);
    IndexOfShort(s, n, y);
    hide Pow2, ComputeTreeIndex;
    MulOrder(x, Pow2(k), Pow2(n));
    MulOrder(x, Pow2(k + 1), Pow2(n));
  }

  lemma IndexOfShort(s: nat, n: nat, y: nat)
    requires 0x100 <= s < 0x100_0000 && n <= 14 && y <= 0xFFFF
    requires var x := s / 0x100;
      var n1 := BitAnd(Sub32(x, 0x100) / 0x1_0000, 8);
      var y1 := Shl32(x, n1);
      var k2 := BitAnd(Sub32(y1, 0x1000) / 0x1_0000, 4);
      var y2 := Shl32(y1, k2);
      var k3 := BitAnd(Sub32(y2, 0x4000) / 0x1_0000, 2);
      n == n1 + k2 + k3 && y == Shl32(y2, k3)
    ensures var k := 14 + y / 0x8000 - n; ComputeTreeIndex(s) == 2 * k + s / Pow2(k + 7) % 2
  {
    hide BitAnd, Shl32, Pow2;
    assert Sub32(14 + y / 0x8000, n) == 14 + y / 0x8000 - n;
  }

  lemma NextMinSize(i: nat)
    ensures MinSizeForIndex(i + 1) == MinSizeForIndex(i) + Pow2(i / 2 + 7)
  {
    assert Pow2(i / 2 + 8) == 2 * Pow2(i / 2 + 7);
    assert Pow2(i / 2 + 9) == 2 * Pow2(i / 2 + 8);
    if i % 2 == 0 {
      assert (i + 1) / 2 == i / 2 && (i + 1) % 2 == 1;
    } else {
      assert (i + 1) / 2 == i / 2 + 1 && (i + 1) % 2 == 0;
    }
  }

  lemma {:induction false} MinSizesGrow(i: nat, j: nat)
    requires i <= j
    ensures MinSizeForIndex(i) <= MinSizeForIndex(j)
  {
    if i < j {
      MinSizesGrow(i, j - 1);
      NextMinSize(j - 1);
    }
  }

  /** The index of a size is the bin that the size falls into. */
  lemma IndexRange(s: nat)
    requires 0x100 <= s < WORD
    ensures var i := ComputeTreeIndex(s);
      && i < 32 && MinSizeForIndex(i) <= s && (i < 31 ==> s < MinSizeForIndex(i + 1))
      && BinLow(i) <= s < BinLow(i) + Pow2(BinWidth(i))
  {
    hide ComputeTreeIndex;
    if s < 0x100_0000 {
      var k := IndexOfHighestBit(s);
      ShortRange(s, k);
      WidthOfBin(ComputeTreeIndex(s));
    } else {
      LongIndex(s);
      MinSizeOfLast();
    }
  }

  lemma MinSizeOfLast()
    ensures MinSizeForIndex(31) == 0xC0_0000 && Pow2(32) == WORD
  {
    Pow2Values();
    assert Pow2(22) == 0x40_0000;
  }

  lemma WidthOfBin(i: nat)
    requires i < 32
    ensures i < 31 ==> BinLow(i) + Pow2(BinWidth(i)) == MinSizeForIndex(i + 1)
    ensures i == 31 ==> BinLow(i) + Pow2(BinWidth(i)) == WORD
  {
    Pow2Values();
    NextMinSize(i);
  }

  lemma MinSizes(k: nat)
    ensures MinSizeForIndex(2 * k) == 2 * Pow2(k + 7) && MinSizeForIndex(2 * k + 1) == 3 * Pow2(k + 7)
    ensures MinSizeForIndex(2 * k + 2) == 4 * Pow2(k + 7)
  {
    assert 2 * k / 2 == k && (2 * k + 1) / 2 == k && (2 * k + 2) / 2 == k + 1;
    assert Pow2(k + 9) == 2 * Pow2(k + 8) == 4 * Pow2(k + 7);
  }

  lemma ShortRange(s: nat, k: nat)
    requires k <= 15 && Pow2(k + 8) <= s < Pow2(k + 9)
    ensures var i := 2 * k + s / Pow2(k + 7) % 2; i < 32 && MinSizeForIndex(i) <= s < MinSizeForIndex(i + 1)
  {
    assert Pow2(k + 9) == 2 * Pow2(k + 8) == 4 * Pow2(k + 7);
    hide Pow2, MinSizeForIndex;
    MinSizes(k);
    SecondBit(s, Pow2(k + 7));
    var i := 2 * k + s / Pow2(k + 7) % 2;
    assert i == if s < 3 * Pow2(k + 7) then 2 * k else 2 * k + 1;
  }

  lemma LongIndex(s: nat)
    requires 0x100_0000 <= s < WORD
    ensures ComputeTreeIndex(s) == 31
  {
    assert s / 0x100 > 0xFFFF;
  }

  lemma SecondBit(s: nat, b: nat)
    requires b > 0 && 2 * b <= s < 4 * b
    ensures s / b % 2 == if s < 3 * b then 0 else 1
  {
    if s < 3 * b {
      assert s == 2 * b + (s - 2 * b);
      DivOf(s, b, 2);
    } else {
      DivOf(s, b, 3);
    }
  }

  lemma DivOf(s: nat, b: nat, q: nat)
    requires b > 0 && q * b <= s < (q + 1) * b
    ensures s / b == q
  {
    MulOrder(q, s / b + 1, b);
    MulOrder(s / b, q + 1, b);
  }

  /** Sizes of lower bins are smaller. */
  lemma BinsInOrder(s: nat, s': nat)
    requires 0x100 <= s < WORD && 0x100 <= s' < WORD && ComputeTreeIndex(s) < ComputeTreeIndex(s')
    ensures s < s'
  {
    hide ComputeTreeIndex, MinSizeForIndex;
    IndexRange(s);
    IndexRange(s');
    MinSizesGrow(ComputeTreeIndex(s) + 1, ComputeTreeIndex(s'));
  }

  /** The bits that are left to decide on the way to size s: those below the top k of a word. */
  ghost function Key(s: nat, lo: nat, k: nat): nat
    requires lo <= s && k <= 32
  {
    (s - lo) * Pow2(32 - k)
  }

  /** The first shift brings the bits that the sizes of a bin can differ in to the top. */
  lemma FirstKey(s: nat, i: nat)
    requires i < 32 && BinLow(i) <= s < BinLow(i) + Pow2(BinWidth(i))
    ensures BinWidth(i) <= 32 && Shl32(s, LeftShiftForIndex(i)) == Key(s, BinLow(i), BinWidth(i))
  {
    hide BinLow, BinWidth, LeftShiftForIndex;
    ShiftOfBin(i);
    var k := BinWidth(i);
    Pow2Values();
    Pow2Sum(k, 32 - k);
    var q := LowOfBin(i);
    hide Pow2;
    KeyInWord(s, BinLow(i), Pow2(k), Pow2(32 - k), q);
  }

  lemma KeyInWord(s: nat, lo: nat, w: nat, p: nat, q: nat)
    requires lo <= s < lo + w && w * p == WORD && lo * p == q * WORD
    ensures s * p % WORD == (s - lo) * p && (s - lo) * p < WORD
  {
    assert p > 0;
    MulOrder(s - lo, w, p);
    assert s * p == lo * p + (s - lo) * p;
    SameRemainder(s * p, (s - lo) * p, q);
  }

  lemma ShiftOfBin(i: nat)
    requires i < 32
    ensures BinWidth(i) <= 32 && LeftShiftForIndex(i) == 32 - BinWidth(i)
  {
  }

  lemma LowOfBin(i: nat) returns (q: nat)
    requires i < 32
    ensures BinWidth(i) <= 32 && BinLow(i) * Pow2(32 - BinWidth(i)) == q * WORD
  {
    var k := BinWidth(i);
    if i == 31 {
      q := 0;
    } else {
      q := 2 + i % 2;
      assert Pow2(k + 1) == 2 * Pow2(k);
      assert BinLow(i) == q * Pow2(k);
      Pow2Values();
      Pow2Sum(k, 32 - k);
      hide Pow2;
      Associate(q, Pow2(k), Pow2(32 - k));
    }
  }

  lemma Associate(a: nat, b: nat, c: nat)
    ensures a * b * c == a * (b * c)
  {
  }

  lemma SameRemainder(a: nat, r: nat, q: nat)
    requires a == q * WORD + r && r < WORD
    ensures a % WORD == r
  {
  }

  /** The top bit of the key tells the half of the interval that s is in; the next shift gives the
      key for that half. */
  lemma NextKey(s: nat, lo: nat, k: nat)
    requires 0 < k <= 32 && lo <= s < lo + Pow2(k)
    ensures var right := s >= lo + Pow2(k - 1); var lo' := if right then lo + Pow2(k - 1) else lo;
      && Key(s, lo, k) < WORD && (Key(s, lo, k) / 0x8000_0000 % 2 == 1 <==> right)
      && lo' <= s < lo' + Pow2(k - 1) && Shl32(Key(s, lo, k), 1) == Key(s, lo', k - 1)
  {
    Pow2Values();
    Pow2Sum(k - 1, 32 - k);
    assert Pow2(33 - k) == 2 * Pow2(32 - k) && Pow2(1) == 2 && Pow2(k) == 2 * Pow2(k - 1);
    hide Pow2;
    HalfKey(s - lo, Pow2(k - 1), Pow2(32 - k));
  }

  lemma HalfKey(d: nat, h: nat, p: nat)
    requires d < 2 * h && h * p == 0x8000_0000
    ensures d * p < WORD && (d * p / 0x8000_0000 % 2 == 1 <==> d >= h)
    ensures d * p * 2 % WORD == (if d >= h then d - h else d) * (2 * p)
  {
    assert p > 0;
    MulOrder(d, h, p);
    MulOrder(d, 2 * h, p);
    Associate(2, h, p);
    Doubled(d, p);
    if d >= h {
      Doubled(d - h, p);
      assert d * p == h * p + (d - h) * p;
      SameRemainder(d * p * 2, (d - h) * (2 * p), 1);
    } else {
      SameRemainder(d * p * 2, d * (2 * p), 0);
    }
  }

  lemma Doubled(a: nat, p: nat)
    ensures a * p * 2 == a * (2 * p)
  {
  }
}
