/** Lists of blocks that fill a region of memory, between two guards. */
module SimpleBlocks {

  type Addr = nat

  /** The two words in front of a block: the next and the previous block, and whether it is taken. */
  datatype Header = Header(next: Addr, prev: Addr, taken: bool)

  type Memory = map<Addr, Header>

  const HEADER_SIZE := 8

  ghost predicate Link(m: Memory, x: Addr, y: Addr) {
    x in m && y in m && m[x].next == y && m[y].prev == x && x + HEADER_SIZE <= y
  }

  /** The blocks of b follow each other without gaps; the first and the last one are the guards. */
  ghost predicate Linked(m: Memory, b: seq<Addr>) {
    && |b| >= 2 && 0 < b[0] && (forall i, j :: 0 <= i < |b| && j == i + 1 && j < |b| ==> Link(m, b[i], b[j]))
    && (forall i :: 0 <= i < |b| ==> b[i] % 8 == 0) && b[0] in m && m[b[0]].taken && b[|b| - 1] in m
    && m[b[|b| - 1]].taken && m[b[|b| - 1]].next == 0
  }

  ghost predicate FreeAt(m: Memory, b: seq<Addr>, i: nat) {
    i < |b| && b[i] in m && !m[b[i]].taken
  }

  /** No two adjacent blocks are free; those at position k do not count. */
  ghost predicate Apart(m: Memory, b: seq<Addr>, k: int) {
    forall i, j :: 0 <= i && j == i + 1 && j < |b| && i != k && j != k ==> !(FreeAt(m, b, i) && FreeAt(m, b, j))
  }

  /** A region in order. */
  ghost predicate Region(m: Memory, b: seq<Addr>) {
    Linked(m, b) && Apart(m, b, -1)
  }

  lemma {:induction false} Increasing(m: Memory, b: seq<Addr>, i: nat, j: nat)
    requires Linked(m, b) && i < j < |b|
    ensures b[i] + HEADER_SIZE <= b[j]
    decreases j
  {
    var h := j - 1;
    assert Link(m, b[h], b[j]);
    if i < j - 1 {
      Increasing(m, b, i, j - 1);
    }
  }

  /** Where a block is, and its size with the header. */
  datatype Block = Block(addr: Addr, size: int)

  /** The size of block i of a list. */
  ghost function SizeOf(b: seq<Addr>, i: nat): int {
    if i + 1 < |b| then
      var x: int, y: int := b[i], b[i + 1];
      y - x
    else 0
  }

  ghost function OneBlock(m: Memory, x: Addr, y: Addr, taken: bool): set<Block> {
    if x in m && m[x].taken == taken then {Block(x, y - x)} else {}
  }

  /** The blocks from number lo up to hi that are taken, or those that are not. */
  ghost function BlocksIn(m: Memory, b: seq<Addr>, taken: bool, lo: nat, hi: nat): set<Block>
    requires hi < |b|
  {
    if hi <= lo then {} else BlocksIn(m, b, taken, lo, hi - 1) + OneBlock(m, b[hi - 1], b[hi], taken)
  }

  /** All blocks of a list, the first guard among them. */
  ghost function Blocks(m: Memory, b: seq<Addr>, taken: bool): set<Block> {
    if b == [] then {} else BlocksIn(m, b, taken, 0, |b| - 1)
  }

  lemma {:induction false} BlocksInParts(m: Memory, b: seq<Addr>, taken: bool, lo: nat, mid: nat, hi: nat)
    requires lo <= mid <= hi < |b|
    ensures BlocksIn(m, b, taken, lo, hi) == BlocksIn(m, b, taken, lo, mid) + BlocksIn(m, b, taken, mid, hi)
  {
    if mid < hi {
      BlocksInParts(m, b, taken, lo, mid, hi - 1);
    }
  }

  /** Blocks are the same when they are at another place of the list, and their marks stay. */
  lemma {:induction false} BlocksMoved(m: Memory, b: seq<Addr>, m': Memory, b': seq<Addr>, taken: bool, lo: nat,
                                       hi: nat, lo': nat, hi': nat)
    requires hi < |b| && hi' < |b'| && lo <= hi && lo' <= hi' && hi - lo == hi' - lo'
    requires b'[lo'..hi' + 1] == b[lo..hi + 1]
    requires forall i :: lo <= i < hi ==> b[i] in m && b[i] in m' && m'[b[i]].taken == m[b[i]].taken
    ensures BlocksIn(m', b', taken, lo', hi') == BlocksIn(m, b, taken, lo, hi)
    decreases hi
  {
    if lo < hi {
      var s, n := b[lo..hi + 1], hi - lo;
      assert s[n] == b[hi] && s[n - 1] == b[hi - 1] && b'[lo'..hi' + 1][n] == b'[hi']
        && b'[lo'..hi' + 1][n - 1] == b'[hi' - 1];
      assert b'[lo'..hi'] == b'[lo'..hi' + 1][..n] && b[lo..hi] == s[..n];
      BlocksMoved(m, b, m', b', taken, lo, hi - 1, lo', hi' - 1);
    }
  }

  lemma {:induction false} BlocksSame(m: Memory, m': Memory, b: seq<Addr>, taken: bool, lo: nat, hi: nat)
    requires hi < |b| && forall i :: lo <= i < hi ==> b[i] in m && b[i] in m' && m'[b[i]].taken == m[b[i]].taken
    ensures BlocksIn(m', b, taken, lo, hi) == BlocksIn(m, b, taken, lo, hi)
    decreases hi
  {
    if lo < hi {
      BlocksSame(m, m', b, taken, lo, hi - 1);
    }
  }

  /** Blocks are between the addresses of the list. */
  lemma {:induction false} BlockOf(m: Memory, b: seq<Addr>, taken: bool, lo: nat, hi: nat, e: Block)
    requires hi < |b| && e in BlocksIn(m, b, taken, lo, hi)
    ensures exists i :: lo <= i < hi && b[i] == e.addr
    decreases hi
  {
    if e in BlocksIn(m, b, taken, lo, hi - 1) {
      BlockOf(m, b, taken, lo, hi - 1, e);
    } else {
      assert b[hi - 1] == e.addr;
    }
  }

  /** The blocks of a list besides the one at position k. */
  ghost function Others(m: Memory, b: seq<Addr>, taken: bool, k: nat): set<Block>
    requires k + 1 < |b|
  {
    BlocksIn(m, b, taken, 0, k) + BlocksIn(m, b, taken, k + 1, |b| - 1)
  }

  lemma BlocksAround(m: Memory, b: seq<Addr>, taken: bool, k: nat)
    requires Linked(m, b) && k + 1 < |b|
    ensures Blocks(m, b, taken) == Others(m, b, taken, k) + OneBlock(m, b[k], b[k + 1], taken)
    ensures forall n :: Block(b[k], n) !in Others(m, b, taken, k)
  {
    BlocksInParts(m, b, taken, 0, k, |b| - 1);
    BlocksInParts(m, b, taken, k, k + 1, |b| - 1);
    assert BlocksIn(m, b, taken, k, k) == {};
    forall n ensures Block(b[k], n) !in Others(m, b, taken, k) {
      if Block(b[k], n) in BlocksIn(m, b, taken, 0, k) {
        BlockOf(m, b, taken, 0, k, Block(b[k], n));
        var i :| 0 <= i < k && b[i] == b[k];
        Increasing(m, b, i, k);
        assert false;
      }
      if Block(b[k], n) in BlocksIn(m, b, taken, k + 1, |b| - 1) {
        BlockOf(m, b, taken, k + 1, |b| - 1, Block(b[k], n));
        var i :| k + 1 <= i < |b| - 1 && b[i] == b[k];
        Increasing(m, b, k, i);
        assert false;
      }
    }
  }

  lemma InMemory(m: Memory, b: seq<Addr>)
    requires Linked(m, b)
    ensures forall i :: 0 <= i < |b| ==> b[i] in m
  {
    forall i | 0 <= i < |b| ensures b[i] in m {
      if i < |b| - 1 {
        var j := i + 1;
        assert Link(m, b[i], b[j]);
      }
    }
  }

  /** A list stays in order when its headers stay. */
  lemma RegionKept(m: Memory, m': Memory, b: seq<Addr>)
    requires Region(m, b) && forall i :: 0 <= i < |b| && b[i] in m ==> b[i] in m' && m'[b[i]] == m[b[i]]
    ensures Region(m', b) && Blocks(m', b, true) == Blocks(m, b, true) && Blocks(m', b, false) == Blocks(m, b, false)
  {
    hide BlocksIn;
    InMemory(m, b);
    forall i, j | 0 <= i < |b| && j == i + 1 && j < |b| ensures Link(m', b[i], b[j]) {
      assert Link(m, b[i], b[j]);
    }
    BlocksSame(m, m', b, true, 0, |b| - 1);
    BlocksSame(m, m', b, false, 0, |b| - 1);
    assert forall i :: FreeAt(m', b, i) == FreeAt(m, b, i);
  }

  /** Only headers from lo up to hi have changed. */
  ghost predicate Within(m: Memory, m': Memory, lo: Addr, hi: Addr) {
    m'.Keys == m.Keys && forall a :: a in m && !(lo <= a <= hi) ==> m'[a] == m[a]
  }

  function Mark(m: Memory, a: Addr, taken: bool): (m': Memory)
    requires a in m
    ensures m'.Keys == m.Keys
  {
    m[a := m[a].(taken := taken)]
  }

  /** A block is marked. */
  lemma Marked(m: Memory, b: seq<Addr>, k: nat, taken: bool)
    requires Linked(m, b) && 0 < k < |b| - 1
    ensures b[k] in m
    ensures var m' := Mark(m, b[k], taken);
      && Linked(m', b) && (Apart(m, b, k) ==> Apart(m', b, k)) && (taken && Apart(m, b, -1) ==> Apart(m', b, -1))
      && (forall t :: Others(m', b, t, k) == Others(m, b, t, k)) && Within(m, m', b[k], b[k]) && OnlyIn(m, m', b)
  {
    hide BlocksIn;
    InMemory(m, b);
    Ascending(m, b);
    var m' := Mark(m, b[k], taken);
    forall i, j | 0 <= i < |b| && j == i + 1 && j < |b| ensures Link(m', b[i], b[j]) {
      assert Link(m, b[i], b[j]);
    }
    assert forall x: nat :: x != k ==> FreeAt(m', b, x) == FreeAt(m, b, x);
    OthersMarked(m, m', b, k);
  }

  lemma Ascending(m: Memory, b: seq<Addr>)
    requires Linked(m, b)
    ensures forall i, j :: 0 <= i < j < |b| ==> b[i] < b[j]
  {
    forall i, j | 0 <= i < j < |b| ensures b[i] < b[j] {
      Increasing(m, b, i, j);
    }
  }

  lemma OthersMarked(m: Memory, m': Memory, b: seq<Addr>, k: nat)
    requires k + 1 < |b|
    requires forall i :: 0 <= i < |b| && i != k ==> b[i] in m && b[i] in m' && m'[b[i]].taken == m[b[i]].taken
    ensures forall t :: Others(m', b, t, k) == Others(m, b, t, k)
  {
    hide BlocksIn;
    forall t: bool ensures Others(m', b, t, k) == Others(m, b, t, k) {
      BlocksSame(m, m', b, t, 0, k);
      BlocksSame(m, m', b, t, k + 1, |b| - 1);
    }
  }

  /** Blocks i up to j become one. */
  function Merged(b: seq<Addr>, i: nat, j: nat): seq<Addr>
    requires i < j < |b|
  {
    b[..i + 1] + b[j..]
  }

  function MergedMemory(m: Memory, x: Addr, y: Addr): Memory
    requires x in m && y in m && x != y
  {
    m[x := m[x].(next := y)][y := m[y].(prev := x)]
  }

  /** Blocks i up to j are the free ones around block k, and those beside them are taken. */
  ghost predicate FreeRun(m: Memory, b: seq<Addr>, i: nat, k: nat, j: nat) {
    0 < i <= k < j < |b| && (forall x :: i <= x < j ==> FreeAt(m, b, x)) && !FreeAt(m, b, i - 1) && !FreeAt(m, b, j)
  }

  lemma MergedLinks(m: Memory, b: seq<Addr>, i: nat, j: nat)
    requires Linked(m, b) && 0 < i < j < |b|
    ensures b[i] in m && b[j] in m && b[i] != b[j] && Linked(MergedMemory(m, b[i], b[j]), Merged(b, i, j))
  {
    InMemory(m, b);
    Ascending(m, b);
    var m', b' := MergedMemory(m, b[i], b[j]), Merged(b, i, j);
    forall x, y | 0 <= x < |b'| && y == x + 1 && y < |b'| ensures Link(m', b'[x], b'[y]) {
      if y <= i {
        assert Link(m, b[x], b[y]);
      } else if x > i {
        var u, v := x + j - i - 1, y + j - i - 1;
        assert Link(m, b[u], b[v]);
      } else {
        Increasing(m, b, i, j);
      }
    }
  }

  /** Merging free blocks leaves the list in order, and the taken blocks as they are. */
  lemma MergedRegion(m: Memory, b: seq<Addr>, i: nat, k: nat, j: nat)
    requires Linked(m, b) && Apart(m, b, k) && FreeRun(m, b, i, k, j)
    ensures b[i] in m && b[j] in m && b[i] != b[j]
    ensures var m', b' := MergedMemory(m, b[i], b[j]), Merged(b, i, j);
      && Region(m', b') && Blocks(m', b', true) == Others(m, b, true, k) && Within(m, m', b[0], b[|b| - 1])
      && OnlyIn(m, m', b)
  {
    hide BlocksIn, Linked;
    MergedLinks(m, b, i, j);
    InMemory(m, b);
    var m', b' := MergedMemory(m, b[i], b[j]), Merged(b, i, j);
    forall x, y | 0 <= x && y == x + 1 && y < |b'| ensures !(FreeAt(m', b', x) && FreeAt(m', b', y)) {
      MergedFree(m, b, i, j, x);
      MergedFree(m, b, i, j, y);
    }
    Ends(m, b, i, j);
    MergedBlocks(m, b, i, k, j);
  }

  lemma Ends(m: Memory, b: seq<Addr>, i: nat, j: nat)
    requires Linked(m, b) && 0 < i < j < |b|
    ensures b[0] <= b[i] < b[j] <= b[|b| - 1]
  {
    Ascending(m, b);
  }

  lemma MergedFree(m: Memory, b: seq<Addr>, i: nat, j: nat, x: nat)
    requires i < j < |b| && b[i] in m && b[j] in m && b[i] != b[j] && x < |Merged(b, i, j)|
    ensures FreeAt(MergedMemory(m, b[i], b[j]), Merged(b, i, j), x) == FreeAt(m, b, if x <= i then x else x + j - i - 1)
  {
  }

  lemma MergedBlocks(m: Memory, b: seq<Addr>, i: nat, k: nat, j: nat)
    requires Linked(m, b) && FreeRun(m, b, i, k, j) && b[i] in m && b[j] in m && b[i] != b[j]
    ensures Blocks(MergedMemory(m, b[i], b[j]), Merged(b, i, j), true) == Others(m, b, true, k)
  {
    InMemory(m, b);
    hide BlocksIn, Linked;
    NoBlocks(m, b, i, k);
    NoBlocks(m, b, k + 1, j);
    BlocksInParts(m, b, true, 0, i, k);
    BlocksInParts(m, b, true, k + 1, j, |b| - 1);
    assert FreeAt(m, b, i);
    MergedParts(m, b, i, j);
  }

  lemma MergedParts(m: Memory, b: seq<Addr>, i: nat, j: nat)
    requires i < j < |b| && FreeAt(m, b, i) && b[j] in m && b[i] != b[j] && forall x :: 0 <= x < |b| ==> b[x] in m
    ensures Blocks(MergedMemory(m, b[i], b[j]), Merged(b, i, j), true) ==
      BlocksIn(m, b, true, 0, i) + BlocksIn(m, b, true, j, |b| - 1)
  {
    hide BlocksIn;
    var m', b' := MergedMemory(m, b[i], b[j]), Merged(b, i, j);
    MergedEnds(m, b, i, j);
    hide FreeAt, MergedMemory, Merged;
    BlocksInParts(m', b', true, 0, i, |b'| - 1);
    BlocksInParts(m', b', true, i, i + 1, |b'| - 1);
    NoBlocks(m', b', i, i + 1);
  }

  lemma MergedEnds(m: Memory, b: seq<Addr>, i: nat, j: nat)
    requires i < j < |b| && FreeAt(m, b, i) && b[j] in m && b[i] != b[j] && forall x :: 0 <= x < |b| ==> b[x] in m
    ensures var m', b' := MergedMemory(m, b[i], b[j]), Merged(b, i, j);
      && |b'| == i + 1 + |b| - j && FreeAt(m', b', i)
      && BlocksIn(m', b', true, 0, i) == BlocksIn(m, b, true, 0, i)
      && BlocksIn(m', b', true, i + 1, |b'| - 1) == BlocksIn(m, b, true, j, |b| - 1)
  {
    hide BlocksIn, MergedMemory, Merged, FreeAt;
    var m', b' := MergedMemory(m, b[i], b[j]), Merged(b, i, j);
    MergedSlices(b, i, j);
    MergedMarks(m, b, i, j);
    MovedFront(m, b, m', b', i);
    MovedBack(m, b, m', b', i, j);
  }

  lemma MergedSlices(b: seq<Addr>, i: nat, j: nat)
    requires i < j < |b|
    ensures var b' := Merged(b, i, j); |b'| == i + 1 + |b| - j && b'[..i + 1] == b[..i + 1] && b'[i + 1..] == b[j..]
  {
  }

  lemma MergedMarks(m: Memory, b: seq<Addr>, i: nat, j: nat)
    requires i < j < |b| && FreeAt(m, b, i) && b[j] in m && b[i] != b[j] && forall x :: 0 <= x < |b| ==> b[x] in m
    ensures var m' := MergedMemory(m, b[i], b[j]);
      forall x :: 0 <= x < |b| ==> b[x] in m' && m'[b[x]].taken == m[b[x]].taken
    ensures FreeAt(MergedMemory(m, b[i], b[j]), Merged(b, i, j), i)
  {
    assert Merged(b, i, j)[i] == b[i];
  }

  lemma MovedFront(m: Memory, b: seq<Addr>, m': Memory, b': seq<Addr>, i: nat)
    requires i < |b| && i < |b'| && b'[..i + 1] == b[..i + 1]
    requires forall x :: 0 <= x < |b| ==> b[x] in m && b[x] in m' && m'[b[x]].taken == m[b[x]].taken
    ensures BlocksIn(m', b', true, 0, i) == BlocksIn(m, b, true, 0, i)
  {
    hide BlocksIn;
    assert b'[0..i + 1] == b'[..i + 1] && b[0..i + 1] == b[..i + 1];
    BlocksMoved(m, b, m', b', true, 0, i, 0, i);
  }

  lemma MovedBack(m: Memory, b: seq<Addr>, m': Memory, b': seq<Addr>, i: nat, j: nat)
    requires i < j < |b| && |b'| == i + 1 + |b| - j && b'[i + 1..] == b[j..]
    requires forall x :: 0 <= x < |b| ==> b[x] in m && b[x] in m' && m'[b[x]].taken == m[b[x]].taken
    ensures BlocksIn(m', b', true, i + 1, |b'| - 1) == BlocksIn(m, b, true, j, |b| - 1)
  {
    hide BlocksIn;
    assert b'[i + 1..|b'|] == b'[i + 1..] && b[j..|b|] == b[j..];
    BlocksMoved(m, b, m', b', true, j, |b| - 1, i + 1, |b'| - 1);
  }

  lemma {:induction false} NoBlocks(m: Memory, b: seq<Addr>, lo: nat, hi: nat)
    requires hi < |b| && forall x :: lo <= x < hi ==> FreeAt(m, b, x)
    ensures BlocksIn(m, b, true, lo, hi) == {}
  {
    if lo < hi {
      NoBlocks(m, b, lo, hi - 1);
      assert FreeAt(m, b, hi - 1);
    }
  }

  /** Block k is divided at address a. */
  function Split(b: seq<Addr>, k: nat, a: Addr): seq<Addr>
    requires k + 1 < |b|
  {
    b[..k + 1] + [a] + b[k + 1..]
  }

  function SplitMemory(m: Memory, x: Addr, a: Addr, y: Addr): Memory
    requires x in m && a in m && y in m && x != a && a != y && x != y
  {
    m[a := m[a].(prev := x, next := y)][y := m[y].(prev := a)][x := m[x].(next := a)]
  }

  lemma SplitLinks(m: Memory, b: seq<Addr>, k: nat, a: Addr)
    requires Linked(m, b) && 0 < k < |b| - 1 && a in m && a % 8 == 0 && b[k] + HEADER_SIZE <= a
    requires a + HEADER_SIZE <= b[k + 1]
    ensures b[k] in m && b[k + 1] in m && Linked(SplitMemory(m, b[k], a, b[k + 1]), Split(b, k, a))
  {
    InMemory(m, b);
    Ascending(m, b);
    NotListed(m, b, k, a);
    var m', b' := SplitMemory(m, b[k], a, b[k + 1]), Split(b, k, a);
    forall x, y | 0 <= x < |b'| && y == x + 1 && y < |b'| ensures Link(m', b'[x], b'[y]) {
      if y <= k {
        assert Link(m, b[x], b[y]);
      } else if x > k + 1 {
        var u, v := x - 1, y - 1;
        assert Link(m, b[u], b[v]);
      }
    }
    forall x | 0 <= x < |b'| ensures b'[x] % 8 == 0 {
      assert x <= k ==> b'[x] == b[x];
      assert x > k + 1 ==> b'[x] == b[x - 1];
    }
  }

  /** After a taken block is divided, all is in order but for the new block, however it is marked. */
  lemma SplitRegion(m: Memory, b: seq<Addr>, k: nat, a: Addr)
    requires Region(m, b) && 0 < k < |b| - 1 && a in m && a % 8 == 0 && b[k] + HEADER_SIZE <= a
    requires a + HEADER_SIZE <= b[k + 1]
    requires !FreeAt(m, b, k)
    ensures b[k] in m && b[k + 1] in m
    ensures var m', b' := SplitMemory(m, b[k], a, b[k + 1]), Split(b, k, a);
      && Linked(m', b') && Apart(m', b', k + 1)
      && Others(m', b', true, k + 1) == Others(m, b, true, k) + {Block(b[k], a - b[k])}
      && Within(m, m', b[0], b[|b| - 1]) && OnlyIn(m, m', b') && forall x :: x in b' <==> x in b || x == a
  {
    SplitLinks(m, b, k, a);
    InMemory(m, b);
    NotListed(m, b, k, a);
    Ascending(m, b);
    Ends(m, b, k, k + 1);
    hide BlocksIn, Linked;
    SplitApart(m, b, k, a);
    SplitBlocks(m, b, k, a);
  }

  lemma SplitApart(m: Memory, b: seq<Addr>, k: nat, a: Addr)
    requires Apart(m, b, -1) && 0 < k < |b| - 1 && a in m && b[k] in m && b[k + 1] in m
    requires b[k] != a && a != b[k + 1] && b[k] != b[k + 1] && forall i :: 0 <= i < |b| ==> b[i] != a
    ensures Apart(SplitMemory(m, b[k], a, b[k + 1]), Split(b, k, a), k + 1)
  {
    var m', b' := SplitMemory(m, b[k], a, b[k + 1]), Split(b, k, a);
    forall x, y | 0 <= x && y == x + 1 && y < |b'| && x != k + 1 && y != k + 1
      ensures !(FreeAt(m', b', x) && FreeAt(m', b', y))
    {
      var u, v := if x <= k then x else x - 1, if y <= k then y else y - 1;
      assert FreeAt(m', b', x) == FreeAt(m, b, u) && FreeAt(m', b', y) == FreeAt(m, b, v);
    }
  }

  lemma SplitBlocks(m: Memory, b: seq<Addr>, k: nat, a: Addr)
    requires 0 < k < |b| - 1 && a in m && b[k] in m && b[k + 1] in m && m[b[k]].taken
    requires forall i :: 0 <= i < |b| ==> b[i] in m
    requires b[k] != a && a != b[k + 1] && b[k] != b[k + 1]
    ensures Others(SplitMemory(m, b[k], a, b[k + 1]), Split(b, k, a), true, k + 1) ==
      Others(m, b, true, k) + {Block(b[k], a - b[k])}
  {
    var m', b' := SplitMemory(m, b[k], a, b[k + 1]), Split(b, k, a);
    assert BlocksIn(m', b', true, 0, k + 1) == BlocksIn(m', b', true, 0, k) + OneBlock(m', b'[k], b'[k + 1], true);
    hide BlocksIn;
    BlocksMoved(m, b, m', b', true, 0, k, 0, k);
    BlocksMoved(m, b, m', b', true, k + 1, |b| - 1, k + 2, |b'| - 1);
  }

  lemma NotListed(m: Memory, b: seq<Addr>, k: nat, a: Addr)
    requires Linked(m, b) && k + 1 < |b| && b[k] < a < b[k + 1]
    ensures forall i :: 0 <= i < |b| ==> b[i] != a
  {
    Ascending(m, b);
  }

  /** A free block is none of the guards. */
  lemma GuardTaken(m: Memory, b: seq<Addr>, i: nat)
    requires Linked(m, b) && FreeAt(m, b, i)
    ensures 0 < i < |b| - 1
  {
  }

  lemma Neighbours(m: Memory, b: seq<Addr>, i: nat)
    requires Linked(m, b) && i < |b|
    ensures b[i] in m && 0 < b[i]
    ensures 0 < i ==> m[b[i]].prev == b[i - 1]
    ensures if i < |b| - 1 then m[b[i]].next == b[i + 1] && b[i] + HEADER_SIZE <= b[i + 1] else m[b[i]].next == 0
  {
    InMemory(m, b);
    Ascending(m, b);
    if 0 < i {
      var h := i - 1;
      assert Link(m, b[h], b[i]);
    }
    if i < |b| - 1 {
      var j := i + 1;
      assert Link(m, b[i], b[j]);
    }
  }

  lemma WithinBoth(m: Memory, m1: Memory, m2: Memory, b: seq<Addr>, k: nat)
    requires Linked(m, b) && k < |b| && Within(m, m1, b[k], b[k]) && Within(m1, m2, b[0], b[|b| - 1])
    ensures Within(m, m2, b[0], b[|b| - 1])
  {
    Ascending(m, b);
  }

  lemma WithinSelf(m: Memory, b: seq<Addr>)
    requires b != []
    ensures Within(m, m, b[0], b[|b| - 1])
  {
  }

  /** Merging one block is doing nothing. */
  lemma MergedOne(m: Memory, b: seq<Addr>, k: nat)
    requires Linked(m, b) && k + 1 < |b| && b[k] in m && b[k + 1] in m && b[k] != b[k + 1]
    ensures Merged(b, k, k + 1) == b && MergedMemory(m, b[k], b[k + 1]) == m
  {
    Neighbours(m, b, k);
    Neighbours(m, b, k + 1);
  }

  lemma SamePlace(m: Memory, b: seq<Addr>, i: nat, k: nat)
    requires Linked(m, b) && i < |b| && k < |b| && b[i] == b[k]
    ensures i == k
  {
    Ascending(m, b);
  }

  ghost predicate BlockAt(m: Memory, b: seq<Addr>, taken: bool, i: nat, e: Block) {
    i + 1 < |b| && b[i] in m && m[b[i]].taken == taken && e.addr == b[i] && e.addr + e.size == b[i + 1]
  }

  lemma {:induction false} BlocksAre(m: Memory, b: seq<Addr>, taken: bool, lo: nat, hi: nat, e: Block)
    requires hi < |b|
    ensures e in BlocksIn(m, b, taken, lo, hi) <==> exists i :: lo <= i < hi && BlockAt(m, b, taken, i, e)
    decreases hi
  {
    if lo < hi {
      BlocksAre(m, b, taken, lo, hi - 1, e);
      assert e in OneBlock(m, b[hi - 1], b[hi], taken) <==> BlockAt(m, b, taken, hi - 1, e);
    }
  }

  /** No header of the list lies inside of block e. */
  ghost predicate Clear(b: seq<Addr>, e: Block) {
    forall x :: x in b ==> !(e.addr < x < e.addr + e.size)
  }

  /** Behind the header of block e all memory is as it was. */
  ghost predicate Untouched(m: Memory, m': Memory, e: Block) {
    forall a :: a in m && e.addr < a < e.addr + e.size ==> a in m' && m'[a] == m[a]
  }

  /** At most the headers of a list have changed. */
  ghost predicate OnlyIn(m: Memory, m': Memory, b: seq<Addr>) {
    m'.Keys == m.Keys && forall a :: a in m && a !in b ==> m'[a] == m[a]
  }

  lemma BlockClear(m: Memory, b: seq<Addr>, taken: bool, e: Block)
    requires Linked(m, b) && e in Blocks(m, b, taken)
    ensures Clear(b, e) && e.addr in b && e.addr + e.size in b && b[0] <= e.addr < e.addr + e.size <= b[|b| - 1]
  {
    BlocksAre(m, b, taken, 0, |b| - 1, e);
    var i :| 0 <= i < |b| - 1 && BlockAt(m, b, taken, i, e);
    Ascending(m, b);
    assert e.addr == b[i] && e.addr + e.size == b[i + 1];
  }

  /** Changing headers of two lists leaves what no header of them lies in. */
  lemma ClearUntouched(m: Memory, m': Memory, b: seq<Addr>, b': seq<Addr>, e: Block)
    requires OnlyIn(m, m', b + b') && Clear(b, e) && Clear(b', e)
    ensures Untouched(m, m', e)
  {
  }

  lemma OnlyTwice(m: Memory, m1: Memory, m': Memory, b: seq<Addr>, b': seq<Addr>)
    requires OnlyIn(m, m1, b) && OnlyIn(m1, m', b')
    ensures OnlyIn(m, m', b + b')
  {
  }

  lemma OnlyMore(m: Memory, m': Memory, b: seq<Addr>, b': seq<Addr>)
    requires OnlyIn(m, m', b) && forall a :: a in b ==> a in b'
    ensures OnlyIn(m, m', b')
  {
  }
}
