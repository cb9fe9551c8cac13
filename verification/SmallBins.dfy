/** The 32 small bins: circular lists of free chunks of one size, each with a head inside of the
    state of the allocator. */
module SmallBins {
  import opened Rings
  import opened BinBits
  import opened SizeTrie
  import opened TreeBins

  /** The address of the head of bin i. */
  function BinAt(heads: Addr, i: nat): Addr {
    heads + 8 * i
  }

  /** Bin i holds the chunks of list. The links of the head mean something only while there are any. */
  ghost predicate Small(m: Heap, heads: Addr, i: nat, list: seq<Addr>) {
    && BinAt(heads, i) in m && (list != [] ==> Circular(m, [BinAt(heads, i)] + list))
    && (forall x :: x in Elems(list) ==> x in m && m[x].data.size == 8 * i && x >= heads + 0x100)
  }

  ghost predicate Smalls(m: Heap, heads: Addr, bits: bv32, lists: seq<seq<Addr>>) {
    && |lists| == 32
    && (forall i :: 0 <= i < 32 ==> Small(m, heads, i, lists[i]))
    && (forall i :: 0 <= i < 32 ==> (Marked(bits, i) <==> lists[i] != []))
    && (forall i, j :: 0 <= i < j < 32 ==> Elems(lists[i]) !! Elems(lists[j]))
  }

  /** All chunks of the small bins. */
  ghost function Listed(lists: seq<seq<Addr>>): set<Addr> {
    set i, x | 0 <= i < |lists| && x in lists[i] :: x
  }

  lemma SmallOf(m: Heap, heads: Addr, bits: bv32, lists: seq<seq<Addr>>, i: nat)
    requires Smalls(m, heads, bits, lists) && i < 32
    ensures |lists| == 32 && Small(m, heads, i, lists[i]) && (Marked(bits, i) <==> lists[i] != [])
    ensures Elems(lists[i]) <= Listed(lists)
  {
  }

  lemma SmallFrame(m: Heap, m': Heap, heads: Addr, i: nat, list: seq<Addr>)
    requires Small(m, heads, i, list) && BinAt(heads, i) in m'
    requires list != [] ==>
      m'[BinAt(heads, i)].forw == m[BinAt(heads, i)].forw && m'[BinAt(heads, i)].back == m[BinAt(heads, i)].back
    requires forall x :: x in Elems(list) && x in m ==> x in m' && m'[x].forw == m[x].forw && m'[x].back == m[x].back
    requires forall x :: x in Elems(list) && x in m ==> x in m' && m'[x].data.size == m[x].data.size
    ensures Small(m', heads, i, list)
  {
    if list != [] {
      CircularFrame(m, m', [BinAt(heads, i)] + list);
    }
  }

  /** One bin changes, the others stay. */
  lemma SmallReplaced(m: Heap, m': Heap, heads: Addr, bits: bv32, bits': bv32, lists: seq<seq<Addr>>, i: nat,
                      list: seq<Addr>)
    requires Smalls(m, heads, bits, lists) && i < 32 && Small(m', heads, i, list)
    requires m'.Keys == m.Keys && SameHeaders(m, m')
    requires forall y :: y in m && y != BinAt(heads, i) && y !in Elems(lists[i]) && y !in Elems(list) ==> m'[y] == m[y]
    requires Elems(list) !! Listed(lists) - Elems(lists[i])
    requires forall j :: 0 <= j < 32 ==> (Marked(bits', j) <==> if j == i then list != [] else Marked(bits, j))
    ensures Smalls(m', heads, bits', lists[i := list])
    ensures Listed(lists[i := list]) == Listed(lists) - Elems(lists[i]) + Elems(list)
  {
    hide Marked, Small;
    HighAddresses(m, heads, i, lists[i]);
    HighAddresses(m', heads, i, list);
    forall j | 0 <= j < 32 && j != i ensures Small(m', heads, j, lists[j]) && Elems(lists[j]) !! Elems(list) {
      OtherSmall(m, m', heads, bits, lists, i, j, list);
    }
    ListedAfter(lists, i, list);
  }

  lemma HighAddresses(m: Heap, heads: Addr, i: nat, list: seq<Addr>)
    requires Small(m, heads, i, list)
    ensures forall x :: x in Elems(list) ==> x in m && x >= heads + 0x100
  {
  }

  lemma OtherSmall(m: Heap, m': Heap, heads: Addr, bits: bv32, lists: seq<seq<Addr>>, i: nat, j: nat, list: seq<Addr>)
    requires Smalls(m, heads, bits, lists) && i < 32 && j < 32 && j != i
    requires m'.Keys == m.Keys && SameHeaders(m, m')
    requires forall y :: y in m && y != BinAt(heads, i) && y !in Elems(lists[i]) && y !in Elems(list) ==> m'[y] == m[y]
    requires Elems(list) !! Listed(lists) - Elems(lists[i]) && (forall x :: x in Elems(list) ==> x >= heads + 0x100)
    requires forall x :: x in Elems(lists[i]) ==> x >= heads + 0x100
    ensures Small(m', heads, j, lists[j]) && Elems(lists[j]) !! Elems(list)
  {
    hide Circular, Marked;
    assert Elems(lists[j]) !! Elems(lists[i]);
    forall x | x in Elems(lists[j]) ensures x in Listed(lists) {
      assert x in lists[j];
    }
    assert BinAt(heads, j) < heads + 0x100 && BinAt(heads, j) != BinAt(heads, i);
    assert BinAt(heads, j) !in Elems(lists[i]) && BinAt(heads, j) !in Elems(list);
    SmallFrame(m, m', heads, j, lists[j]);
  }

  lemma ListedAfter(lists: seq<seq<Addr>>, i: nat, list: seq<Addr>)
    requires i < |lists| && forall j :: 0 <= j < |lists| && j != i ==> Elems(lists[j]) !! Elems(lists[i])
    ensures Listed(lists[i := list]) == Listed(lists) - Elems(lists[i]) + Elems(list)
  {
    var lists' := lists[i := list];
    forall x | x in Listed(lists) - Elems(lists[i]) ensures x in Listed(lists') {
      var j :| 0 <= j < |lists| && x in lists[j];
      assert x in lists'[j];
    }
    forall x | x in Elems(list) ensures x in Listed(lists') {
      assert x in lists'[i];
    }
    forall x | x in Listed(lists') ensures x in Listed(lists) - Elems(lists[i]) + Elems(list) {
      var j :| 0 <= j < |lists'| && x in lists'[j];
      if j != i {
        assert x in Elems(lists[j]);
      }
    }
  }

  lemma TwoLinks(m: Heap, p: Addr, f: Addr, b: Addr)
    requires p in m && f in m && b in m
    ensures Link(m, p, f).Keys == m.Keys
    ensures var m' := Link(Link(m, p, f), b, p);
      && SameHeaders(m, m') && m'.Keys == m.Keys
      && forall y :: y in m && y != p && y != f && y != b ==> m'[y] == m[y]
  {
  }

  lemma LinkKeys(m: Heap, p: Addr, f: Addr)
    requires p in m && f in m
    ensures Link(m, p, f).Keys == m.Keys
  {
  }

  lemma InsertedSmall(m: Heap, heads: Addr, bits: bv32, lists: seq<seq<Addr>>, p: Addr, i: nat)
    requires Smalls(m, heads, bits, lists) && i < 32 && p in m && m[p].data.size == 8 * i && p >= heads + 0x100
    requires p !in Listed(lists)
    ensures BinAt(heads, i) in m && (Marked(bits, i) ==> m[BinAt(heads, i)].forw in m)
    ensures var b := BinAt(heads, i); var f := if Marked(bits, i) then m[b].forw else b;
      var m' := Link(Link(m, p, f), b, p); var lists' := lists[i := [p] + lists[i]];
      && Smalls(m', heads, Mark(bits, BitOf(i)), lists') && Listed(lists') == Listed(lists) + {p}
      && SameHeaders(m, m')
      && forall y :: y in m && y >= heads + 0x100 && y !in Listed(lists) && y != p ==> m'[y] == m[y]
  {
    hide Smalls, Listed, Mark, BitOf, Marked, SameHeaders, Circular, Link, Elems;
    SmallOf(m, heads, bits, lists, i);
    var b, list := BinAt(heads, i), lists[i];
    var f := if Marked(bits, i) then m[b].forw else b;
    InsertedRing(m, b, f, list, p);
    TwoLinks(m, p, f, b);
    LinkKeys(m, p, f);
    var m' := Link(Link(m, p, f), b, p);
    forall j ensures Marked(Mark(bits, BitOf(i)), j) <==> j == i || Marked(bits, j) {
      MarkedAfter(bits, i, j);
    }
    ElemsOfFew(p);
    ElemsOfSum([p], list);
    HeaderSizes(m, m');
    assert [b] + ([p] + list) == [b] + [p] + list;
    SmallReplaced(m, m', heads, bits, Mark(bits, BitOf(i)), lists, i, [p] + list);
  }

  lemma HeaderSizes(m: Heap, m': Heap)
    requires SameHeaders(m, m')
    ensures forall y :: y in m ==> y in m' && m'[y].data.size == m[y].data.size
  {
  }

  lemma InsertedRing(m: Heap, b: Addr, f: Addr, list: seq<Addr>, p: Addr)
    requires b in m && p in m && p != b && p !in Elems(list)
    requires if list == [] then f == b else Circular(m, [b] + list) && f == m[b].forw
    ensures f in m && Circular(Link(Link(m, p, f), b, p), [b] + [p] + list) && (f == b || f in Elems(list))
  {
    if list == [] {
      assert [b] + [p] + [] == [b, p];
    } else {
      ElemsOfFew(b);
      ElemsOfSum([b], list);
      InsertedCircle(m, [b] + list, 0, p);
      assert Inserted([b] + list, 0, p) == [b] + [p] + list;
      assert ([b] + list)[1] == list[0] && f == list[0];
    }
  }

  /** A chunk goes to the front of the small bin for its size. */
  method InsertSmallChunk(m: Heap, heads: Addr, bits: bv32, p: Addr, s: nat, ghost lists: seq<seq<Addr>>)
      returns (m': Heap, bits': bv32, ghost lists': seq<seq<Addr>>)
    requires Smalls(m, heads, bits, lists) && p in m && m[p].data.size == s && s % 8 == 0 && s < 0x100
    requires p >= heads + 0x100 && p !in Listed(lists)
    ensures Smalls(m', heads, bits', lists') && Listed(lists') == Listed(lists) + {p}
    ensures SameHeaders(m, m')
    ensures forall y :: y in m && y >= heads + 0x100 && y !in Listed(lists) && y != p ==> m'[y] == m[y]
  {
    hide Smalls, Listed, Mark, BitOf, Marked, SameHeaders;
    var i := s / 8;
    var b := BinAt(heads, i);
    SmallOf(m, heads, bits, lists, i);
    InsertedSmall(m, heads, bits, lists, p, i);
    var f := b;
    bits' := Mark(bits, BitOf(i));
    if Marked(bits, i) {
      f := m[b].forw;
      MarkTwice(bits, i);
      bits' := bits;
    }
    m' := Link(Link(m, p, f), b, p);
    lists' := lists[i := [p] + lists[i]];
  }

  lemma RemovedSmall(m: Heap, heads: Addr, bits: bv32, lists: seq<seq<Addr>>, p: Addr, i: nat, a: seq<Addr>,
                     c: seq<Addr>)
    requires Smalls(m, heads, bits, lists) && i < 32 && |lists| == 32 && lists[i] == a + [p] + c
    ensures p in m && m[p].forw in m && m[p].back in m && (m[p].forw == m[p].back <==> a + c == [])
    ensures var last := a + c == []; var lists' := lists[i := a + c];
      var m' := if last then m else Link(m, m[p].back, m[p].forw);
      && Smalls(m', heads, if last then Clear(bits, BitOf(i)) else bits, lists')
      && Listed(lists') == Listed(lists) - {p}
      && SameHeaders(m, m') && forall y :: y in m && y >= heads + 0x100 && y !in Listed(lists) ==> m'[y] == m[y]
  {
    hide Smalls, Listed, Clear, BitOf, Marked, SameHeaders, Circular, Link, Elems;
    SmallOf(m, heads, bits, lists, i);
    var b, last := BinAt(heads, i), a + c == [];
    ShorterRing(m, b, a, p, c);
    var m' := if last then m else Link(m, m[p].back, m[p].forw);
    LinkHeaders(m, m[p].back, m[p].forw);
    HeadersStay(m);
    HeaderSizes(m, m');
    var bits' := if last then Clear(bits, BitOf(i)) else bits;
    forall j ensures Marked(Clear(bits, BitOf(i)), j) <==> j != i && Marked(bits, j) {
      MarkedAfter(bits, i, j);
    }
    SmallReplaced(m, m', heads, bits, bits', lists, i, a + c);
  }

  lemma LinkHeaders(m: Heap, p: Addr, f: Addr)
    requires p in m && f in m
    ensures SameHeaders(m, Link(m, p, f)) && Link(m, p, f).Keys == m.Keys
    ensures forall y :: y in m && y != p && y != f ==> Link(m, p, f)[y] == m[y]
  {
  }

  lemma ShorterRing(m: Heap, b: Addr, a: seq<Addr>, p: Addr, c: seq<Addr>)
    requires Circular(m, [b] + (a + [p] + c))
    ensures p in m && m[p].forw in m && m[p].back in m && (m[p].forw == m[p].back <==> a + c == [])
    ensures a + c != [] ==> Circular(Link(m, m[p].back, m[p].forw), [b] + (a + c))
    ensures Elems(a + [p] + c) == Elems(a + c) + {p} && p !in Elems(a + c)
    ensures {m[p].forw, m[p].back} <= {b} + Elems(a + c)
  {
    hide Circular;
    assert [b] + (a + [p] + c) == ([b] + a) + [p] + c && [b] + (a + c) == ([b] + a) + c;
    InnerUnlinked(m, [b] + a, p, c);
    Neighbours(m, [b] + a, p, c);
    ElemsOfSum([b], a + c);
    ElemsOfThree(a, [p], c);
    ElemsOfFew(p);
    ElemsOfFew(b);
  }

  lemma Neighbours(m: Heap, a: seq<Addr>, p: Addr, c: seq<Addr>)
    requires a != [] && Circular(m, a + [p] + c)
    ensures Last(a) == Head(c, a) <==> |a| == 1 && c == []
  {
    CircleOfThree(m, a, [p], c);
    Ends(a);
    Ends(c);
  }

  /** A chunk leaves its small bin. */
  method UnlinkSmallChunk(m: Heap, heads: Addr, bits: bv32, p: Addr, s: nat, ghost lists: seq<seq<Addr>>)
      returns (m': Heap, bits': bv32, ghost lists': seq<seq<Addr>>)
    requires Smalls(m, heads, bits, lists) && p in Listed(lists) && p in m && m[p].data.size == s
    ensures Smalls(m', heads, bits', lists') && Listed(lists') == Listed(lists) - {p}
    ensures SameHeaders(m, m') && forall y :: y in m && y >= heads + 0x100 && y !in Listed(lists) ==> m'[y] == m[y]
  {
    hide Smalls, Clear, BitOf, Marked, SameHeaders, Circular, Link, Elems;
    ghost var k :| 0 <= k < |lists| && p in lists[k];
    hide Listed;
    ListCount(m, heads, bits, lists);
    SmallOf(m, heads, bits, lists, k);
    SizeOfSmall(m, heads, k, lists[k], p);
    var i := s / 8;
    ghost var n := IndexOf(lists[i], p);
    ghost var a, c := lists[i][..n], lists[i][n + 1..];
    assert lists[i] == a + [p] + c;
    RemovedSmall(m, heads, bits, lists, p, i, a, c);
    var f, b := m[p].forw, m[p].back;
    if b == f {
      m', bits' := m, Clear(bits, BitOf(i));
    } else {
      m', bits' := Link(m, b, f), bits;
    }
    lists' := lists[i := a + c];
  }

  lemma ListCount(m: Heap, heads: Addr, bits: bv32, lists: seq<seq<Addr>>)
    requires Smalls(m, heads, bits, lists)
    ensures |lists| == 32
  {
  }

  lemma SizeOfSmall(m: Heap, heads: Addr, i: nat, list: seq<Addr>, p: Addr)
    requires Small(m, heads, i, list) && p in list
    ensures p in m && m[p].data.size == 8 * i && p >= heads + 0x100
  {
    assert p in Elems(list);
  }

  /** The first chunk of a small bin that is not empty. */
  lemma FirstOfSmall(m: Heap, heads: Addr, bits: bv32, lists: seq<seq<Addr>>, i: nat)
    requires Smalls(m, heads, bits, lists) && i < 32 && Marked(bits, i)
    ensures BinAt(heads, i) in m
    ensures var p := m[BinAt(heads, i)].forw; p in Listed(lists) && p in m && m[p].data.size == 8 * i
  {
    SmallOf(m, heads, bits, lists, i);
    var list, b := lists[i], BinAt(heads, i);
    var ring := [b] + list;
    assert ring[0] == b && ring[1] == list[0];
    assert b in Elems(ring);
    SizeOfSmall(m, heads, i, list, list[0]);
    assert list[0] in Listed(lists);
  }

  /** The bins from lo up to hi are empty. */
  ghost predicate NoneMarked(bits: bv32, lo: nat, hi: nat) {
    forall j :: lo <= j < hi ==> !Marked(bits, j)
  }

  /** One of the two bins from idx on fits without a remainder that could be a chunk; the first that does. */
  lemma ExactBin(bits: bv32, idx: nat)
    requires idx < 32
    ensures var rest := Shr(bits, idx); rest & 3 != 0 ==>
      var i := idx + (!rest & 1) as nat; i < 32 && idx <= i <= idx + 1 && Marked(bits, i) && NoneMarked(bits, idx, i)
  {
    var rest := Shr(bits, idx);
    LowBits(rest);
    MarkedShr(bits, idx, 0);
    MarkedShr(bits, idx, 1);
    if rest & 3 != 0 {
      if !Odd(rest) {
        FitsBelow(bits, 32);
        MarkedFits(bits, idx + 1, 32);
      }
      SmallValues(!rest & 1);
    }
  }

  lemma SmallValues(x: bv32)
    ensures x == 0 ==> x as nat == 0
    ensures x == 1 ==> x as nat == 1
  {
  }

  /** The next small bin that is not empty leaves a remainder that is a chunk. */
  lemma NextSmall(bits: bv32, idx: nat) returns (i: nat)
    requires idx < 32 && Shr(bits, idx) & 3 == 0 && Shr(bits, idx) != 0
    ensures idx + 2 <= i < 32 && Marked(bits, i) && NoneMarked(bits, idx, i)
    ensures BitToIndex(LeastBit(Both(Shl(Shr(bits, idx), idx), LeftBits(BitOf(idx))))) as nat == i
  {
    var rest := Shr(bits, idx);
    LowBits(rest);
    hide Both, LeftBits, BitOf, LeastBit, BitToIndex;
    var left := Both(LeftBits(BitOf(idx)), Shl(rest, idx));
    BothWays(LeftBits(BitOf(idx)), Shl(rest, idx));
    forall j | 0 <= j < 32 ensures Marked(left, j) <==> idx < j && Marked(bits, j) {
      LeftOfBit(Shl(rest, idx), idx, j);
      MarkedShl(rest, idx, j);
      if idx <= j {
        MarkedShr(bits, idx, j - idx);
      }
    }
    var k := SomeBit(bits, idx);
    MarkedShr(bits, idx, 0);
    MarkedShr(bits, idx, 1);
    assert Marked(left, k);
    if left == 0 {
      MarkedNone(k);
    }
    FitsBelow(left, 32);
    i := LeastBitOf(left, 32);
    IndexOfBit(i);
  }

  lemma BothWays(x: bv32, y: bv32)
    ensures Both(x, y) == Both(y, x)
  {
  }

  lemma SomeBit(bits: bv32, idx: nat) returns (k: nat)
    requires idx < 32 && Shr(bits, idx) != 0
    ensures idx <= k < 32 && Marked(bits, k)
  {
    var rest := Shr(bits, idx);
    FitsBelow(rest, 32);
    if forall j :: 0 <= j < 32 ==> !Marked(rest, j) {
      NoBits(rest, 32);
    }
    var j :| 0 <= j < 32 && Marked(rest, j);
    MarkedShr(bits, idx, j);
    k := j + idx;
    FitsBelow(bits, 32);
    MarkedFits(bits, k, 32);
  }

  /** When the bins from lo up to hi are empty, no chunk in a small bin is as large as those of lo, but smaller
      than those of hi. */
  lemma SizesBetween(m: Heap, heads: Addr, bits: bv32, lists: seq<seq<Addr>>, lo: nat, hi: nat)
    requires Smalls(m, heads, bits, lists) && hi <= 32 && NoneMarked(bits, lo, hi)
    ensures forall x :: x in Listed(lists) ==> x in m && (m[x].data.size < 8 * lo || 8 * hi <= m[x].data.size)
  {
    forall x | x in Listed(lists) ensures x in m && (m[x].data.size < 8 * lo || 8 * hi <= m[x].data.size) {
      var i :| 0 <= i < |lists| && x in lists[i];
      SmallOf(m, heads, bits, lists, i);
      SizeOfSmall(m, heads, i, lists[i], x);
    }
  }

  /** No small bin from idx on holds a chunk. */
  lemma NoSmallFrom(m: Heap, heads: Addr, bits: bv32, lists: seq<seq<Addr>>, idx: nat)
    requires Smalls(m, heads, bits, lists) && idx < 32 && Shr(bits, idx) == 0
    ensures forall x :: x in Listed(lists) ==> x in m && m[x].data.size < 8 * idx
  {
    forall j | idx <= j < 32 ensures !Marked(bits, j) {
      MarkedShr(bits, idx, j - idx);
      MarkedNone(j - idx);
    }
    SizesBetween(m, heads, bits, lists, idx, 32);
    forall x | x in Listed(lists) ensures x in m && m[x].data.size < 0x100 {
      var i :| 0 <= i < |lists| && x in lists[i];
      SmallOf(m, heads, bits, lists, i);
      SizeOfSmall(m, heads, i, lists[i], x);
    }
  }
}
