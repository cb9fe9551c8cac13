/** All bins of the allocator together: which free chunks are in them. */
module FreeChunkLists {
  import opened Rings
  import opened BinBits
  import opened TreeIndex
  import opened SizeTrie
  import opened TreeBins
  import opened SmallBins
  import opened BoundaryTags

  /** The bins and what is in them. */
  datatype Lists = Lists(treebins: seq<Addr>, treemap: bv32, smallmap: bv32)

  /** The tries and lists that the bins are. */
  datatype Shapes = Shapes(tries: seq<Trie>, lists: seq<seq<Addr>>)

  /** The bins hold exactly the chunks free, each of them once. */
  ghost predicate Filed(m: Heap, heads: Addr, b: Lists, s: Shapes, free: set<Addr>) {
    && Bins(m, b.treebins, b.treemap, s.tries) && Smalls(m, heads, b.smallmap, s.lists)
    && Binned(s.tries) !! Listed(s.lists) && free == Binned(s.tries) + Listed(s.lists)
    && (forall x :: x in free ==> heads + 0x100 <= x)
  }

  /** The links and sizes of all chunks but those of changed are as they were. */
  ghost predicate LinksKept(m: Heap, m': Heap, changed: set<Addr>) {
    m.Keys <= m'.Keys && forall x :: x in m && x !in changed ==> SameNode(m[x], m'[x])
  }

  lemma LinksKeptTwice(m: Heap, m': Heap, m'': Heap, a: set<Addr>, b: set<Addr>)
    requires LinksKept(m, m', a) && LinksKept(m', m'', b)
    ensures LinksKept(m, m'', a + b)
  {
  }

  lemma HeadKept(m: Heap, p: Addr, size: nat, pinuse: bool, cinuse: bool)
    requires p in m
    ensures LinksKept(m, SetHead(m, p, size, pinuse, cinuse), {p})
  {
  }

  /** What happens to chunks that are in no bin does not matter to the bins. */
  lemma FiledFrame(m: Heap, m': Heap, heads: Addr, b: Lists, s: Shapes, free: set<Addr>, changed: set<Addr>)
    requires Filed(m, heads, b, s, free) && LinksKept(m, m', changed) && changed !! free
    requires forall x :: x in changed ==> heads + 0x100 <= x
    ensures Filed(m', heads, b, s, free)
  {
    hide Bin, Small, Marked, Binned, Listed;
    BinsFrame(m, m', b.treebins, b.treemap, s.tries);
    SmallsFrame(m, m', heads, b.smallmap, s.lists, changed);
  }

  lemma BinsFrame(m: Heap, m': Heap, bins: seq<Addr>, bits: bv32, tries: seq<Trie>)
    requires Bins(m, bins, bits, tries)
    requires forall y :: y in Binned(tries) && y in m ==> y in m' && SameNode(m[y], m'[y])
    ensures Bins(m', bins, bits, tries)
  {
    hide Bin, Marked, SameNode, Binned;
    forall i | 0 <= i < 32 ensures Bin(m', tries[i], bins[i], i) {
      NodesOfBin(tries, i);
      ShapeNodesOfBin(m, tries[i], bins[i], i);
      BinFrame(m, m', tries[i], bins[i], i);
    }
  }

  lemma SmallsFrame(m: Heap, m': Heap, heads: Addr, bits: bv32, lists: seq<seq<Addr>>, changed: set<Addr>)
    requires Smalls(m, heads, bits, lists) && LinksKept(m, m', changed) && changed !! Listed(lists)
    requires forall x :: x in changed ==> heads + 0x100 <= x
    ensures Smalls(m', heads, bits, lists)
  {
    hide Small, Marked, Listed;
    forall i | 0 <= i < 32 ensures Small(m', heads, i, lists[i]) {
      SmallOf(m, heads, bits, lists, i);
      OneSmallFrame(m, m', heads, i, lists[i], changed);
    }
  }

  lemma OneSmallFrame(m: Heap, m': Heap, heads: Addr, i: nat, list: seq<Addr>, changed: set<Addr>)
    requires i < 32 && Small(m, heads, i, list) && LinksKept(m, m', changed) && changed !! Elems(list)
    requires forall x :: x in changed ==> heads + 0x100 <= x
    ensures Small(m', heads, i, list)
  {
    assert BinAt(heads, i) !in changed;
    SmallFrame(m, m', heads, i, list);
  }

  /** A chunk goes into its bin. */
  method InsertChunk(m: Heap, heads: Addr, b: Lists, p: Addr, size: nat, ghost s: Shapes, ghost free: set<Addr>)
      returns (m': Heap, b': Lists, ghost s': Shapes)
    requires Filed(m, heads, b, s, free) && p in m && p !in free && p != 0 && heads + 0x100 <= p
    requires m[p].data.size == size && size % 8 == 0 && size < WORD
    ensures Filed(m', heads, b', s', free + {p}) && SameHeaders(m, m')
    ensures forall y :: y in m && heads + 0x100 <= y && y !in free && y != p ==> m'[y] == m[y]
  {
    hide Bins, Smalls, Binned, Listed, SameHeaders;
    if size / 8 < 32 {
      m', b', s' := m, b, s;
      var bits;
      ghost var lists;
      m', bits, lists := InsertSmallChunk(m, heads, b.smallmap, p, size, s.lists);
      b', s' := b.(smallmap := bits), s.(lists := lists);
      HeadersKeys(m, m');
      TreesApart(m, m', heads, b, s, p);
    } else {
      var bins, bits;
      ghost var tries;
      m', bins, bits, tries := InsertLargeChunk(m, b.treebins, b.treemap, p, size, s.tries);
      b', s' := b.(treebins := bins, treemap := bits), s.(tries := tries);
      HeadersKeys(m, m');
      SmallsApart(m, m', heads, b, s, p);
    }
  }

  lemma TreesApart(m: Heap, m': Heap, heads: Addr, b: Lists, s: Shapes, p: Addr)
    requires Filed(m, heads, b, s, Binned(s.tries) + Listed(s.lists)) && p !in Binned(s.tries) && m'.Keys == m.Keys
    requires forall y :: y in m && y >= heads + 0x100 && y !in Listed(s.lists) && y != p ==> m'[y] == m[y]
    ensures Bins(m', b.treebins, b.treemap, s.tries)
  {
    BinsFrame(m, m', b.treebins, b.treemap, s.tries);
  }

  lemma SmallsApart(m: Heap, m': Heap, heads: Addr, b: Lists, s: Shapes, p: Addr)
    requires Filed(m, heads, b, s, Binned(s.tries) + Listed(s.lists)) && p !in Listed(s.lists) && heads + 0x100 <= p
    requires m'.Keys == m.Keys && forall y :: y in m && y !in Binned(s.tries) && y != p ==> m'[y] == m[y]
    ensures Smalls(m', heads, b.smallmap, s.lists)
  {
    SmallsFrame(m, m', heads, b.smallmap, s.lists, Binned(s.tries) + {p});
  }

  /** A chunk leaves its bin. */
  method UnlinkChunk(m: Heap, heads: Addr, b: Lists, p: Addr, size: nat, ghost s: Shapes, ghost free: set<Addr>)
      returns (m': Heap, b': Lists, ghost s': Shapes)
    requires Filed(m, heads, b, s, free) && p in free && p in m && m[p].data.size == size
    ensures Filed(m', heads, b', s', free - {p}) && SameHeaders(m, m')
    ensures forall y :: y in m && heads + 0x100 <= y && y !in free ==> m'[y] == m[y]
  {
    hide Bins, Smalls, Binned, Listed, SameHeaders;
    BinBySize(m, heads, b, s, free, p);
    if size / 8 < 32 {
      var bits;
      ghost var lists;
      m', bits, lists := UnlinkSmallChunk(m, heads, b.smallmap, p, size, s.lists);
      b', s' := b.(smallmap := bits), s.(lists := lists);
      HeadersKeys(m, m');
      TreesApart(m, m', heads, b, s, p);
    } else {
      var bins, bits;
      ghost var tries;
      m', bins, bits, tries := UnlinkLargeChunk(m, b.treebins, b.treemap, p, s.tries);
      b', s' := b.(treebins := bins, treemap := bits), s.(tries := tries);
      HeadersKeys(m, m');
      SmallsApart(m, m', heads, b, s, p);
    }
  }

  /** The size of a chunk tells whether it is in a small bin or in a tree bin. */
  lemma BinBySize(m: Heap, heads: Addr, b: Lists, s: Shapes, free: set<Addr>, p: Addr)
    requires Filed(m, heads, b, s, free) && p in free && p in m
    ensures m[p].data.size / 8 < 32 ==> p in Listed(s.lists) && p !in Binned(s.tries)
    ensures m[p].data.size / 8 >= 32 ==> p in Binned(s.tries) && p !in Listed(s.lists)
  {
    if p in Binned(s.tries) {
      var i :| 0 <= i < |s.tries| && p in Nodes(s.tries[i]);
      BinCount(m, b.treebins, b.treemap, s.tries);
      SizeInBin(m, b.treebins, b.treemap, s.tries, i, p);
      BinOf(m, b.treebins, b.treemap, s.tries, i);
    } else {
      var i :| 0 <= i < |s.lists| && p in s.lists[i];
      SmallOf(m, heads, b.smallmap, s.lists, i);
      SizeOfSmall(m, heads, i, s.lists[i], p);
    }
  }
}
