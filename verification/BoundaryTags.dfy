/** The chunks that tile the heap, and the tags that mark their boundaries. */
module BoundaryTags {
  import opened Rings
  import opened TreeIndex
  import opened SizeTrie
  import opened TreeBins

  const MIN_CHUNK_SIZE := 16

  function SetHead(m: Heap, p: Addr, size: nat, pinuse: bool, cinuse: bool): Heap
    requires p in m
  {
    m[p := m[p].(data := m[p].data.(size := size, pinuse := pinuse, cinuse := cinuse))]
  }

  function SetPinuse(m: Heap, p: Addr, pinuse: bool): Heap
    requires p in m
  {
    m[p := m[p].(data := m[p].data.(pinuse := pinuse))]
  }

  function SetFoot(m: Heap, next: Addr, size: nat): Heap
    requires next in m
  {
    m[next := m[next].(data := m[next].data.(prevFoot := size))]
  }

  function SetSizeAndPinuseOfFreeChunk(m: Heap, p: Addr, s: nat): Heap
    requires p in m && p + s in m
  {
    SetFoot(SetHead(m, p, s, true, false), p + s, s)
  }

  function SetFreeWithPinuse(m: Heap, p: Addr, s: nat, next: Addr): Heap
    requires p in m && next in m && p + s in m
  {
    SetSizeAndPinuseOfFreeChunk(SetPinuse(m, next, false), p, s)
  }

  function SetSizeAndPinuseOfInuseChunk(m: Heap, p: Addr, s: nat): Heap
    requires p in m
  {
    SetHead(m, p, s, true, true)
  }

  function SetInuseAndPinuse(m: Heap, p: Addr, s: nat): Heap
    requires p in m && p + s in m
  {
    SetPinuse(SetHead(m, p, s, true, true), p + s, true)
  }

  function SetInuse(m: Heap, p: Addr, s: nat): Heap
    requires p in m && p + s in m
  {
    SetPinuse(SetHead(m, p, s, m[p].data.pinuse, true), p + s, true)
  }

  lemma Eighths(a: int, b: int)
    requires a % 8 == 0 && b % 8 == 0
    ensures (a + b) % 8 == 0 && (a - b) % 8 == 0
  {
  }

  /** Every aligned address from base to end can begin a chunk. */
  ghost predicate Backed(m: Heap, base: Addr, end: Addr) {
    forall a: Addr :: base <= a <= end && a % 8 == 0 ==> a in m
  }

  /** A chunk ends where the next one begins, which knows whether it is in use. A free chunk lies
      between chunks in use, and its size is also found at its end. */
  ghost predicate ChunkTags(m: Heap, top: Addr, chunks: set<Addr>, p: Addr) {
    && p in m && p % 8 == 0 && m[p].data.size % 8 == 0 && m[p].data.size >= MIN_CHUNK_SIZE
    && var next := p + m[p].data.size;
    && next <= top && (next in chunks || next == top) && next in m && m[next].data.pinuse == m[p].data.cinuse
    && (!m[p].data.cinuse ==>
          && m[p].data.pinuse && next in chunks && m[next].data.cinuse && m[next].data.prevFoot == m[p].data.size)
  }

  /** A segment reaches from base to the end of the top chunk; or, when it has been closed so that it
      has no top chunk, to the fencepost at top, which looks like a chunk in use. */
  ghost predicate Bounds(m: Heap, base: Addr, top: Addr, topsize: nat) {
    && 0 < base <= top && base % 8 == 0 && top % 8 == 0 && topsize % 8 == 0 && top + topsize <= WORD
    && Backed(m, base, top + topsize)
    && top in m && m[top].data.pinuse && TopHead(m[top].data.size, m[top].data.cinuse, topsize)
    && base in m && m[base].data.pinuse
  }

  ghost predicate TopHead(size: nat, cinuse: bool, topsize: nat) {
    cinuse == (topsize == 0) && (topsize > 0 ==> size == topsize)
  }

  ghost predicate Apart(m: Heap, chunks: set<Addr>) {
    forall p, q :: p in chunks && q in chunks && p < q ==> p in m && p + m[p].data.size <= q
  }

  /** The chunks and the top chunk tile the heap from base on. */
  ghost predicate Tags(m: Heap, base: Addr, top: Addr, topsize: nat, chunks: set<Addr>) {
    && Bounds(m, base, top, topsize) && (base in chunks || base == top) && top !in chunks
    && (forall p {:trigger ChunkTags(m, top, chunks, p)} :: p in chunks ==> base <= p && ChunkTags(m, top, chunks, p))
    && Apart(m, chunks)
  }

  ghost function Allocated(m: Heap, chunks: set<Addr>): map<Addr, nat> {
    map p | p in chunks && p in m && m[p].data.cinuse :: m[p].data.size
  }

  ghost function FreeChunks(m: Heap, chunks: set<Addr>): set<Addr> {
    set p | p in chunks && p in m && !m[p].data.cinuse
  }

  /** What a chunk says of itself and of the next one. */
  lemma ChunkFacts(m: Heap, top: Addr, chunks: set<Addr>, p: Addr)
    requires ChunkTags(m, top, chunks, p)
    ensures p in m && p % 8 == 0 && m[p].data.size % 8 == 0 && m[p].data.size >= MIN_CHUNK_SIZE
    ensures var next := p + m[p].data.size;
      && next <= top && (next in chunks || next == top) && next in m && m[next].data.pinuse == m[p].data.cinuse
      && (!m[p].data.cinuse ==>
            && m[p].data.pinuse && next in chunks && m[next].data.cinuse && m[next].data.prevFoot == m[p].data.size)
  {
  }

  /** The tags of a chunk depend on its header and the next one. */
  lemma ChunkFrame(m: Heap, m': Heap, top: Addr, chunks: set<Addr>, p: Addr)
    requires ChunkTags(m, top, chunks, p) && p in m && SameHeader(m, m', p) && SameHeader(m, m', p + m[p].data.size)
    ensures ChunkTags(m', top, chunks, p)
  {
  }

  ghost predicate SameHeader(m: Heap, m': Heap, p: Addr) {
    && p in m && p in m'
    && m'[p].data.size == m[p].data.size && m'[p].data.prevFoot == m[p].data.prevFoot
    && m'[p].data.pinuse == m[p].data.pinuse && m'[p].data.cinuse == m[p].data.cinuse
  }

  lemma BoundsFrame(m: Heap, m': Heap, base: Addr, top: Addr, topsize: nat)
    requires Bounds(m, base, top, topsize) && m.Keys <= m'.Keys && base in m' && m'[base].data.pinuse
    requires top in m && top in m' && m'[top].data.size == m[top].data.size && m'[top].data.pinuse
    requires m'[top].data.cinuse == m[top].data.cinuse
    ensures Bounds(m', base, top, topsize)
  {
  }

  lemma BoundsFacts(m: Heap, base: Addr, top: Addr, topsize: nat)
    requires Bounds(m, base, top, topsize)
    ensures 0 < base <= top && base in m && m[base].data.pinuse && top in m && m[top].data.pinuse
    ensures m[top].data.cinuse == (topsize == 0) && (topsize > 0 ==> m[top].data.size == topsize)
    ensures base % 8 == 0 && top % 8 == 0 && topsize % 8 == 0 && top + topsize <= WORD
    ensures Backed(m, base, top + topsize)
  {
  }

  lemma SameHeaderOf(m: Heap, m': Heap, p: Addr)
    requires SameHeaders(m, m') && p in m
    ensures SameHeader(m, m', p)
  {
  }

  lemma ApartFrame(m: Heap, m': Heap, chunks: set<Addr>)
    requires Apart(m, chunks) && forall p :: p in chunks && p in m ==> p in m' && m'[p].data.size <= m[p].data.size
    ensures Apart(m', chunks)
  {
  }

  lemma TagsFrame(m: Heap, m': Heap, base: Addr, top: Addr, topsize: nat, chunks: set<Addr>)
    requires Tags(m, base, top, topsize, chunks) && SameHeaders(m, m')
    ensures Tags(m', base, top, topsize, chunks)
    ensures Allocated(m', chunks) == Allocated(m, chunks) && FreeChunks(m', chunks) == FreeChunks(m, chunks)
  {
    hide ChunkTags, Backed;
    forall p | p in chunks ensures base <= p && ChunkTags(m', top, chunks, p) {
      ChunkFacts(m, top, chunks, p);
      SameHeaderOf(m, m', p);
      SameHeaderOf(m, m', p + m[p].data.size);
      ChunkFrame(m, m', top, chunks, p);
    }
    ApartFrame(m, m', chunks);
    BoundsFrame(m, m', base, top, topsize);
  }

  /** The chunk before p ends at p. */
  lemma Predecessor(m: Heap, base: Addr, top: Addr, topsize: nat, chunks: set<Addr>, p: Addr,
                    from: Addr) returns (q: Addr)
    requires Tags(m, base, top, topsize, chunks) && (p in chunks || p == top) && from in chunks && from < p
    ensures q in chunks && q in m && q + m[q].data.size == p
    decreases p - from
  {
    hide ChunkTags, Bounds;
    ChunkFacts(m, top, chunks, from);
    if p in chunks {
      ChunkFacts(m, top, chunks, p);
    }
    var next := from + m[from].data.size;
    if next == p {
      q := from;
    } else {
      assert Apart(m, chunks);
      q := Predecessor(m, base, top, topsize, chunks, p, next);
    }
  }

  /** A chunk whose tag says that the chunk before it is free finds that chunk by its foot. */
  lemma PreviousFree(m: Heap, base: Addr, top: Addr, topsize: nat, chunks: set<Addr>, p: Addr)
    requires Tags(m, base, top, topsize, chunks) && p in chunks && p in m && !m[p].data.pinuse
    ensures var q := p - m[p].data.prevFoot;
      && base <= q && q in chunks && q in m && !m[q].data.cinuse && m[q].data.size == m[p].data.prevFoot
      && m[q].data.pinuse
  {
    hide ChunkTags, Backed;
    ChunkFacts(m, top, chunks, p);
    var q := Predecessor(m, base, top, topsize, chunks, p, base);
    ChunkFacts(m, top, chunks, q);
  }

  lemma WholeEffects(m: Heap, p: Addr, s: nat)
    requires p in m && p + s in m && 0 < s
    ensures var m' := SetInuseAndPinuse(m, p, s);
      && m'.Keys == m.Keys && (forall q :: q in m && q != p && q != p + s ==> m'[q] == m[q])
      && m'[p].data == m[p].data.(size := s, pinuse := true, cinuse := true)
      && m'[p + s].data == m[p + s].data.(pinuse := true)
  {
  }

  lemma WholeTags(m: Heap, base: Addr, top: Addr, topsize: nat, chunks: set<Addr>, p: Addr)
    requires Tags(m, base, top, topsize, chunks) && p in chunks && p in m && !m[p].data.cinuse
    requires p + m[p].data.size in m
    ensures Tags(SetInuseAndPinuse(m, p, m[p].data.size), base, top, topsize, chunks)
  {
    hide ChunkTags, Backed, SetInuseAndPinuse;
    ChunkFacts(m, top, chunks, p);
    WholeEffects(m, p, m[p].data.size);
    var m' := SetInuseAndPinuse(m, p, m[p].data.size);
    forall q | q in chunks ensures base <= q && ChunkTags(m', top, chunks, q) {
      ChunkFacts(m, top, chunks, q);
      ChunkOf(m', top, chunks, q);
    }
    ApartFrame(m, m', chunks);
    BoundsFrame(m, m', base, top, topsize);
  }

  /** A free chunk becomes a chunk in use. */
  lemma WholeAllocated(m: Heap, base: Addr, top: Addr, topsize: nat, chunks: set<Addr>, p: Addr)
    requires Tags(m, base, top, topsize, chunks) && p in FreeChunks(m, chunks)
    ensures p in m && p + m[p].data.size in m
    ensures var m' := SetInuseAndPinuse(m, p, m[p].data.size);
      && Tags(m', base, top, topsize, chunks)
      && Allocated(m', chunks) == Allocated(m, chunks)[p := m[p].data.size]
      && FreeChunks(m', chunks) == FreeChunks(m, chunks) - {p}
  {
    ChunkFacts(m, top, chunks, p);
    hide Tags, ChunkTags, SetInuseAndPinuse;
    WholeTags(m, base, top, topsize, chunks, p);
    WholeEffects(m, p, m[p].data.size);
  }

  /** A chunk is right when the tags of it and the next one are. */
  lemma ChunkOf(m: Heap, top: Addr, chunks: set<Addr>, p: Addr)
    requires p in m && p % 8 == 0 && m[p].data.size % 8 == 0 && m[p].data.size >= MIN_CHUNK_SIZE
    requires var next := p + m[p].data.size;
      && next <= top && (next in chunks || next == top) && next in m && m[next].data.pinuse == m[p].data.cinuse
      && (!m[p].data.cinuse ==>
            && m[p].data.pinuse && next in chunks && m[next].data.cinuse && m[next].data.prevFoot == m[p].data.size)
    ensures ChunkTags(m, top, chunks, p)
  {
  }

  /** The memory after the front of free chunk p of size s goes into use. */
  function SplitFront(m: Heap, p: Addr, nb: nat, rsize: nat): Heap
    requires p in m && p + nb in m && p + nb + rsize in m
  {
    SetSizeAndPinuseOfFreeChunk(SetSizeAndPinuseOfInuseChunk(m, p, nb), p + nb, rsize)
  }

  lemma FrontTags(m: Heap, base: Addr, top: Addr, topsize: nat, chunks: set<Addr>, p: Addr, nb: nat)
    requires Tags(m, base, top, topsize, chunks) && p in chunks && p in m && !m[p].data.cinuse
    requires nb % 8 == 0 && MIN_CHUNK_SIZE <= nb && nb + MIN_CHUNK_SIZE <= m[p].data.size
    requires p + nb in m && p + m[p].data.size in m
    ensures Tags(SplitFront(m, p, nb, m[p].data.size - nb), base, top, topsize, chunks + {p + nb})
  {
    hide ChunkTags, SplitFront, Backed;
    ChunkFacts(m, top, chunks, p);
    Inside(m, base, top, topsize, chunks, p, p + nb);
    var rsize, r := m[p].data.size - nb, p + nb;
    Eighths(p, nb);
    Eighths(m[p].data.size, nb);
    FrontEffects(m, p, nb, rsize);
    var m' := SplitFront(m, p, nb, rsize);
    forall q | q in chunks ensures base <= q && ChunkTags(m', top, chunks + {r}, q) {
      FrontChunk(m, top, chunks, p, nb, q);
    }
    assert ChunkTags(m', top, chunks + {r}, r) by { ChunkOf(m', top, chunks + {r}, r); }
    assert Apart(m', chunks + {r}) by { SplitApart(m, m', chunks, p, r); }
    BoundsFrame(m, m', base, top, topsize);
  }

  /** A free chunk is split: the front goes into use, the rest stays free. */
  lemma FrontAllocated(m: Heap, base: Addr, top: Addr, topsize: nat, chunks: set<Addr>, p: Addr, nb: nat)
    requires Tags(m, base, top, topsize, chunks) && p in FreeChunks(m, chunks) && p in m
    requires nb % 8 == 0 && MIN_CHUNK_SIZE <= nb && nb + MIN_CHUNK_SIZE <= m[p].data.size
    ensures var rsize := m[p].data.size - nb;
      && p + nb in m && p + nb + rsize in m && p + nb !in chunks
      && var m' := SplitFront(m, p, nb, rsize);
      && Tags(m', base, top, topsize, chunks + {p + nb})
      && Allocated(m', chunks + {p + nb}) == Allocated(m, chunks)[p := nb]
      && FreeChunks(m', chunks + {p + nb}) == FreeChunks(m, chunks) - {p} + {p + nb}
      && m'[p + nb].data.size == rsize
  {
    hide Tags, ChunkTags, SplitFront, Allocated;
    InsideChunk(m, base, top, topsize, chunks, p, nb);
    FrontTags(m, base, top, topsize, chunks, p, nb);
    FrontEffects(m, p, nb, m[p].data.size - nb);
    SplitMaps(m, SplitFront(m, p, nb, m[p].data.size - nb), chunks, p, p + nb);
  }

  lemma FrontChunk(m: Heap, top: Addr, chunks: set<Addr>, p: Addr, nb: nat, q: Addr)
    requires q in chunks && p in chunks && ChunkTags(m, top, chunks, q) && ChunkTags(m, top, chunks, p)
    requires !m[p].data.cinuse
    requires nb % 8 == 0 && MIN_CHUNK_SIZE <= nb && nb + MIN_CHUNK_SIZE <= m[p].data.size && p + nb in m
    requires q == p || q + m[q].data.size <= p || p + m[p].data.size <= q
    ensures ChunkTags(SplitFront(m, p, nb, m[p].data.size - nb), top, chunks + {p + nb}, q)
  {
    hide SplitFront;
    FrontEffects(m, p, nb, m[p].data.size - nb);
  }

  /** Chunk p is divided at r. */
  lemma SplitApart(m: Heap, m': Heap, chunks: set<Addr>, p: Addr, r: Addr)
    requires Apart(m, chunks) && p in chunks && p in m && p < r < p + m[p].data.size
    requires forall q :: q in chunks && q != p && q in m ==> q in m' && m'[q].data.size == m[q].data.size
    requires p in m' && r in m' && m'[p].data.size == r - p && m'[r].data.size == p + m[p].data.size - r
    ensures Apart(m', chunks + {r})
  {
  }

  lemma SplitMaps(m: Heap, m': Heap, chunks: set<Addr>, p: Addr, r: Addr)
    requires p in chunks && p in m && !m[p].data.cinuse && r !in chunks && m.Keys == m'.Keys && r in m
    requires m'[p].data.cinuse && !m'[r].data.cinuse
    requires forall q :: q in chunks && q != p && q in m ==>
      m'[q].data.size == m[q].data.size && m'[q].data.cinuse == m[q].data.cinuse
    ensures Allocated(m', chunks + {r}) == Allocated(m, chunks)[p := m'[p].data.size]
    ensures FreeChunks(m', chunks + {r}) == FreeChunks(m, chunks) - {p} + {r}
  {
  }

  lemma FrontEffects(m: Heap, p: Addr, nb: nat, rsize: nat)
    requires p in m && p + nb in m && p + nb + rsize in m && 0 < nb && 0 < rsize
    ensures var m' := SplitFront(m, p, nb, rsize);
      && m'.Keys == m.Keys
      && (forall q :: q in m && q != p && q != p + nb && q != p + nb + rsize ==> m'[q] == m[q])
      && m'[p].data == m[p].data.(size := nb, pinuse := true, cinuse := true)
      && m'[p + nb].data == m[p + nb].data.(size := rsize, pinuse := true, cinuse := false)
      && m'[p + nb + rsize].data == m[p + nb + rsize].data.(prevFoot := rsize)
  {
  }

  /** Addresses inside of a chunk: they are no chunks, and in memory when aligned. */
  lemma Inside(m: Heap, base: Addr, top: Addr, topsize: nat, chunks: set<Addr>, p: Addr, r: Addr)
    requires Tags(m, base, top, topsize, chunks) && p in chunks && p in m && p < r < p + m[p].data.size
    ensures r % 8 == 0 ==> r in m
    ensures r !in chunks && r != top && r != base
    ensures forall q :: q in chunks && q < p ==> q in m && q + m[q].data.size <= p
    ensures forall q :: q in chunks && p < q ==> p + m[p].data.size <= q
  {
    ChunkFacts(m, top, chunks, p);
    assert Apart(m, chunks);
  }

  /** Where a chunk that is freed begins: with the chunk before it when that is free. */
  ghost predicate Leftmost(m: Heap, chunks: set<Addr>, p: Addr, lo: Addr) {
    if lo == p then p in m && m[p].data.pinuse
    else lo in FreeChunks(m, chunks) && lo in m && lo + m[lo].data.size == p
  }

  /** The memory after the chunks from lo to hi become one free chunk; whether or not its last part
      was free before, so that the tag at hi says so already. */
  function FreedRegion(m: Heap, lo: Addr, hi: Addr, merge: bool): Heap
    requires lo in m && hi in m && lo <= hi
  {
    if merge then SetSizeAndPinuseOfFreeChunk(m, lo, hi - lo) else SetFreeWithPinuse(m, lo, hi - lo, hi)
  }

  lemma FreedEffects(m: Heap, lo: Addr, hi: Addr, merge: bool)
    requires lo in m && hi in m && lo < hi && (merge ==> !m[hi].data.pinuse)
    ensures var m' := FreedRegion(m, lo, hi, merge);
      && m'.Keys == m.Keys && (forall q :: q in m && q != lo && q != hi ==> m'[q] == m[q])
      && m'[lo].data == m[lo].data.(size := hi - lo, pinuse := true, cinuse := false)
      && m'[hi].data == m[hi].data.(pinuse := false, prevFoot := hi - lo)
  {
  }

  /** The chunks that vanish when p is freed. */
  ghost function Merged(p: Addr, lo: Addr, next: Addr, merge: bool): set<Addr> {
    (if lo == p then {} else {p}) + (if merge then {next} else {})
  }

  /** The end of the free chunk that p becomes part of, where next is the chunk behind p. */
  function FreedEnd(m: Heap, next: Addr): Addr
    requires next in m
  {
    if m[next].data.cinuse then next else next + m[next].data.size
  }

  /** The chunks around a chunk that is freed. */
  lemma Surroundings(m: Heap, base: Addr, top: Addr, topsize: nat, chunks: set<Addr>, p: Addr, lo: Addr)
    requires Tags(m, base, top, topsize, chunks) && p in chunks && p in m && Leftmost(m, chunks, p, lo)
    requires m[p].data.cinuse && p + m[p].data.size != top
    ensures var next := p + m[p].data.size;
      && next in chunks && next in m && next + m[next].data.size <= top
      && var hi := FreedEnd(m, next);
      && base <= lo <= p < next <= hi && lo in m && hi in m && lo in chunks && hi in chunks && lo % 8 == 0
      && hi % 8 == 0
      && m[hi].data.cinuse && m[hi].data.pinuse == m[next].data.cinuse && m[lo].data.pinuse
      && (if lo == p then true else lo + m[lo].data.size == p && !m[lo].data.cinuse)
  {
    LeftmostFacts(m, chunks, p, lo);
    hide ChunkTags, Apart, Bounds;
    ChunkFacts(m, top, chunks, p);
    ChunkFacts(m, top, chunks, p + m[p].data.size);
    ChunkFacts(m, top, chunks, lo);
    ChunkFacts(m, top, chunks, FreedEnd(m, p + m[p].data.size));
  }

  lemma FreedChunk(m: Heap, base: Addr, top: Addr, topsize: nat, chunks: set<Addr>, p: Addr, lo: Addr, q: Addr)
    requires Tags(m, base, top, topsize, chunks) && p in chunks && p in m && m[p].data.cinuse
    requires Leftmost(m, chunks, p, lo)
    requires var next := p + m[p].data.size;
      && next != top && next in m && lo in m && FreedEnd(m, next) in m && lo < FreedEnd(m, next)
      && q in chunks - Merged(p, lo, next, !m[next].data.cinuse)
    ensures var next := p + m[p].data.size; var merge := !m[next].data.cinuse;
      base <= q && ChunkTags(FreedRegion(m, lo, FreedEnd(m, next), merge), top, chunks - Merged(p, lo, next, merge), q)
  {
    hide ChunkTags, FreedRegion, Bounds, Apart, Merged, Leftmost;
    Surroundings(m, base, top, topsize, chunks, p, lo);
    var next := p + m[p].data.size;
    var merge, hi := !m[next].data.cinuse, FreedEnd(m, next);
    ChunkFacts(m, top, chunks, q);
    MergedFacts(p, lo, next, hi, merge);
    if q == lo {
      ChunkFacts(m, top, chunks, next);
      FreedEffects(m, lo, hi, merge);
      ChunkOf(FreedRegion(m, lo, hi, merge), top, chunks - Merged(p, lo, next, merge), lo);
    } else {
      OutsideOf(m, chunks, p, lo, next, hi, merge, q);
      FreedElsewhere(m, top, chunks, Merged(p, lo, next, merge), lo, hi, merge, q);
    }
  }

  lemma FreedOthers(m: Heap, base: Addr, top: Addr, topsize: nat, chunks: set<Addr>, p: Addr, lo: Addr)
    requires Tags(m, base, top, topsize, chunks) && p in chunks && p in m && m[p].data.cinuse
    requires Leftmost(m, chunks, p, lo)
    requires var next := p + m[p].data.size;
      && next in chunks && next in m && next <= top && next != top && lo in m && FreedEnd(m, next) in m
      && lo < FreedEnd(m, next)
    ensures var next := p + m[p].data.size; var merge := !m[next].data.cinuse;
      var m', chunks' := FreedRegion(m, lo, FreedEnd(m, next), merge), chunks - Merged(p, lo, next, merge);
      Apart(m', chunks') && Bounds(m', base, top, topsize) && (base in chunks' || base == top)
  {
    BoundsFacts(m, base, top, topsize);
    hide ChunkTags, FreedRegion, Bounds, Apart, Merged, Leftmost;
    Surroundings(m, base, top, topsize, chunks, p, lo);
    var next := p + m[p].data.size;
    var merge, hi := !m[next].data.cinuse, FreedEnd(m, next);
    var m' := FreedRegion(m, lo, hi, merge);
    MergedFacts(p, lo, next, hi, merge);
    FreedEffects(m, lo, hi, merge);
    MergedApart(m, m', chunks, p, lo, next, hi, merge);
    BoundsFrame(m, m', base, top, topsize);
  }

  lemma FreedTags(m: Heap, base: Addr, top: Addr, topsize: nat, chunks: set<Addr>, p: Addr, lo: Addr)
    requires Tags(m, base, top, topsize, chunks) && p in chunks && p in m && m[p].data.cinuse
    requires Leftmost(m, chunks, p, lo)
    requires var next := p + m[p].data.size;
      && next in chunks && next in m && next <= top && next != top && lo in m && FreedEnd(m, next) in m
      && lo < FreedEnd(m, next)
    ensures var next := p + m[p].data.size; var merge := !m[next].data.cinuse;
      Tags(FreedRegion(m, lo, FreedEnd(m, next), merge), base, top, topsize, chunks - Merged(p, lo, next, merge))
  {
    hide ChunkTags, FreedRegion, Bounds, Apart, Merged, Leftmost, FreedEnd;
    FreedOthers(m, base, top, topsize, chunks, p, lo);
    var next := p + m[p].data.size;
    var merge := !m[next].data.cinuse;
    var m' := FreedRegion(m, lo, FreedEnd(m, next), merge);
    forall q | q in chunks - Merged(p, lo, next, merge)
      ensures base <= q && ChunkTags(m', top, chunks - Merged(p, lo, next, merge), q)
    {
      FreedChunk(m, base, top, topsize, chunks, p, lo, q);
    }
  }

  /** A chunk in use is freed, together with its free neighbours. */
  lemma Freed(m: Heap, base: Addr, top: Addr, topsize: nat, chunks: set<Addr>, p: Addr, lo: Addr)
    requires Tags(m, base, top, topsize, chunks) && p in chunks && p in m && m[p].data.cinuse
    requires Leftmost(m, chunks, p, lo)
    requires p + m[p].data.size != top
    ensures var next := p + m[p].data.size;
      && next in chunks && next in m && next <= top && lo in m && FreedEnd(m, next) in m && lo < FreedEnd(m, next)
      && var merge := !m[next].data.cinuse;
      var m' := FreedRegion(m, lo, FreedEnd(m, next), merge); var chunks' := chunks - Merged(p, lo, next, merge);
      && Tags(m', base, top, topsize, chunks') && lo in chunks'
      && Allocated(m', chunks') == Allocated(m, chunks) - {p}
      && FreeChunks(m', chunks') == FreeChunks(m, chunks) - Merged(p, lo, next, merge) + {lo}
  {
    hide Tags, FreedRegion, Allocated, FreeChunks, Leftmost, Merged;
    Surroundings(m, base, top, topsize, chunks, p, lo);
    FreedTags(m, base, top, topsize, chunks, p, lo);
    var next := p + m[p].data.size;
    var merge := !m[next].data.cinuse;
    MergedFacts(p, lo, next, FreedEnd(m, next), merge);
    FreedEffects(m, lo, FreedEnd(m, next), merge);
    MergedMaps(m, FreedRegion(m, lo, FreedEnd(m, next), merge), chunks, p, lo, next, merge);
  }

  lemma LeftmostFacts(m: Heap, chunks: set<Addr>, p: Addr, lo: Addr)
    requires Leftmost(m, chunks, p, lo) && p in chunks
    ensures lo in chunks && lo in m
    ensures if lo == p then m[lo].data.pinuse else lo + m[lo].data.size == p && !m[lo].data.cinuse
  {
  }

  lemma MergedFacts(p: Addr, lo: Addr, next: Addr, hi: Addr, merge: bool)
    requires lo <= p < next <= hi && (merge ==> next < hi)
    ensures forall x :: x in Merged(p, lo, next, merge) ==> lo < x < hi && (x == p || x == next)
    ensures lo !in Merged(p, lo, next, merge) && hi !in Merged(p, lo, next, merge)
  {
  }

  lemma OutsideOf(m: Heap, chunks: set<Addr>, p: Addr, lo: Addr, next: Addr, hi: Addr, merge: bool, q: Addr)
    requires Apart(m, chunks) && {p, lo, next} <= chunks && hi in chunks && {p, lo, next, hi} <= m.Keys && lo < hi
    requires lo == p || lo + m[lo].data.size == p
    requires next == p + m[p].data.size && hi == (if merge then next + m[next].data.size else next)
    requires q in chunks - Merged(p, lo, next, merge) && q in m && q != lo && m[q].data.size > 0
    ensures q + m[q].data.size <= lo || hi <= q
  {
  }

  /** A chunk that is not touched when the region from lo to hi is freed. */
  lemma FreedElsewhere(m: Heap, top: Addr, chunks: set<Addr>, gone: set<Addr>, lo: Addr, hi: Addr, merge: bool, q: Addr)
    requires lo in m && hi in m && lo < hi && (merge ==> !m[hi].data.pinuse) && lo in chunks && hi in chunks - gone
    requires m[hi].data.cinuse
    requires q in chunks && ChunkTags(m, top, chunks, q) && m[lo].data.pinuse
    requires forall x :: x in gone ==> lo < x < hi
    requires q + m[q].data.size <= lo || hi <= q
    ensures ChunkTags(FreedRegion(m, lo, hi, merge), top, chunks - gone, q)
  {
    hide FreedRegion, ChunkTags;
    FreedEffects(m, lo, hi, merge);
    ChunkFacts(m, top, chunks, q);
    ChunkOf(FreedRegion(m, lo, hi, merge), top, chunks - gone, q);
  }

  /** Neighbouring chunks become one. */
  lemma MergedApart(m: Heap, m': Heap, chunks: set<Addr>, p: Addr, lo: Addr, next: Addr, hi: Addr, merge: bool)
    requires Apart(m, chunks) && {p, lo, next} <= chunks && hi in chunks && {p, lo, next, hi} <= m.Keys && lo < hi
    requires lo == p || lo + m[lo].data.size == p
    requires next == p + m[p].data.size && hi == (if merge then next + m[next].data.size else next)
    requires m'.Keys == m.Keys && m'[lo].data.size == hi - lo
    requires forall q :: q in m && q != lo ==> m'[q].data.size == m[q].data.size
    ensures Apart(m', chunks - Merged(p, lo, next, merge))
  {
  }

  lemma MergedMaps(m: Heap, m': Heap, chunks: set<Addr>, p: Addr, lo: Addr, next: Addr, merge: bool)
    requires {p, lo, next} <= chunks && {p, lo, next} <= m.Keys && m'.Keys == m.Keys && lo != next && p != next
    requires m[p].data.cinuse && (lo != p ==> !m[lo].data.cinuse) && (merge ==> !m[next].data.cinuse)
    requires !m'[lo].data.cinuse
    requires forall q :: q in m && q != lo ==>
      m'[q].data.size == m[q].data.size && m'[q].data.cinuse == m[q].data.cinuse
    ensures var chunks' := chunks - Merged(p, lo, next, merge);
      && Allocated(m', chunks') == Allocated(m, chunks) - {p}
      && FreeChunks(m', chunks') == FreeChunks(m, chunks) - Merged(p, lo, next, merge) + {lo}
  {
  }

  lemma IntoTopOthers(m: Heap, base: Addr, top: Addr, topsize: nat, chunks: set<Addr>, p: Addr, lo: Addr)
    requires Tags(m, base, top, topsize, chunks) && p in chunks && p in m && Leftmost(m, chunks, p, lo)
    requires m[p].data.cinuse && p + m[p].data.size == top && lo in m && lo < top
    ensures var m' := SetHead(m, lo, topsize + (top - lo), true, false);
      Bounds(m', base, lo, topsize + (top - lo)) && Apart(m', chunks - {p, lo})
  {
    BoundsFacts(m, base, top, topsize);
    hide ChunkTags, Bounds, Leftmost, Apart;
    LeftmostFacts(m, chunks, p, lo);
    ChunkFacts(m, top, chunks, lo);
    var m' := SetHead(m, lo, topsize + (top - lo), true, false);
    FewerApart(m, m', chunks, {p, lo});
    BoundsMoved(m, m', base, top, topsize, lo, topsize + (top - lo));
  }

  lemma FewerApart(m: Heap, m': Heap, chunks: set<Addr>, gone: set<Addr>)
    requires Apart(m, chunks) && m'.Keys == m.Keys && forall p :: p in chunks && p !in gone && p in m ==> m'[p] == m[p]
    ensures Apart(m', chunks - gone)
  {
  }

  lemma IntoTopTags(m: Heap, base: Addr, top: Addr, topsize: nat, chunks: set<Addr>, p: Addr, lo: Addr)
    requires Tags(m, base, top, topsize, chunks) && p in chunks && p in m && Leftmost(m, chunks, p, lo)
    requires m[p].data.cinuse && p + m[p].data.size == top && lo in m && lo < top
    ensures Tags(SetHead(m, lo, topsize + (top - lo), true, false), base, lo, topsize + (top - lo), chunks - {p, lo})
  {
    hide ChunkTags, Bounds, Apart, Leftmost, SetHead;
    IntoTopOthers(m, base, top, topsize, chunks, p, lo);
    LowestLeft(m, base, top, topsize, chunks, p, lo);
    var m', chunks' := SetHead(m, lo, topsize + (top - lo), true, false), chunks - {p, lo};
    forall q | q in chunks' ensures base <= q && ChunkTags(m', lo, chunks', q) {
      IntoTopChunk(m, base, top, topsize, chunks, p, lo, q);
    }
  }

  lemma LowestLeft(m: Heap, base: Addr, top: Addr, topsize: nat, chunks: set<Addr>, p: Addr, lo: Addr)
    requires Tags(m, base, top, topsize, chunks) && p in chunks && Leftmost(m, chunks, p, lo) && p in m
    requires p + m[p].data.size == top
    ensures lo in chunks && (base in chunks - {p, lo} || base == lo)
  {
    hide ChunkTags, Bounds, Leftmost;
    LeftmostFacts(m, chunks, p, lo);
    ChunkFacts(m, top, chunks, p);
    ChunkFacts(m, top, chunks, lo);
  }

  /** A chunk in use that lies before the top chunk is freed: the top chunk grows down to lo. */
  lemma FreedIntoTop(m: Heap, base: Addr, top: Addr, topsize: nat, chunks: set<Addr>, p: Addr, lo: Addr)
    requires Tags(m, base, top, topsize, chunks) && p in chunks && p in m && m[p].data.cinuse
    requires Leftmost(m, chunks, p, lo)
    requires p + m[p].data.size == top
    ensures lo in m && lo < top && lo in chunks
    ensures var m' := SetHead(m, lo, topsize + (top - lo), true, false); var chunks' := chunks - {p, lo};
      && Tags(m', base, lo, topsize + (top - lo), chunks')
      && Allocated(m', chunks') == Allocated(m, chunks) - {p} && FreeChunks(m', chunks') == FreeChunks(m, chunks) - {lo}
  {
    LeftmostFacts(m, chunks, p, lo);
    ChunkFacts(m, top, chunks, p);
    ChunkFacts(m, top, chunks, lo);
    hide Tags, Leftmost;
    IntoTopTags(m, base, top, topsize, chunks, p, lo);
  }

  lemma BeforeTop(m: Heap, top: Addr, chunks: set<Addr>, p: Addr, lo: Addr, q: Addr)
    requires Apart(m, chunks) && p in chunks && lo in chunks && q in chunks && q in m && p in m && lo in m
    requires p + m[p].data.size == top && (lo == p || lo + m[lo].data.size == p) && q != p && q != lo && q < top
    requires m[q].data.size > 0
    ensures q + m[q].data.size <= lo
  {
  }

  lemma IntoTopChunk(m: Heap, base: Addr, top: Addr, topsize: nat, chunks: set<Addr>, p: Addr, lo: Addr, q: Addr)
    requires Tags(m, base, top, topsize, chunks) && p in chunks && p in m && Leftmost(m, chunks, p, lo)
    requires m[p].data.cinuse && p + m[p].data.size == top && lo in m && lo < top && q in chunks - {p, lo}
    ensures base <= q && ChunkTags(SetHead(m, lo, topsize + (top - lo), true, false), lo, chunks - {p, lo}, q)
  {
    hide ChunkTags, Bounds, Apart, Leftmost;
    LeftmostFacts(m, chunks, p, lo);
    ChunkFacts(m, top, chunks, p);
    ChunkFacts(m, top, chunks, lo);
    ChunkFacts(m, top, chunks, q);
    BeforeTop(m, top, chunks, p, lo, q);
    ChunkOf(SetHead(m, lo, topsize + (top - lo), true, false), lo, chunks - {p, lo}, q);
  }

  lemma BoundsMoved(m: Heap, m': Heap, base: Addr, top: Addr, topsize: nat, top': Addr, topsize': nat)
    requires Bounds(m, base, top, topsize) && m.Keys <= m'.Keys && base in m' && m'[base].data.pinuse
    requires top' in m' && m'[top'].data.size == topsize' && m'[top'].data.pinuse && !m'[top'].data.cinuse
    requires 0 < topsize'
    requires base <= top' && top' % 8 == 0 && topsize' % 8 == 0 && top + topsize == top' + topsize'
    ensures Bounds(m', base, top', topsize')
  {
  }

  /** The memory after nb bytes are taken from the front of the top chunk. */
  function SplitTop(m: Heap, top: Addr, topsize: nat, nb: nat): Heap
    requires top in m && top + nb in m && nb <= topsize
  {
    SetSizeAndPinuseOfInuseChunk(SetHead(m, top + nb, topsize - nb, true, false), top, nb)
  }

  lemma SplitTopEffects(m: Heap, top: Addr, topsize: nat, nb: nat)
    requires top in m && top + nb in m && 0 < nb <= topsize
    ensures var m' := SplitTop(m, top, topsize, nb);
      && m'.Keys == m.Keys && (forall q :: q in m && q != top && q != top + nb ==> m'[q] == m[q])
      && m'[top].data == m[top].data.(size := nb, pinuse := true, cinuse := true)
      && m'[top + nb].data == m[top + nb].data.(size := topsize - nb, pinuse := true, cinuse := false)
  {
  }

  lemma TopChunk(m: Heap, base: Addr, top: Addr, topsize: nat, chunks: set<Addr>, nb: nat, q: Addr)
    requires Tags(m, base, top, topsize, chunks) && nb % 8 == 0 && MIN_CHUNK_SIZE <= nb < topsize && top in m
    requires top + nb in m
    requires q in chunks + {top}
    ensures base <= q < top + nb && ChunkTags(SplitTop(m, top, topsize, nb), top + nb, chunks + {top}, q)
  {
    BoundsFacts(m, base, top, topsize);
    hide ChunkTags, Bounds, Apart, SplitTop;
    SplitTopEffects(m, top, topsize, nb);
    if q != top {
      ChunkFacts(m, top, chunks, q);
    }
    ChunkOf(SplitTop(m, top, topsize, nb), top + nb, chunks + {top}, q);
  }

  lemma TopOthers(m: Heap, base: Addr, top: Addr, topsize: nat, chunks: set<Addr>, nb: nat)
    requires Tags(m, base, top, topsize, chunks) && nb % 8 == 0 && MIN_CHUNK_SIZE <= nb < topsize && top in m
    requires top + nb in m
    ensures var m' := SplitTop(m, top, topsize, nb);
      Bounds(m', base, top + nb, topsize - nb) && Apart(m', chunks + {top}) && top + nb !in chunks + {top}
  {
    BoundsFacts(m, base, top, topsize);
    hide ChunkTags, Bounds, Apart, SplitTop;
    SplitTopEffects(m, top, topsize, nb);
    var m' := SplitTop(m, top, topsize, nb);
    AllBelow(m, base, top, topsize, chunks);
    TopApart(m, m', top, chunks);
    BoundsMoved(m, m', base, top, topsize, top + nb, topsize - nb);
  }

  lemma TopTags(m: Heap, base: Addr, top: Addr, topsize: nat, chunks: set<Addr>, nb: nat)
    requires Tags(m, base, top, topsize, chunks) && nb % 8 == 0 && MIN_CHUNK_SIZE <= nb < topsize && top in m
    requires top + nb in m
    ensures Tags(SplitTop(m, top, topsize, nb), base, top + nb, topsize - nb, chunks + {top})
  {
    hide ChunkTags, Bounds, Apart, SplitTop;
    TopOthers(m, base, top, topsize, chunks, nb);
    var m', r, chunks' := SplitTop(m, top, topsize, nb), top + nb, chunks + {top};
    forall q | q in chunks' ensures base <= q && ChunkTags(m', r, chunks', q) {
      TopChunk(m, base, top, topsize, chunks, nb, q);
    }
  }

  /** A chunk is allocated from the front of the top chunk. */
  lemma TopAllocated(m: Heap, base: Addr, top: Addr, topsize: nat, chunks: set<Addr>, nb: nat)
    requires Tags(m, base, top, topsize, chunks) && nb % 8 == 0 && MIN_CHUNK_SIZE <= nb < topsize
    ensures top in m && top + nb in m && top !in chunks
    ensures var m' := SplitTop(m, top, topsize, nb);
      && Tags(m', base, top + nb, topsize - nb, chunks + {top})
      && Allocated(m', chunks + {top}) == Allocated(m, chunks)[top := nb]
      && FreeChunks(m', chunks + {top}) == FreeChunks(m, chunks)
  {
    BoundsFacts(m, base, top, topsize);
    assert top !in chunks;
    hide Tags, SplitTop;
    TopTags(m, base, top, topsize, chunks, nb);
    SplitTopEffects(m, top, topsize, nb);
  }

  lemma AllBelow(m: Heap, base: Addr, top: Addr, topsize: nat, chunks: set<Addr>)
    requires Tags(m, base, top, topsize, chunks)
    ensures Apart(m, chunks) && forall q :: q in chunks ==> q in m && q < q + m[q].data.size <= top
  {
    hide ChunkTags, Bounds, Apart;
    forall q | q in chunks ensures q in m && q < q + m[q].data.size <= top {
      ChunkFacts(m, top, chunks, q);
    }
  }

  lemma TopApart(m: Heap, m': Heap, top: Addr, chunks: set<Addr>)
    requires Apart(m, chunks) && forall q :: q in chunks ==> q in m && q < q + m[q].data.size <= top
    requires top in m' && forall q :: q in chunks && q in m ==> q in m' && m'[q].data.size == m[q].data.size
    ensures Apart(m', chunks + {top})
  {
  }

  /** The memory after chunk p in use is divided into two chunks in use. */
  function SplitInuse(m: Heap, p: Addr, nb: nat, rsize: nat): Heap
    requires p in m && p + nb in m && p + nb + rsize in m
  {
    SetInuse(SetInuse(m, p, nb), p + nb, rsize)
  }

  lemma SplitInuseEffects(m: Heap, p: Addr, nb: nat, rsize: nat)
    requires p in m && p + nb in m && p + nb + rsize in m && 0 < nb && 0 < rsize
    ensures var m' := SplitInuse(m, p, nb, rsize);
      && m'.Keys == m.Keys && (forall q :: q in m && q != p && q != p + nb && q != p + nb + rsize ==> m'[q] == m[q])
      && m'[p].data == m[p].data.(size := nb, cinuse := true)
      && m'[p + nb].data == m[p + nb].data.(size := rsize, pinuse := true, cinuse := true)
      && m'[p + nb + rsize].data == m[p + nb + rsize].data.(pinuse := true)
  {
  }

  lemma InuseSplitChunk(m: Heap, base: Addr, top: Addr, topsize: nat, chunks: set<Addr>, p: Addr, nb: nat, q: Addr)
    requires Tags(m, base, top, topsize, chunks) && p in chunks && p in m && m[p].data.cinuse
    requires nb % 8 == 0 && MIN_CHUNK_SIZE <= nb && nb + MIN_CHUNK_SIZE <= m[p].data.size && p + nb in m
    requires p + m[p].data.size in m
    requires q in chunks + {p + nb}
    ensures base <= q && ChunkTags(SplitInuse(m, p, nb, m[p].data.size - nb), top, chunks + {p + nb}, q)
  {
    hide ChunkTags, Bounds, Apart, SplitInuse;
    ChunkFacts(m, top, chunks, p);
    Inside(m, base, top, topsize, chunks, p, p + nb);
    Eighths(p, nb);
    Eighths(m[p].data.size, nb);
    SplitInuseEffects(m, p, nb, m[p].data.size - nb);
    if q != p + nb {
      ChunkFacts(m, top, chunks, q);
    }
    ChunkOf(SplitInuse(m, p, nb, m[p].data.size - nb), top, chunks + {p + nb}, q);
  }

  lemma InuseSplitOthers(m: Heap, base: Addr, top: Addr, topsize: nat, chunks: set<Addr>, p: Addr, nb: nat)
    requires Tags(m, base, top, topsize, chunks) && p in chunks && p in m && m[p].data.cinuse
    requires nb % 8 == 0 && MIN_CHUNK_SIZE <= nb && nb + MIN_CHUNK_SIZE <= m[p].data.size && p + nb in m
    requires p + m[p].data.size in m
    ensures var m' := SplitInuse(m, p, nb, m[p].data.size - nb);
      Bounds(m', base, top, topsize) && Apart(m', chunks + {p + nb}) && p + nb != top
  {
    BoundsFacts(m, base, top, topsize);
    Inside(m, base, top, topsize, chunks, p, p + nb);
    ChunkFacts(m, top, chunks, p);
    hide ChunkTags, Bounds, Apart, SplitInuse;
    SplitInuseEffects(m, p, nb, m[p].data.size - nb);
    var m' := SplitInuse(m, p, nb, m[p].data.size - nb);
    SplitApart(m, m', chunks, p, p + nb);
    BoundsFrame(m, m', base, top, topsize);
  }

  lemma InuseSplitTags(m: Heap, base: Addr, top: Addr, topsize: nat, chunks: set<Addr>, p: Addr, nb: nat)
    requires Tags(m, base, top, topsize, chunks) && p in chunks && p in m && m[p].data.cinuse
    requires nb % 8 == 0 && MIN_CHUNK_SIZE <= nb && nb + MIN_CHUNK_SIZE <= m[p].data.size && p + nb in m
    requires p + m[p].data.size in m
    ensures Tags(SplitInuse(m, p, nb, m[p].data.size - nb), base, top, topsize, chunks + {p + nb})
  {
    hide ChunkTags, Bounds, Apart, SplitInuse;
    InuseSplitOthers(m, base, top, topsize, chunks, p, nb);
    var m', r := SplitInuse(m, p, nb, m[p].data.size - nb), p + nb;
    var chunks' := chunks + {r};
    forall q | q in chunks' ensures base <= q && ChunkTags(m', top, chunks', q) {
      InuseSplitChunk(m, base, top, topsize, chunks, p, nb, q);
    }
  }

  /** A chunk in use is divided into two. */
  lemma InuseSplit(m: Heap, base: Addr, top: Addr, topsize: nat, chunks: set<Addr>, p: Addr, nb: nat)
    requires Tags(m, base, top, topsize, chunks) && p in chunks && p in m && m[p].data.cinuse
    requires nb % 8 == 0 && MIN_CHUNK_SIZE <= nb && nb + MIN_CHUNK_SIZE <= m[p].data.size
    ensures var rsize := m[p].data.size - nb; var r := p + nb;
      && r in m && r + rsize in m && r !in chunks
      && var m' := SplitInuse(m, p, nb, rsize);
      && Tags(m', base, top, topsize, chunks + {r})
      && Allocated(m', chunks + {r}) == Allocated(m, chunks)[p := nb][r := rsize]
      && FreeChunks(m', chunks + {r}) == FreeChunks(m, chunks)
  {
    hide Tags, SplitInuse, Allocated, FreeChunks;
    InsideChunk(m, base, top, topsize, chunks, p, nb);
    InuseSplitTags(m, base, top, topsize, chunks, p, nb);
    SplitInuseEffects(m, p, nb, m[p].data.size - nb);
    InuseSplitMaps(m, SplitInuse(m, p, nb, m[p].data.size - nb), chunks, p, p + nb);
  }

  lemma InsideChunk(m: Heap, base: Addr, top: Addr, topsize: nat, chunks: set<Addr>, p: Addr, nb: nat)
    requires Tags(m, base, top, topsize, chunks) && p in chunks && p in m && nb % 8 == 0 && 0 < nb < m[p].data.size
    ensures p + nb in m && p + m[p].data.size in m && p + nb !in chunks
  {
    ChunkFacts(m, top, chunks, p);
    Inside(m, base, top, topsize, chunks, p, p + nb);
  }

  lemma InuseSplitMaps(m: Heap, m': Heap, chunks: set<Addr>, p: Addr, r: Addr)
    requires p in chunks && p in m && m[p].data.cinuse && r !in chunks && m.Keys == m'.Keys && r in m
    requires m'[p].data.cinuse && m'[r].data.cinuse
    requires forall q :: q in chunks && q != p && q in m ==>
      m'[q].data.size == m[q].data.size && m'[q].data.cinuse == m[q].data.cinuse
    ensures Allocated(m', chunks + {r}) == Allocated(m, chunks)[p := m'[p].data.size][r := m'[r].data.size]
    ensures FreeChunks(m', chunks + {r}) == FreeChunks(m, chunks)
  {
  }

  /** The memory after chunk p in use grows to nb bytes, into the top chunk. */
  function GrowTop(m: Heap, p: Addr, nb: nat, newtopsize: nat): Heap
    requires p in m && p + nb in m
  {
    SetHead(SetInuse(m, p, nb), p + nb, newtopsize, true, false)
  }

  lemma GrowTopEffects(m: Heap, p: Addr, nb: nat, newtopsize: nat)
    requires p in m && p + nb in m && 0 < nb
    ensures var m' := GrowTop(m, p, nb, newtopsize);
      && m'.Keys == m.Keys && (forall q :: q in m && q != p && q != p + nb ==> m'[q] == m[q])
      && m'[p].data == m[p].data.(size := nb, cinuse := true)
      && m'[p + nb].data == m[p + nb].data.(size := newtopsize, pinuse := true, cinuse := false)
  {
  }

  lemma GrownChunk(m: Heap, base: Addr, top: Addr, topsize: nat, chunks: set<Addr>, p: Addr, nb: nat, newtopsize: nat,
                   q: Addr)
    requires Tags(m, base, top, topsize, chunks) && p in chunks && p in m && m[p].data.cinuse
    requires p + m[p].data.size == top
    requires nb % 8 == 0 && m[p].data.size < nb && p + nb in m && q in chunks
    ensures base <= q < top && ChunkTags(GrowTop(m, p, nb, newtopsize), p + nb, chunks, q)
  {
    hide ChunkTags, Bounds, Apart, GrowTop;
    ChunkFacts(m, top, chunks, p);
    ChunkFacts(m, top, chunks, q);
    BelowTop(m, top, chunks, p, q);
    GrowTopEffects(m, p, nb, newtopsize);
    ChunkOf(GrowTop(m, p, nb, newtopsize), p + nb, chunks, q);
  }

  lemma GrownBelow(m: Heap, base: Addr, top: Addr, topsize: nat, chunks: set<Addr>, p: Addr, nb: nat, newtopsize: nat)
    requires Tags(m, base, top, topsize, chunks) && p in chunks && p in m && p + m[p].data.size == top
    requires m[p].data.size < nb && p + nb in m
    ensures Apart(GrowTop(m, p, nb, newtopsize), chunks) && forall q :: q in chunks ==> q < top
  {
    hide ChunkTags, Bounds, Apart, GrowTop;
    AllBelow(m, base, top, topsize, chunks);
    GrowTopEffects(m, p, nb, newtopsize);
    GrownApart(m, GrowTop(m, p, nb, newtopsize), chunks, p, top);
  }

  lemma GrownOthers(m: Heap, base: Addr, top: Addr, topsize: nat, chunks: set<Addr>, p: Addr, nb: nat, newtopsize: nat)
    requires Tags(m, base, top, topsize, chunks) && p in chunks && p in m && m[p].data.cinuse
    requires p + m[p].data.size == top
    requires nb % 8 == 0 && m[p].data.size < nb && p + nb in m && 0 < newtopsize
    requires m[p].data.size + topsize == nb + newtopsize
    ensures Bounds(GrowTop(m, p, nb, newtopsize), base, p + nb, newtopsize)
  {
    BoundsFacts(m, base, top, topsize);
    ChunkFacts(m, top, chunks, p);
    hide ChunkTags, Bounds, Apart, GrowTop;
    Eighths(p, nb);
    Eighths(top, topsize);
    Eighths(top + topsize, p + nb);
    GrowTopEffects(m, p, nb, newtopsize);
    BoundsMoved(m, GrowTop(m, p, nb, newtopsize), base, top, topsize, p + nb, newtopsize);
  }

  lemma GrownTags(m: Heap, base: Addr, top: Addr, topsize: nat, chunks: set<Addr>, p: Addr, nb: nat, newtopsize: nat)
    requires Tags(m, base, top, topsize, chunks) && p in chunks && p in m && m[p].data.cinuse
    requires p + m[p].data.size == top
    requires nb % 8 == 0 && m[p].data.size < nb && p + nb in m && 0 < newtopsize
    requires m[p].data.size + topsize == nb + newtopsize
    ensures Tags(GrowTop(m, p, nb, newtopsize), base, p + nb, newtopsize, chunks)
  {
    hide ChunkTags, Bounds, Apart, GrowTop;
    GrownBelow(m, base, top, topsize, chunks, p, nb, newtopsize);
    GrownOthers(m, base, top, topsize, chunks, p, nb, newtopsize);
    var m', r := GrowTop(m, p, nb, newtopsize), p + nb;
    forall q | q in chunks ensures base <= q && ChunkTags(m', r, chunks, q) {
      GrownChunk(m, base, top, topsize, chunks, p, nb, newtopsize, q);
    }
  }

  /** A chunk in use before the top chunk grows. */
  lemma GrownIntoTop(m: Heap, base: Addr, top: Addr, topsize: nat, chunks: set<Addr>, p: Addr, nb: nat)
    requires Tags(m, base, top, topsize, chunks) && p in chunks && p in m && m[p].data.cinuse
    requires p + m[p].data.size == top
    requires nb % 8 == 0 && m[p].data.size < nb < m[p].data.size + topsize
    ensures p + nb in m && p + nb !in chunks
    ensures var newtopsize := m[p].data.size + topsize - nb; var m' := GrowTop(m, p, nb, newtopsize);
      && Tags(m', base, p + nb, newtopsize, chunks)
      && Allocated(m', chunks) == Allocated(m, chunks)[p := nb] && FreeChunks(m', chunks) == FreeChunks(m, chunks)
  {
    BoundsFacts(m, base, top, topsize);
    ChunkFacts(m, top, chunks, p);
    hide Tags, GrowTop;
    var newtopsize := m[p].data.size + topsize - nb;
    GrownChunk(m, base, top, topsize, chunks, p, nb, newtopsize, p);
    GrownTags(m, base, top, topsize, chunks, p, nb, newtopsize);
    GrowTopEffects(m, p, nb, newtopsize);
    TopIsNoChunk(GrowTop(m, p, nb, newtopsize), base, p + nb, newtopsize, chunks);
  }

  lemma TopIsNoChunk(m: Heap, base: Addr, top: Addr, topsize: nat, chunks: set<Addr>)
    requires Tags(m, base, top, topsize, chunks)
    ensures top !in chunks
  {
  }

  lemma BelowTop(m: Heap, top: Addr, chunks: set<Addr>, p: Addr, q: Addr)
    requires Apart(m, chunks) && p in chunks && q in chunks && p in m && q in m && p + m[p].data.size == top && q < top
    requires m[q].data.size > 0
    ensures q == p || q + m[q].data.size <= p
  {
  }

  /** The last chunk grows. */
  lemma GrownApart(m: Heap, m': Heap, chunks: set<Addr>, p: Addr, top: Addr)
    requires Apart(m, chunks) && p in chunks && p in m && p + m[p].data.size == top
    requires forall q :: q in chunks ==> q < top
    requires forall q :: q in chunks && q != p && q in m ==> q in m' && m'[q].data.size == m[q].data.size
    ensures Apart(m', chunks)
  {
  }

  lemma AbsorbedChunk(m: Heap, base: Addr, top: Addr, topsize: nat, chunks: set<Addr>, p: Addr, next: Addr, q: Addr)
    requires Tags(m, base, top, topsize, chunks) && p in chunks && p in m && m[p].data.cinuse
    requires next == p + m[p].data.size
    requires next in chunks && next in m && !m[next].data.cinuse && next + m[next].data.size in m
    requires q in chunks - {next}
    ensures base <= q && ChunkTags(SetInuse(m, p, m[p].data.size + m[next].data.size), top, chunks - {next}, q)
  {
    hide ChunkTags, Bounds, Apart;
    ChunkFacts(m, top, chunks, p);
    ChunkFacts(m, top, chunks, next);
    ChunkFacts(m, top, chunks, q);
    if q != p {
      OutsideOf(m, chunks, p, p, next, next + m[next].data.size, true, q);
    }
    ChunkOf(SetInuse(m, p, m[p].data.size + m[next].data.size), top, chunks - {next}, q);
  }

  lemma AbsorbedTags(m: Heap, base: Addr, top: Addr, topsize: nat, chunks: set<Addr>, p: Addr, next: Addr)
    requires Tags(m, base, top, topsize, chunks) && p in chunks && p in m && m[p].data.cinuse
    requires next == p + m[p].data.size
    requires next in chunks && next in m && !m[next].data.cinuse && next + m[next].data.size in m
    ensures Tags(SetInuse(m, p, m[p].data.size + m[next].data.size), base, top, topsize, chunks - {next})
  {
    BoundsFacts(m, base, top, topsize);
    hide ChunkTags, Bounds, Apart;
    ChunkFacts(m, top, chunks, p);
    ChunkFacts(m, top, chunks, next);
    var m' := SetInuse(m, p, m[p].data.size + m[next].data.size);
    assert Merged(p, p, next, true) == {next};
    MergedApart(m, m', chunks, p, p, next, next + m[next].data.size, true);
    BoundsFrame(m, m', base, top, topsize);
    forall q | q in chunks - {next} ensures base <= q && ChunkTags(m', top, chunks - {next}, q) {
      AbsorbedChunk(m, base, top, topsize, chunks, p, next, q);
    }
  }

  /** A chunk in use takes in the free chunk behind it. */
  lemma Absorbed(m: Heap, base: Addr, top: Addr, topsize: nat, chunks: set<Addr>, p: Addr)
    requires Tags(m, base, top, topsize, chunks) && p in chunks && p in m && m[p].data.cinuse
    requires p + m[p].data.size in FreeChunks(m, chunks)
    ensures var next := p + m[p].data.size;
      && next in m && next + m[next].data.size in m
      && var m' := SetInuse(m, p, m[p].data.size + m[next].data.size);
      && Tags(m', base, top, topsize, chunks - {next})
      && Allocated(m', chunks - {next}) == Allocated(m, chunks)[p := m[p].data.size + m[next].data.size]
      && FreeChunks(m', chunks - {next}) == FreeChunks(m, chunks) - {next}
  {
    ChunkFacts(m, top, chunks, p);
    var next := p + m[p].data.size;
    ChunkFacts(m, top, chunks, next);
    hide Tags;
    AbsorbedTags(m, base, top, topsize, chunks, p, next);
  }
}
