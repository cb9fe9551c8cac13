/** How memory from the system joins the heap: behind the top chunk, in front of a segment, or as a
    new segment. */
module HeapGrowth {
  import opened Rings
  import opened TreeIndex
  import opened SizeTrie
  import opened TreeBins
  import opened BoundaryTags
  import opened Segments
  import opened FreeChunkLists

  /** Memory from base on is in no segment. */
  ghost predicate Unused(segs: seq<Segment>, base: Addr, size: nat) {
    forall i :: 0 <= i < |segs| ==> base + size <= segs[i].base || EndOf(segs[i]) <= base
  }

  /** The memory after the top chunk grows by more bytes of new memory. */
  function GrownTop(m: Heap, space: Heap, top: Addr, topsize: nat, more: nat): Heap
    requires top in m && top + topsize + more in space + m
  {
    SetHead(SetHead(space + m, top, topsize + more, true, false), top + topsize + more, TOP_FOOT_SIZE, false, false)
  }

  lemma GrownTopEffects(m: Heap, space: Heap, top: Addr, topsize: nat, more: nat)
    requires top in m && top + topsize + more in space + m && 0 < topsize + more
    ensures var m' := GrownTop(m, space, top, topsize, more); var end := top + topsize + more;
      && m'.Keys == m.Keys + space.Keys && (forall q :: q in m && q != top && q != end ==> m'[q] == m[q])
      && m'[top].data == m[top].data.(size := topsize + more, pinuse := true, cinuse := false)
  {
  }

  lemma TopExtended(m: Heap, space: Heap, base: Addr, top: Addr, topsize: nat, chunks: set<Addr>, more: nat)
    requires Tags(m, base, top, topsize, chunks) && 0 < topsize && more % 8 == 0 && top + topsize + more <= WORD
    requires top in m && top + topsize + more in space + m && Backed(space + m, top + topsize, top + topsize + more)
    ensures var m' := GrownTop(m, space, top, topsize, more);
      && Tags(m', base, top, topsize + more, chunks)
      && Allocated(m', chunks) == Allocated(m, chunks) && FreeChunks(m', chunks) == FreeChunks(m, chunks)
  {
    hide ChunkTags, Apart, Bounds, GrownTop, Backed;
    BoundsFacts(m, base, top, topsize);
    GrownTopEffects(m, space, top, topsize, more);
    AllBelow(m, base, top, topsize, chunks);
    var m' := GrownTop(m, space, top, topsize, more);
    forall p | p in chunks ensures base <= p && ChunkTags(m', top, chunks, p) {
      ChunkFacts(m, top, chunks, p);
      ChunkOf(m', top, chunks, p);
    }
    ApartFrame(m, m', chunks);
    BackedKept(space + m, m', top + topsize, top + topsize + more);
    GrownBounds(m, m', base, top, topsize, more);
  }

  lemma BackedKept(m: Heap, m': Heap, base: Addr, end: Addr)
    requires Backed(m, base, end) && m.Keys <= m'.Keys
    ensures Backed(m', base, end)
  {
  }

  lemma GrownBounds(m: Heap, m': Heap, base: Addr, top: Addr, topsize: nat, more: nat)
    requires Bounds(m, base, top, topsize) && more % 8 == 0 && top + topsize + more <= WORD && m.Keys <= m'.Keys
    requires 0 < topsize
    requires Backed(m', top + topsize, top + topsize + more)
    requires m'[top].data.size == topsize + more && m'[top].data.pinuse && !m'[top].data.cinuse && m'[base].data.pinuse
    ensures Bounds(m', base, top, topsize + more)
  {
  }

  /** A larger segment has no other chunks when what it grew by is unused. */
  lemma SamePart(m: Heap, segs: seq<Segment>, top: Addr, topsize: nat, chunks: set<Addr>, i: nat, s: Segment,
                 base: Addr, size: nat)
    requires HeapTags(m, segs, top, topsize, chunks) && i < |segs| && Unused(segs, base, size)
    requires (s.base == segs[i].base && base == EndOf(segs[i]) && EndOf(s) == base + size)
      || (s.base == base && base + size == segs[i].base && EndOf(s) == EndOf(segs[i]))
    ensures Part(chunks, s) == Part(chunks, segs[i]) && SegmentsApart(segs[i := s])
  {
    hide Tags, SegmentTags, Recorded;
    NoneEmpty(m, segs, top, topsize, chunks);
    GrownApart(segs, i, s, base, size);
    forall p | p in chunks && InSegment(s, p) ensures InSegment(segs[i], p) {
      assert Placed(segs, p);
    }
  }

  lemma NoneEmpty(m: Heap, segs: seq<Segment>, top: Addr, topsize: nat, chunks: set<Addr>)
    requires HeapTags(m, segs, top, topsize, chunks)
    ensures forall k :: 0 <= k < |segs| ==> 0 < segs[k].size
  {
    hide Tags, SegmentsApart;
    forall k | 0 <= k < |segs| ensures 0 < segs[k].size {
      assert SegmentTags(m, segs, top, topsize, chunks, k);
      BoundsOfTags(m, segs[k].base, Stop(segs, top, k), Room(topsize, k), Part(chunks, segs[k]));
    }
  }

  lemma GrownApart(segs: seq<Segment>, i: nat, s: Segment, base: Addr, size: nat)
    requires SegmentsApart(segs) && i < |segs| && Unused(segs, base, size)
    requires forall k :: 0 <= k < |segs| ==> 0 < segs[k].size
    requires (s.base == segs[i].base && base == EndOf(segs[i]) && EndOf(s) == base + size)
      || (s.base == base && base + size == segs[i].base && EndOf(s) == EndOf(segs[i]))
    ensures SegmentsApart(segs[i := s])
  {
    var segs' := segs[i := s];
    forall j, k | 0 <= j < k < |segs| ensures EndOf(segs'[j]) <= segs'[k].base || EndOf(segs'[k]) <= segs'[j].base {
      assert EndOf(segs[j]) <= segs[k].base || EndOf(segs[k]) <= segs[j].base;
      assert base + size <= segs[j].base || EndOf(segs[j]) <= base;
      assert base + size <= segs[k].base || EndOf(segs[k]) <= base;
    }
  }

  lemma JoinedGrants(m: Heap, m': Heap, s: Segment, base: Addr, size: nat, t: Segment)
    requires Granted(m, s.base, s.size) && Granted(m', base, size) && m.Keys <= m'.Keys
    requires (t.base == s.base && base == EndOf(s) && EndOf(t) == base + size)
      || (t.base == base && base + size == s.base && EndOf(t) == EndOf(s))
    ensures Granted(m', t.base, t.size)
  {
  }

  lemma GrantedBacked(m: Heap, base: Addr, size: nat, from: Addr, to: Addr)
    requires Granted(m, base, size) && base <= from && to < base + size
    ensures Backed(m, from, to)
  {
  }

  /** Other segments when segment i has grown to s. */
  lemma OtherGrown(m: Heap, m': Heap, segs: seq<Segment>, top: Addr, topsize: nat, top': Addr, topsize': nat,
                   chunks: set<Addr>, chunks': set<Addr>, i: nat, s: Segment, j: nat)
    requires i < |segs| && j < |segs| && i != j && SegmentsApart(segs[i := s])
    requires SegmentTags(m, segs, top, topsize, chunks, j)
    requires KeptOutside(m, m', s) && Part(chunks', segs[j]) == Part(chunks, segs[j])
    requires j == 0 ==> top' == top && topsize' == topsize
    ensures SegmentTags(m', segs[i := s], top', topsize', chunks', j)
    ensures Recorded(m, chunks, segs[j]) ==> Recorded(m', chunks', segs[j])
  {
    hide Tags, SegmentsApart, Granted;
    assert SegmentTags(m, segs[i := s], top, topsize, chunks, j);
    OtherSegment(m, m', segs[i := s], top, topsize, top', topsize', chunks, chunks', i, j);
  }

  lemma AppendedFirst(m: Heap, space: Heap, segs: seq<Segment>, top: Addr, topsize: nat, chunks: set<Addr>, more: nat)
    requires HeapTags(m, segs, top, topsize, chunks) && more % 8 == 0 && EndOf(segs[0]) + more <= WORD
    requires Unused(segs, EndOf(segs[0]), more) && Granted(space, EndOf(segs[0]), more)
    requires top in m && top + topsize + more in space + m
    ensures SegmentTags(GrownTop(m, space, top, topsize, more), segs[0 := segs[0].(size := segs[0].size + more)],
                        top, topsize + more, chunks, 0)
  {
    hide HeapTags, Tags, GrownTop, Part, Granted, Unused, Backed;
    TopSegment(m, segs, top, topsize, chunks);
    var s, s' := segs[0], segs[0].(size := segs[0].size + more);
    SamePart(m, segs, top, topsize, chunks, 0, s', EndOf(s), more);
    GrantedKept(m, space, EndOf(s), more);
    JoinedGrants(m, space + m, s, EndOf(s), more, s');
    GrantedBacked(space + m, s'.base, s'.size, top + topsize, top + topsize + more);
    TopExtended(m, space, s.base, top, topsize, Part(chunks, s), more);
    GrownTopEffects(m, space, top, topsize, more);
    SameKeys(space + m, GrownTop(m, space, top, topsize, more), s'.base, s'.size);
  }

  lemma GrantedKept(m: Heap, space: Heap, base: Addr, size: nat)
    requires Granted(space, base, size)
    ensures Granted(space + m, base, size) && m.Keys <= (space + m).Keys
    ensures forall a :: a in m ==> (space + m)[a] == m[a]
  {
  }

  lemma SameKeys(m: Heap, m': Heap, base: Addr, size: nat)
    requires Granted(m, base, size) && m.Keys <= m'.Keys
    ensures Granted(m', base, size)
  {
  }

  /** Memory that follows the first segment makes the top chunk larger. */
  lemma Appended(m: Heap, space: Heap, segs: seq<Segment>, top: Addr, topsize: nat, chunks: set<Addr>, more: nat)
    requires HeapTags(m, segs, top, topsize, chunks) && more % 8 == 0 && EndOf(segs[0]) + more <= WORD
    requires Unused(segs, EndOf(segs[0]), more) && Granted(space, EndOf(segs[0]), more)
    requires top in m && top + topsize + more in space + m
    ensures var m' := GrownTop(m, space, top, topsize, more);
      var segs' := segs[0 := segs[0].(size := segs[0].size + more)];
      && HeapTags(m', segs', top, topsize + more, chunks)
      && Used(m', segs', chunks) == Used(m, segs, chunks) && FreeChunks(m', chunks) == FreeChunks(m, chunks)
  {
    hide SegmentTags, Recorded, GrownTop, Part, Granted, SegmentsApart, Unused;
    var m', s', segs' := GrownTop(m, space, top, topsize, more), segs[0].(size := segs[0].size + more),
      segs[0 := segs[0].(size := segs[0].size + more)];
    var topsize' := topsize + more;
    TopSegment(m, segs, top, topsize, chunks);
    SamePart(m, segs, top, topsize, chunks, 0, s', EndOf(segs[0]), more);
    GrownTopEffects(m, space, top, topsize, more);
    AppendedFirst(m, space, segs, top, topsize, chunks, more);
    forall j | 1 <= j < |segs|
      ensures SegmentTags(m', segs', top, topsize', chunks, j) && Recorded(m', chunks, segs'[j])
    {
      OtherGrown(m, m', segs, top, topsize, top, topsize', chunks, chunks, 0, s', j);
    }
    assert SegmentTags(m', segs', top, topsize', chunks, 0);
    forall p | p in chunks ensures Placed(segs', p) {
      PlacedGrown(segs, 0, s', p);
    }
    EndIsNoChunk(m, segs, top, topsize, chunks, more);
    KeptMaps(m, m', chunks);
    assert EndOf(segs'[0]) == top + (topsize + more) + TOP_FOOT_SIZE;
    SameRecords(segs, segs');
  }

  lemma KeptMaps(m: Heap, m': Heap, chunks: set<Addr>)
    requires forall p :: p in chunks ==> p in m && p in m' && m'[p] == m[p]
    ensures Allocated(m', chunks) == Allocated(m, chunks) && FreeChunks(m', chunks) == FreeChunks(m, chunks)
  {
  }

  lemma EndIsNoChunk(m: Heap, segs: seq<Segment>, top: Addr, topsize: nat, chunks: set<Addr>, more: nat)
    requires HeapTags(m, segs, top, topsize, chunks) && Unused(segs, EndOf(segs[0]), more)
    ensures forall p :: p in chunks ==> p in m && p != top && p != top + topsize + more
  {
    hide Tags, SegmentsApart, Recorded;
    TopSegment(m, segs, top, topsize, chunks);
    forall p | p in chunks ensures p in m && p != top && p != top + topsize + more {
      var i := Located(m, segs, top, topsize, chunks, p);
      if i > 0 {
        ApartOf(segs, 0, i);
      }
    }
  }

  lemma SameRecords(segs: seq<Segment>, segs': seq<Segment>)
    requires |segs| == |segs'| && forall i :: 1 <= i < |segs| ==> segs'[i].record == segs[i].record
    ensures Records(segs') == Records(segs)
  {
    assert forall i :: 1 <= i < |segs| ==> segs[i].record in Records(segs) && segs'[i].record in Records(segs');
  }

  lemma PlacedGrown(segs: seq<Segment>, i: nat, s: Segment, p: Addr)
    requires i < |segs| && s.base <= segs[i].base && EndOf(segs[i]) <= EndOf(s) && Placed(segs, p)
    ensures Placed(segs[i := s], p)
  {
    var j :| 0 <= j < |segs| && InSegment(segs[j], p);
    assert InSegment(segs[i := s][j], p);
  }

  /** The memory after a new chunk in use at p in new memory. */
  function NewChunk(m: Heap, space: Heap, p: Addr, size: nat): Heap
    requires p in space
  {
    SetHead(space + m, p, size, true, true)
  }

  lemma NewChunkEffects(m: Heap, space: Heap, p: Addr, size: nat)
    requires p in space
    ensures var m' := NewChunk(m, space, p, size);
      && m'.Keys == m.Keys + space.Keys && (forall q :: q in m && q != p ==> m'[q] == m[q])
      && m'[p].data.size == size && m'[p].data.pinuse && m'[p].data.cinuse
  {
  }

  lemma FrontChunks(m: Heap, space: Heap, base: Addr, stop: Addr, room: nat, part: set<Addr>, p: Addr, size: nat)
    requires Tags(m, base, stop, room, part) && p + size == base && MIN_CHUNK_SIZE <= size && size % 8 == 0 && 0 < p
    requires p in space
    requires Backed(space + m, p, base)
    ensures var m' := NewChunk(m, space, p, size);
      && Tags(m', p, stop, room, part + {p}) && p !in part
      && Allocated(m', part + {p}) == Allocated(m, part)[p := size] && FreeChunks(m', part + {p}) == FreeChunks(m, part)
  {
    hide ChunkTags, Apart, Bounds, NewChunk, Backed;
    BoundsFacts(m, base, stop, room);
    NewChunkEffects(m, space, p, size);
    AllBelow(m, base, stop, room, part);
    BoundsOfTags(m, base, stop, room, part);
    var m' := NewChunk(m, space, p, size);
    Eighths(base, size);
    forall q | q in part + {p} ensures p <= q && ChunkTags(m', stop, part + {p}, q) {
      if q != p {
        ChunkFacts(m, stop, part, q);
      }
      ChunkOf(m', stop, part + {p}, q);
    }
    FrontApart(m, m', part, p, base);
    BackedKept(space + m, m', p, base);
    FrontBounds(m, m', base, stop, room, p);
    KeptMaps(m, m', part);
  }

  lemma FrontApart(m: Heap, m': Heap, part: set<Addr>, p: Addr, base: Addr)
    requires Apart(m, part) && p in m' && p + m'[p].data.size == base && p < base && forall q :: q in part ==> base <= q
    requires forall q :: q in part && q in m ==> q in m' && m'[q] == m[q]
    ensures Apart(m', part + {p})
  {
  }

  lemma FrontBounds(m: Heap, m': Heap, base: Addr, stop: Addr, room: nat, p: Addr)
    requires Bounds(m, base, stop, room) && Backed(m', p, base) && m.Keys <= m'.Keys && 0 < p < base && p % 8 == 0
    requires p in m' && m'[p].data.pinuse && stop in m' && stop in m && m'[stop] == m[stop]
    ensures Bounds(m', p, stop, room)
  {
  }

  lemma PrependedSegment(m: Heap, space: Heap, segs: seq<Segment>, top: Addr, topsize: nat, chunks: set<Addr>, i: nat,
                         base: Addr, size: nat)
    requires HeapTags(m, segs, top, topsize, chunks) && i < |segs| && base + size == segs[i].base && size % 8 == 0
    requires MIN_CHUNK_SIZE <= size && 0 < base && Unused(segs, base, size) && Granted(space, base, size)
    requires base in space
    ensures var m' := NewChunk(m, space, base, size); var s' := Segment(base, segs[i].size + size, segs[i].record);
      && SegmentTags(m', segs[i := s'], top, topsize, chunks + {base}, i)
      && (i > 0 ==> Recorded(m', chunks + {base}, s'))
      && base !in chunks && base != top
  {
    hide HeapTags, Tags, NewChunk, Part, Granted, Unused, Backed, Allocated;
    var s, s' := segs[i], Segment(base, segs[i].size + size, segs[i].record);
    var stop, room, m' := Stop(segs, top, i), Room(topsize, i), NewChunk(m, space, base, size);
    SegmentOf(m, segs, top, topsize, chunks, i);
    NoneEmpty(m, segs, top, topsize, chunks);
    SamePart(m, segs, top, topsize, chunks, i, s', base, size);
    GrantedKept(m, space, base, size);
    JoinedGrants(m, space + m, s, base, size, s');
    GrantedBacked(space + m, s'.base, s'.size, base, s.base);
    FrontChunks(m, space, s.base, stop, room, Part(chunks, s), base, size);
    NewChunkEffects(m, space, base, size);
    SameKeys(space + m, m', s'.base, s'.size);
    PartWith(chunks, s', base);
    PartHas(chunks, s', base);
    BoundsOfTags(m, s.base, stop, room, Part(chunks, s));
    NotInRegion(m, segs, top, topsize, chunks, base, size);
  }

  lemma NotInRegion(m: Heap, segs: seq<Segment>, top: Addr, topsize: nat, chunks: set<Addr>, base: Addr, size: nat)
    requires HeapTags(m, segs, top, topsize, chunks) && Unused(segs, base, size) && 0 < size
    ensures base != top && base !in chunks && base !in Records(segs)
  {
    hide Tags, SegmentsApart, Recorded;
    TopSegment(m, segs, top, topsize, chunks);
    RecordsUsed(m, segs, top, topsize, chunks);
    if base in chunks {
      var i := Located(m, segs, top, topsize, chunks, base);
    }
  }

  lemma SegmentOf(m: Heap, segs: seq<Segment>, top: Addr, topsize: nat, chunks: set<Addr>, i: nat)
    requires HeapTags(m, segs, top, topsize, chunks) && i < |segs|
    ensures SegmentTags(m, segs, top, topsize, chunks, i) && (i > 0 ==> Recorded(m, chunks, segs[i]))
    ensures Tags(m, segs[i].base, Stop(segs, top, i), Room(topsize, i), Part(chunks, segs[i]))
    ensures Granted(m, segs[i].base, segs[i].size)
  {
  }

  lemma PartWith(chunks: set<Addr>, s: Segment, p: Addr)
    ensures Part(chunks + {p}, s) == if InSegment(s, p) then Part(chunks, s) + {p} else Part(chunks, s)
  {
  }

  /** Memory that ends where a segment begins becomes a chunk in use in front of it. */
  lemma Prepended(m: Heap, space: Heap, segs: seq<Segment>, top: Addr, topsize: nat, chunks: set<Addr>, i: nat,
                  base: Addr, size: nat)
    requires HeapTags(m, segs, top, topsize, chunks) && i < |segs| && base + size == segs[i].base && size % 8 == 0
    requires MIN_CHUNK_SIZE <= size && 0 < base && Unused(segs, base, size) && Granted(space, base, size)
    requires base in space
    ensures var m' := NewChunk(m, space, base, size);
      var segs' := segs[i := Segment(base, segs[i].size + size, segs[i].record)];
      && HeapTags(m', segs', top, topsize, chunks + {base}) && base !in chunks && base !in Records(segs')
      && Used(m', segs', chunks + {base}) == Used(m, segs, chunks)[base := size]
      && FreeChunks(m', chunks + {base}) == FreeChunks(m, chunks)
  {
    hide SegmentTags, Recorded, NewChunk, Part, Granted, SegmentsApart, Unused;
    var m', s' := NewChunk(m, space, base, size), Segment(base, segs[i].size + size, segs[i].record);
    var segs', chunks' := segs[i := s'], chunks + {base};
    SegmentOf(m, segs, top, topsize, chunks, i);
    SamePart(m, segs, top, topsize, chunks, i, s', base, size);
    NewChunkEffects(m, space, base, size);
    PrependedSegment(m, space, segs, top, topsize, chunks, i, base, size);
    NotInRegion(m, segs, top, topsize, chunks, base, size);
    ChunksInMemory(m, segs, top, topsize, chunks);
    forall j | 0 <= j < |segs|
      ensures SegmentTags(m', segs', top, topsize, chunks', j) && (j > 0 ==> Recorded(m', chunks', segs'[j]))
    {
      if j != i {
        OutsideOther(segs, j, base, size);
        PartWith(chunks, segs[j], base);
        SegmentOf(m, segs, top, topsize, chunks, j);
        OtherGrown(m, m', segs, top, topsize, top, topsize, chunks, chunks', i, s', j);
      }
    }
    forall p | p in chunks' ensures Placed(segs', p) {
      if p == base {
        assert InSegment(segs'[i], base);
      } else {
        PlacedGrown(segs, i, s', p);
      }
    }
    KeptMaps(m, m', chunks);
    SameRecords(segs, segs');
    MapsWith(m', chunks, base);
  }

  lemma MapsWith(m: Heap, chunks: set<Addr>, p: Addr)
    requires p in m && m[p].data.cinuse
    ensures Allocated(m, chunks + {p}) == Allocated(m, chunks)[p := m[p].data.size]
    ensures FreeChunks(m, chunks + {p}) == FreeChunks(m, chunks)
  {
  }

  lemma OutsideOther(segs: seq<Segment>, j: nat, base: Addr, size: nat)
    requires Unused(segs, base, size) && j < |segs| && 0 < size
    ensures !InSegment(segs[j], base)
  {
  }

  /** The memory with one top chunk and the fake chunk behind it. */
  function FirstMemory(memory: Heap, base: Addr, topsize: nat): Heap
    requires base in memory && base + topsize in memory
  {
    SetHead(SetHead(memory, base, topsize, true, false), base + topsize, TOP_FOOT_SIZE, false, false)
  }

  lemma FirstTags(memory: Heap, base: Addr, topsize: nat)
    requires base % 8 == 0 && 0 < base && topsize % 8 == 0 && 0 < topsize && base + topsize <= WORD
    requires base in memory && base + topsize in memory && Backed(memory, base, base + topsize)
    ensures var m := FirstMemory(memory, base, topsize);
      && Tags(m, base, base, topsize, {}) && Allocated(m, {}) == map[] && FreeChunks(m, {}) == {}
      && m.Keys == memory.Keys
      && forall a :: a in memory && a != base && a != base + topsize ==> m[a] == memory[a]
  {
  }

  /** Where the chunk goes that holds the record of the first segment when that is closed. */
  function RecordPlace(top: Addr, topsize: nat): Addr {
    if topsize < MIN_CHUNK_SIZE then top else top + topsize
  }

  /** The chunks that the top chunk becomes: the one for the record, and a free one. */
  ghost function ClosingChunks(top: Addr, sp: Addr): set<Addr> {
    {sp} + ClosingFree(top, sp)
  }

  ghost function ClosingFree(top: Addr, sp: Addr): set<Addr> {
    if sp == top then {} else {top}
  }

  /** What is written behind the chunks of a segment to close it. */
  ghost predicate Closing(m: Heap, m': Heap, top: Addr, topsize: nat, sp: Addr) {
    && m'.Keys == m.Keys && (forall a :: a in m && (a < top || top + topsize + TOP_FOOT_SIZE <= a) ==> m'[a] == m[a])
    && top in m && m'[top].data.prevFoot == m[top].data.prevFoot
    && sp in m' && m'[sp].data.size == RECORD_SIZE && m'[sp].data.cinuse && m'[sp].data.pinuse == (sp == top)
    && sp + RECORD_SIZE in m' && m'[sp + RECORD_SIZE].data.pinuse && m'[sp + RECORD_SIZE].data.cinuse
    && (sp != top ==>
          && top in m' && m'[top].data.size == topsize && m'[top].data.pinuse && !m'[top].data.cinuse
          && m'[sp].data.prevFoot == topsize)
  }

  lemma ClosedTags(m: Heap, m': Heap, base: Addr, top: Addr, topsize: nat, chunks: set<Addr>, sp: Addr)
    requires Tags(m, base, top, topsize, chunks) && 0 < topsize && sp == RecordPlace(top, topsize)
    requires Closing(m, m', top, topsize, sp) && Backed(m', top, sp + RECORD_SIZE) && sp + RECORD_SIZE <= WORD
    ensures var chunks' := chunks + ClosingChunks(top, sp);
      && Tags(m', base, sp + RECORD_SIZE, 0, chunks') && chunks !! ClosingChunks(top, sp)
      && Allocated(m', chunks') == Allocated(m, chunks)[sp := RECORD_SIZE]
      && FreeChunks(m', chunks') == FreeChunks(m, chunks) + ClosingFree(top, sp)
  {
    hide ChunkTags, Apart, Bounds, Backed;
    BoundsFacts(m, base, top, topsize);
    AllBelow(m, base, top, topsize, chunks);
    var chunks', fence := chunks + ClosingChunks(top, sp), sp + RECORD_SIZE;
    forall q | q in chunks' ensures base <= q && ChunkTags(m', fence, chunks', q) {
      ClosedChunk(m, m', base, top, topsize, chunks, sp, q);
    }
    ClosedApart(m, m', chunks, top, topsize, sp);
    Eighths(top, topsize);
    ClosedBounds(m, m', base, top, topsize, fence);
    KeptMaps(m, m', chunks);
    ClosedMaps(m', chunks, top, sp);
  }

  lemma ClosedMaps(m: Heap, chunks: set<Addr>, top: Addr, sp: Addr)
    requires sp in m && m[sp].data.size == RECORD_SIZE && m[sp].data.cinuse
    requires (sp != top ==> top in m && !m[top].data.cinuse && top !in chunks)
    ensures var chunks' := chunks + ClosingChunks(top, sp);
      && Allocated(m, chunks') == Allocated(m, chunks)[sp := RECORD_SIZE]
      && FreeChunks(m, chunks') == FreeChunks(m, chunks) + ClosingFree(top, sp)
  {
  }

  lemma ClosedChunk(m: Heap, m': Heap, base: Addr, top: Addr, topsize: nat, chunks: set<Addr>, sp: Addr, q: Addr)
    requires Tags(m, base, top, topsize, chunks) && 0 < topsize && sp == RecordPlace(top, topsize)
    requires Closing(m, m', top, topsize, sp) && q in chunks + ClosingChunks(top, sp)
    ensures base <= q && ChunkTags(m', sp + RECORD_SIZE, chunks + ClosingChunks(top, sp), q)
  {
    hide ChunkTags, Apart, Bounds, Backed;
    BoundsFacts(m, base, top, topsize);
    Eighths(top, topsize);
    if q in chunks {
      BoundsOfTags(m, base, top, topsize, chunks);
      ChunkFacts(m, top, chunks, q);
    }
    ChunkOf(m', sp + RECORD_SIZE, chunks + ClosingChunks(top, sp), q);
  }

  lemma ClosedApart(m: Heap, m': Heap, chunks: set<Addr>, top: Addr, topsize: nat, sp: Addr)
    requires Apart(m, chunks) && forall q :: q in chunks ==> q in m && q < q + m[q].data.size <= top
    requires sp == RecordPlace(top, topsize) && Closing(m, m', top, topsize, sp)
    ensures Apart(m', chunks + ClosingChunks(top, sp))
  {
  }

  lemma ClosedBounds(m: Heap, m': Heap, base: Addr, top: Addr, topsize: nat, fence: Addr)
    requires Bounds(m, base, top, topsize) && m.Keys <= m'.Keys && top <= fence && fence % 8 == 0
    requires Backed(m', top, fence) && fence <= WORD
    requires fence in m' && m'[fence].data.pinuse && m'[fence].data.cinuse && base in m' && m'[base].data.pinuse
    ensures Bounds(m', base, fence, 0)
  {
  }

  /** What a segment without a top chunk says does not depend on where it is in the list. */
  lemma KeptSegment(m: Heap, m': Heap, segs: seq<Segment>, top: Addr, topsize: nat, chunks: set<Addr>, j: nat,
                    segs': seq<Segment>, top': Addr, topsize': nat, chunks': set<Addr>, j': nat)
    requires 0 < j < |segs| && 0 < j' < |segs'| && segs'[j'] == segs[j] && SegmentTags(m, segs, top, topsize, chunks, j)
    requires Part(chunks', segs[j]) == Part(chunks, segs[j])
    requires m.Keys <= m'.Keys && forall a :: a in m && InSegment(segs[j], a) ==> m'[a] == m[a]
    ensures SegmentTags(m', segs', top', topsize', chunks', j')
    ensures Recorded(m, chunks, segs[j]) ==> Recorded(m', chunks', segs[j])
  {
    hide Tags, Allocated;
    var s := segs[j];
    ElsewhereFrame(m, m', s.base, Fence(s), 0, Part(chunks, s));
  }

  /** The segments after the first one is closed and a new one takes its place. */
  function WithSegment(segs: seq<Segment>, base: Addr, size: nat, sp: Addr): seq<Segment>
    requires 0 < |segs|
  {
    [Segment(base, size, 0), segs[0].(record := sp)] + segs[1..]
  }

  lemma ClosedSegment(m: Heap, mA: Heap, mB: Heap, segs: seq<Segment>, top: Addr, topsize: nat, chunks: set<Addr>,
                      base: Addr, size: nat, sp: Addr)
    requires HeapTags(m, segs, top, topsize, chunks) && sp == RecordPlace(top, topsize)
    requires Unused(segs, base, size) && m.Keys <= mA.Keys
    requires (forall a :: a in m && !(base <= a < base + size) ==> mA[a] == m[a]) && Closing(mA, mB, top, topsize, sp)
    ensures var segs', chunks' := WithSegment(segs, base, size, sp), chunks + ClosingChunks(top, sp);
      SegmentTags(mB, segs', base, size, chunks', 1) && Recorded(mB, chunks', segs'[1])
  {
    hide HeapTags, Tags, Closing, Granted, Allocated, Part;
    TopSegment(m, segs, top, topsize, chunks);
    var s, segs', chunks' := segs[0], WithSegment(segs, base, size, sp), chunks + ClosingChunks(top, sp);
    var part := Part(chunks, s);
    ClosingFacts(mA, mB, top, topsize, sp);
    BoundsOfTags(m, s.base, top, topsize, part);
    forall a | a in m && s.base <= a <= top ensures mA[a] == m[a] {
      assert base + size <= s.base || EndOf(s) <= base;
    }
    ElsewhereFrame(m, mA, s.base, top, topsize, part);
    SameKeys(m, mB, s.base, s.size);
    GrantedBacked(mB, s.base, s.size, top, sp + RECORD_SIZE);
    ClosedTags(mA, mB, s.base, top, topsize, part, sp);
    PartClosed(chunks, s, top, sp, segs'[1]);
  }

  lemma ClosingFacts(m: Heap, m': Heap, top: Addr, topsize: nat, sp: Addr)
    requires Closing(m, m', top, topsize, sp)
    ensures m'.Keys == m.Keys && forall a :: a in m && (a < top || top + topsize + TOP_FOOT_SIZE <= a) ==> m'[a] == m[a]
    ensures sp in m' && m'[sp].data.size == RECORD_SIZE && m'[sp].data.cinuse && top in m
    ensures m'[top].data.prevFoot == m[top].data.prevFoot
    ensures sp != top ==> top in m' && m'[top].data.size == topsize && !m'[top].data.cinuse
  {
  }

  lemma PartClosed(chunks: set<Addr>, s: Segment, top: Addr, sp: Addr, s': Segment)
    requires InSegment(s, top) && InSegment(s, sp) && s' == s.(record := sp)
    ensures Part(chunks + ClosingChunks(top, sp), s') == Part(chunks, s) + ClosingChunks(top, sp)
  {
  }

  lemma PartElsewhere(chunks: set<Addr>, top: Addr, sp: Addr, s: Segment)
    requires !InSegment(s, top) && !InSegment(s, sp)
    ensures Part(chunks + ClosingChunks(top, sp), s) == Part(chunks, s)
  {
  }

  lemma NewSegment(m: Heap, space: Heap, mB: Heap, segs: seq<Segment>, top: Addr, topsize: nat, chunks: set<Addr>,
                   base: Addr, size: nat, sp: Addr)
    requires HeapTags(m, segs, top, topsize, chunks) && sp == RecordPlace(top, topsize)
    requires Unused(segs, base, size) && Granted(space, base, size) && base in space
    requires base + size - TOP_FOOT_SIZE in space
    requires base % 8 == 0 && 0 < base && size % 8 == 0 && TOP_FOOT_SIZE < size && base + size <= WORD
    requires Closing(FirstMemory(space + m, base, size - TOP_FOOT_SIZE), mB, top, topsize, sp)
    ensures SegmentTags(mB, WithSegment(segs, base, size, sp), base, size - TOP_FOOT_SIZE,
                        chunks + ClosingChunks(top, sp), 0)
  {
    hide HeapTags, Tags, Closing, Granted, Part, FirstMemory, Backed;
    var topsize', mA := size - TOP_FOOT_SIZE, FirstMemory(space + m, base, size - TOP_FOOT_SIZE);
    TopSegment(m, segs, top, topsize, chunks);
    ClosingFacts(mA, mB, top, topsize, sp);
    GrantedKept(m, space, base, size);
    GrantedBacked(space + m, base, size, base, base + topsize');
    FirstTags(space + m, base, topsize');
    SameKeys(space + m, mB, base, size);
    assert base + size <= segs[0].base || EndOf(segs[0]) <= base;
    ElsewhereFrame(mA, mB, base, base, topsize', {});
    NoChunksIn(m, segs, top, topsize, chunks, base, size);
    PartElsewhere(chunks, top, sp, Segment(base, size, 0));
    assert Part(chunks + ClosingChunks(top, sp), Segment(base, size, 0)) == {};
  }

  lemma NoChunksIn(m: Heap, segs: seq<Segment>, top: Addr, topsize: nat, chunks: set<Addr>, base: Addr, size: nat)
    requires HeapTags(m, segs, top, topsize, chunks) && Unused(segs, base, size)
    ensures Part(chunks, Segment(base, size, 0)) == {}
  {
    hide Tags, SegmentsApart, Recorded, SegmentTags;
    forall p | p in chunks ensures !InSegment(Segment(base, size, 0), p) {
      assert Placed(segs, p);
    }
  }

  lemma LaterSegment(m: Heap, mA: Heap, mB: Heap, segs: seq<Segment>, top: Addr, topsize: nat, chunks: set<Addr>,
                     base: Addr, size: nat, sp: Addr, topsize': nat, j: nat)
    requires HeapTags(m, segs, top, topsize, chunks) && sp == RecordPlace(top, topsize) && 0 < j < |segs|
    requires Unused(segs, base, size) && m.Keys <= mA.Keys
    requires (forall a :: a in m && !(base <= a < base + size) ==> mA[a] == m[a]) && Closing(mA, mB, top, topsize, sp)
    ensures var segs', chunks' := WithSegment(segs, base, size, sp), chunks + ClosingChunks(top, sp);
      SegmentTags(mB, segs', base, topsize', chunks', j + 1) && Recorded(mB, chunks', segs'[j + 1])
  {
    hide HeapTags, Tags, Closing, Granted, Part, SegmentTags, Recorded;
    var segs', chunks' := WithSegment(segs, base, size, sp), chunks + ClosingChunks(top, sp);
    TopSegment(m, segs, top, topsize, chunks);
    SegmentOf(m, segs, top, topsize, chunks, j);
    TagsApart(m, segs, top, topsize, chunks);
    ApartOf(segs, 0, j);
    ClosingFacts(mA, mB, top, topsize, sp);
    PartElsewhere(chunks, top, sp, segs[j]);
    assert base + size <= segs[j].base || EndOf(segs[j]) <= base;
    KeptSegment(m, mB, segs, top, topsize, chunks, j, segs', base, topsize', chunks', j + 1);
  }

  lemma TagsApart(m: Heap, segs: seq<Segment>, top: Addr, topsize: nat, chunks: set<Addr>)
    requires HeapTags(m, segs, top, topsize, chunks)
    ensures SegmentsApart(segs)
  {
  }

  /** The first segment is closed, with its record behind its chunks, and what is left of the top chunk
      becomes a free chunk; a new segment with the new top chunk comes first. */
  lemma SegmentAdded(m: Heap, space: Heap, mB: Heap, segs: seq<Segment>, top: Addr, topsize: nat, chunks: set<Addr>,
                     base: Addr, size: nat, sp: Addr)
    requires HeapTags(m, segs, top, topsize, chunks) && sp == RecordPlace(top, topsize)
    requires Unused(segs, base, size) && Granted(space, base, size) && base in space
    requires base + size - TOP_FOOT_SIZE in space
    requires base % 8 == 0 && 0 < base && size % 8 == 0 && TOP_FOOT_SIZE < size && base + size <= WORD
    requires Closing(FirstMemory(space + m, base, size - TOP_FOOT_SIZE), mB, top, topsize, sp)
    ensures var segs', chunks' := WithSegment(segs, base, size, sp), chunks + ClosingChunks(top, sp);
      && HeapTags(mB, segs', base, size - TOP_FOOT_SIZE, chunks')
      && Used(mB, segs', chunks') == Used(m, segs, chunks)
      && FreeChunks(mB, chunks') == FreeChunks(m, chunks) + ClosingFree(top, sp)
    ensures m.Keys <= mB.Keys
  {
    hide HeapTags, Tags, Closing, Granted, Part, SegmentTags, Recorded, FirstMemory, Placed, SegmentsApart, Unused;
    TopSegment(m, segs, top, topsize, chunks);
    var topsize', mA := size - TOP_FOOT_SIZE, FirstMemory(space + m, base, size - TOP_FOOT_SIZE);
    var segs', chunks' := WithSegment(segs, base, size, sp), chunks + ClosingChunks(top, sp);
    FirstKept(m, space, base, size);
    NewSegment(m, space, mB, segs, top, topsize, chunks, base, size, sp);
    ClosedSegment(m, mA, mB, segs, top, topsize, chunks, base, size, sp);
    forall j | 0 <= j < |segs'|
      ensures SegmentTags(mB, segs', base, topsize', chunks', j) && (j > 0 ==> Recorded(mB, chunks', segs'[j]))
    {
      if j == 1 {
        SegmentTopsize(mB, segs', base, size, topsize', chunks', 1);
      } else if j > 1 {
        LaterSegment(m, mA, mB, segs, top, topsize, chunks, base, size, sp, topsize', j - 1);
      }
    }
    AddedPlaced(m, segs, top, topsize, chunks, base, size, sp);
    AddedApart(m, segs, top, topsize, chunks, base, size, sp);
    TagsOf(mB, segs', base, topsize', chunks');
    AddedMaps(m, mA, mB, segs, top, topsize, chunks, base, size, sp);
  }

  lemma FirstKept(m: Heap, space: Heap, base: Addr, size: nat)
    requires base in space && TOP_FOOT_SIZE < size && base + size - TOP_FOOT_SIZE in space
    ensures var mA := FirstMemory(space + m, base, size - TOP_FOOT_SIZE);
      m.Keys <= mA.Keys && forall a :: a in m && !(base <= a < base + size) ==> mA[a] == m[a]
  {
  }

  lemma SegmentTopsize(m: Heap, segs: seq<Segment>, top: Addr, topsize: nat, topsize': nat, chunks: set<Addr>, i: nat)
    requires 0 < i < |segs| && SegmentTags(m, segs, top, topsize, chunks, i)
    ensures SegmentTags(m, segs, top, topsize', chunks, i)
  {
    hide Tags;
  }

  lemma TagsOf(m: Heap, segs: seq<Segment>, top: Addr, topsize: nat, chunks: set<Addr>)
    requires 0 < |segs| && 0 < topsize && EndOf(segs[0]) == top + topsize + TOP_FOOT_SIZE && SegmentsApart(segs)
    requires forall j :: 0 <= j < |segs| ==> SegmentTags(m, segs, top, topsize, chunks, j)
    requires forall i :: 1 <= i < |segs| ==> Recorded(m, chunks, segs[i])
    requires forall p {:trigger Placed(segs, p)} :: p in chunks ==> Placed(segs, p)
    ensures HeapTags(m, segs, top, topsize, chunks)
  {
  }

  lemma AddedPlaced(m: Heap, segs: seq<Segment>, top: Addr, topsize: nat, chunks: set<Addr>, base: Addr, size: nat,
                    sp: Addr)
    requires HeapTags(m, segs, top, topsize, chunks) && sp == RecordPlace(top, topsize)
    ensures forall p {:trigger Placed(WithSegment(segs, base, size, sp), p)} :: p in chunks + ClosingChunks(top, sp) ==>
      Placed(WithSegment(segs, base, size, sp), p)
  {
    hide Tags, SegmentTags, Recorded, SegmentsApart;
    TopSegment(m, segs, top, topsize, chunks);
    var segs' := WithSegment(segs, base, size, sp);
    assert segs'[1] == segs[0].(record := sp);
    forall p | p in chunks + ClosingChunks(top, sp) ensures Placed(segs', p) {
      if p in chunks {
        assert Placed(segs, p);
        var i :| 0 <= i < |segs| && InSegment(segs[i], p);
        assert i > 0 ==> segs'[i + 1] == segs[i];
        assert InSegment(segs'[i + 1], p);
      } else {
        assert InSegment(segs'[1], p);
      }
    }
  }

  lemma AddedApart(m: Heap, segs: seq<Segment>, top: Addr, topsize: nat, chunks: set<Addr>, base: Addr, size: nat,
                   sp: Addr)
    requires HeapTags(m, segs, top, topsize, chunks) && Unused(segs, base, size)
    ensures SegmentsApart(WithSegment(segs, base, size, sp))
    ensures EndOf(WithSegment(segs, base, size, sp)[0]) == base + size
  {
    hide Tags, SegmentTags, Recorded, Placed;
    var segs' := WithSegment(segs, base, size, sp);
    forall i, j | 0 <= i < j < |segs'| ensures EndOf(segs'[i]) <= segs'[j].base || EndOf(segs'[j]) <= segs'[i].base {
      assert j > 1 ==> segs'[j] == segs[j - 1];
      if i > 0 {
        assert i > 1 ==> segs'[i] == segs[i - 1];
        ApartOf(segs, i - 1, j - 1);
      } else {
        assert base + size <= segs[j - 1].base || EndOf(segs[j - 1]) <= base;
      }
    }
  }

  lemma AddedMaps(m: Heap, mA: Heap, mB: Heap, segs: seq<Segment>, top: Addr, topsize: nat, chunks: set<Addr>,
                  base: Addr, size: nat, sp: Addr)
    requires HeapTags(m, segs, top, topsize, chunks) && sp == RecordPlace(top, topsize)
    requires Unused(segs, base, size) && m.Keys <= mA.Keys
    requires (forall a :: a in m && !(base <= a < base + size) ==> mA[a] == m[a]) && Closing(mA, mB, top, topsize, sp)
    ensures var segs', chunks' := WithSegment(segs, base, size, sp), chunks + ClosingChunks(top, sp);
      && Used(mB, segs', chunks') == Used(m, segs, chunks)
      && FreeChunks(mB, chunks') == FreeChunks(m, chunks) + ClosingFree(top, sp)
    ensures m.Keys <= mB.Keys
  {
    hide HeapTags, Tags, Closing, Allocated, FreeChunks, Records;
    TopSegment(m, segs, top, topsize, chunks);
    ClosingFacts(mA, mB, top, topsize, sp);
    forall p | p in chunks ensures p in m && p in mB && mB[p] == m[p] {
      var i := Located(m, segs, top, topsize, chunks, p);
      assert base + size <= segs[i].base || EndOf(segs[i]) <= base;
      if i > 0 {
        TagsApart(m, segs, top, topsize, chunks);
        ApartOf(segs, 0, i);
      }
    }
    KeptMaps(m, mB, chunks);
    ClosedMaps(mB, chunks, top, sp);
    AddedRecords(segs, base, size, sp);
    NotAChunk(m, segs, top, topsize, chunks, sp);
  }

  lemma NotAChunk(m: Heap, segs: seq<Segment>, top: Addr, topsize: nat, chunks: set<Addr>, sp: Addr)
    requires HeapTags(m, segs, top, topsize, chunks) && sp == RecordPlace(top, topsize)
    ensures sp !in Allocated(m, chunks)
  {
    hide Tags, SegmentTags, Recorded;
    TopSegment(m, segs, top, topsize, chunks);
    if sp in chunks {
      var i := Located(m, segs, top, topsize, chunks, sp);
      if i > 0 {
        ApartOf(segs, 0, i);
      }
    }
  }

  lemma AddedRecords(segs: seq<Segment>, base: Addr, size: nat, sp: Addr)
    requires 0 < |segs|
    ensures Records(WithSegment(segs, base, size, sp)) == Records(segs) + {sp}
  {
    var segs' := WithSegment(segs, base, size, sp);
    forall i | 1 <= i < |segs| ensures segs[i].record in Records(segs') {
      assert segs'[i + 1] == segs[i];
    }
    assert segs'[1].record == sp;
    forall i | 1 <= i < |segs'| ensures segs'[i].record in Records(segs) + {sp} {
      assert i > 1 ==> segs'[i] == segs[i - 1];
    }
  }

  /** The heap when it has only the first memory from the system. */
  lemma FirstHeap(memory: Heap, base: Addr, size: nat)
    requires base % 8 == 0 && 0 < base && size % 8 == 0 && TOP_FOOT_SIZE < size && base + size <= WORD
    requires Granted(memory, base, size)
    ensures base in memory && base + (size - TOP_FOOT_SIZE) in memory
    ensures var m := FirstMemory(memory, base, size - TOP_FOOT_SIZE); var segs := [Segment(base, size, 0)];
      && HeapTags(m, segs, base, size - TOP_FOOT_SIZE, {}) && m.Keys == memory.Keys
      && Used(m, segs, {}) == map[] && FreeChunks(m, {}) == {}
  {
    assert base in memory && base + (size - TOP_FOOT_SIZE) in memory;
    hide Tags, FirstMemory;
    var topsize := size - TOP_FOOT_SIZE;
    GrantedBacked(memory, base, size, base, base + topsize);
    FirstTags(memory, base, topsize);
    SameKeys(memory, FirstMemory(memory, base, topsize), base, size);
    var segs := [Segment(base, size, 0)];
    assert Part({}, segs[0]) == {};
    assert SegmentTags(FirstMemory(memory, base, topsize), segs, base, topsize, {}, 0);
  }

  const FENCEPOST_SIZE := 4
  const FENCEPOST_HEAD := 7

  function AlignOffset(a: Addr): nat {
    if a % 8 == 0 then 0 else 8 - a % 8
  }

  /** The record of a segment goes right behind the top chunk, unless that is too small to be a chunk. */
  lemma PlaceOfRecord(top: Addr, topsize: nat)
    requires top % 8 == 0 && topsize % 8 == 0 && 0 < topsize
    ensures var rawsp := top + topsize + TOP_FOOT_SIZE - (RECORD_SIZE + 4 * FENCEPOST_SIZE + 7);
      var asp := rawsp + AlignOffset(rawsp + 8);
      RecordPlace(top, topsize) == if asp < top + MIN_CHUNK_SIZE then top else asp
  {
  }

  /** The memory after the head of a fencepost is written to the word behind p. */
  function FencedAt(m: Heap, p: Addr): Heap
    requires p in m || p + 4 in m
    requires if p % 8 == 0 then p in m else p + 4 in m
  {
    if p % 8 == 0 then SetHead(m, p, 0, true, true) else SetFoot(m, p + 4, FENCEPOST_HEAD)
  }

  lemma FenceEffects(m: Heap, p: Addr, tnext: Addr, end: Addr)
    requires tnext <= p && p + 4 < end && p % 4 == 0 && tnext % 8 == 0 && Granted(m, tnext, end - tnext)
    ensures if p % 8 == 0 then p in m else p + 4 in m
    ensures var m' := FencedAt(m, p);
      && m'.Keys == m.Keys && Granted(m', tnext, end - tnext)
      && (forall a :: a in m && (a < tnext || end <= a) ==> m'[a] == m[a])
      && tnext in m && (if p == tnext then m'[tnext].data.pinuse && m'[tnext].data.cinuse else m'[tnext] == m[tnext])
  {
  }

  /** Puts fenceposts, heads of chunks in use that are no chunks, into the words from tnext to end. */
  method PlaceFences(m: Heap, tnext: Addr, end: Addr) returns (m': Heap, nfences: nat)
    requires tnext % 8 == 0 && end % 8 == 0 && tnext + 16 <= end && Granted(m, tnext, end - tnext)
    ensures m'.Keys == m.Keys && forall a :: a in m && (a < tnext || end <= a) ==> m'[a] == m[a]
    ensures tnext in m' && m'[tnext].data.pinuse && m'[tnext].data.cinuse
    ensures LinksKept(m, m', Stretch(m, tnext, end))
    ensures 2 <= nfences
  {
    hide LinksKept, Stretch, FencedAt, Granted;
    m', nfences := m, 0;
    var p, more := tnext, true;
    while more
      invariant tnext <= p && p % 4 == 0 && p + 4 < end && Granted(m', tnext, end - tnext)
      invariant m'.Keys == m.Keys && forall a :: a in m && (a < tnext || end <= a) ==> m'[a] == m[a]
      invariant p > tnext || !more ==> tnext in m' && m'[tnext].data.pinuse && m'[tnext].data.cinuse
      invariant nfences >= (if p > tnext then 1 else 0) + if more then 0 else 1
      invariant more || end <= p + 8
      decreases end - p, more
    {
      FenceEffects(m', p, tnext, end);
      m' := FencedAt(m', p);
      nfences := nfences + 1;
      if p + 8 < end {
        p := p + FENCEPOST_SIZE;
      } else {
        more := false;
      }
    }
    SameOutside(m, m', tnext, end);
  }

  lemma SameOutside(m: Heap, m': Heap, from: Addr, to: Addr)
    requires m'.Keys == m.Keys && forall a :: a in m && (a < from || to <= a) ==> m'[a] == m[a]
    ensures LinksKept(m, m', Stretch(m, from, to))
  {
  }

  ghost function Stretch(m: Heap, from: Addr, to: Addr): set<Addr> {
    set a | a in m && from <= a < to
  }

  /** Writes what is needed to close the segment that the old top chunk is in. */
  method CloseSegment(m: Heap, top: Addr, topsize: nat) returns (m': Heap, sp: Addr)
    requires top % 8 == 0 && topsize % 8 == 0 && 0 < topsize
    requires Granted(m, top, topsize + TOP_FOOT_SIZE) && top in m && m[top].data.pinuse
    ensures sp == RecordPlace(top, topsize) && Closing(m, m', top, topsize, sp)
    ensures LinksKept(m, m', Stretch(m, top, top + topsize + TOP_FOOT_SIZE))
  {
    hide Closing, LinksKept, Stretch, SetFreeWithPinuse, Granted, SetSizeAndPinuseOfInuseChunk;
    var oldEnd := top + topsize + TOP_FOOT_SIZE;
    var rawsp := oldEnd - (RECORD_SIZE + 4 * FENCEPOST_SIZE + 7);
    var asp := rawsp + AlignOffset(rawsp + 8);
    PlaceOfRecord(top, topsize);
    sp := if asp < top + MIN_CHUNK_SIZE then top else asp;
    PlacesGranted(m, top, topsize);
    var tnext := sp + RECORD_SIZE;
    m' := SetSizeAndPinuseOfInuseChunk(m, sp, RECORD_SIZE);
    ghost var m1 := m';
    GrantedPart(m, top, topsize + TOP_FOOT_SIZE, m1, tnext, oldEnd - tnext);
    var nfences;
    m', nfences := PlaceFences(m', tnext, oldEnd);
    ClosedOff(m, m1, m', top, topsize, sp);
    if sp != top {
      m' := SetFreeWithPinuse(m', top, sp - top, sp);
    }
  }

  lemma PlacesGranted(m: Heap, top: Addr, topsize: nat)
    requires top % 8 == 0 && topsize % 8 == 0 && 0 < topsize && Granted(m, top, topsize + TOP_FOOT_SIZE)
    ensures var sp := RecordPlace(top, topsize);
      && top <= sp && sp in m && sp % 8 == 0 && (sp + RECORD_SIZE) % 8 == 0
      && sp + RECORD_SIZE + 16 <= top + topsize + TOP_FOOT_SIZE
      && SetSizeAndPinuseOfInuseChunk(m, sp, RECORD_SIZE).Keys == m.Keys
  {
  }

  lemma ClosedOff(m: Heap, m1: Heap, m2: Heap, top: Addr, topsize: nat, sp: Addr)
    requires sp in m && m1 == SetSizeAndPinuseOfInuseChunk(m, sp, RECORD_SIZE) && sp == RecordPlace(top, topsize)
    requires top in m && m[top].data.pinuse && 0 < topsize
    requires m2.Keys == m1.Keys
    requires forall a :: a in m1 && (a < sp + RECORD_SIZE || top + topsize + TOP_FOOT_SIZE <= a) ==> m2[a] == m1[a]
    requires sp + RECORD_SIZE in m2 && m2[sp + RECORD_SIZE].data.pinuse && m2[sp + RECORD_SIZE].data.cinuse
    requires LinksKept(m1, m2, Stretch(m1, sp + RECORD_SIZE, top + topsize + TOP_FOOT_SIZE))
    ensures var m' := if sp != top then SetFreeWithPinuse(m2, top, sp - top, sp) else m2;
      Closing(m, m', top, topsize, sp) && LinksKept(m, m', Stretch(m, top, top + topsize + TOP_FOOT_SIZE))
  {
  }

  lemma GrantedPart(m: Heap, base: Addr, size: nat, m': Heap, base': Addr, size': nat)
    requires Granted(m, base, size) && base <= base' && base' + size' <= base + size && m.Keys <= m'.Keys
    ensures Granted(m', base', size')
  {
  }

  lemma FirstLinks(m: Heap, space: Heap, base: Addr, size: nat)
    requires base in space && TOP_FOOT_SIZE < size && base + size - TOP_FOOT_SIZE in space
    ensures var mA := FirstMemory(space + m, base, size - TOP_FOOT_SIZE);
      LinksKept(m, mA, Stretch(mA, base, base + size))
  {
  }
}
