/** The heap as a whole: segments that the system handed out, each tiled by chunks. */
module Segments {
  import opened Rings
  import opened TreeIndex
  import opened SizeTrie
  import opened TreeBins
  import opened BoundaryTags

  const TOP_FOOT_SIZE := 40
  const RECORD_SIZE := 24

  /** A region of memory from the system. The record of all but the first segment is itself kept in a
      chunk, at the end of the segment that it describes. */
  datatype Segment = Segment(base: Addr, size: nat, record: Addr)

  function EndOf(s: Segment): Addr {
    s.base + s.size
  }

  /** The fenceposts that close a segment follow the chunk of its record. */
  function Fence(s: Segment): Addr {
    s.record + RECORD_SIZE
  }

  predicate InSegment(s: Segment, a: Addr) {
    s.base <= a < EndOf(s)
  }

  ghost function Part(chunks: set<Addr>, s: Segment): set<Addr> {
    set p | p in chunks && InSegment(s, p)
  }

  ghost function Rest(chunks: set<Addr>, s: Segment): set<Addr> {
    set p | p in chunks && !InSegment(s, p)
  }

  /** Where the chunks of segment i end: the top chunk lies in the first one. */
  function Stop(segs: seq<Segment>, top: Addr, i: nat): Addr
    requires i < |segs|
  {
    if i == 0 then top else Fence(segs[i])
  }

  function Room(topsize: nat, i: nat): nat {
    if i == 0 then topsize else 0
  }

  /** Memory from the system can be used from base on, for size bytes. */
  ghost predicate Granted(m: Heap, base: Addr, size: nat) {
    forall a: Addr :: base <= a < base + size && a % 8 == 0 ==> a in m
  }

  ghost predicate SegmentsApart(segs: seq<Segment>) {
    forall i, j :: 0 <= i < j < |segs| ==> EndOf(segs[i]) <= segs[j].base || EndOf(segs[j]) <= segs[i].base
  }

  ghost predicate SegmentTags(m: Heap, segs: seq<Segment>, top: Addr, topsize: nat, chunks: set<Addr>, i: nat)
    requires i < |segs|
  {
    && Tags(m, segs[i].base, Stop(segs, top, i), Room(topsize, i), Part(chunks, segs[i]))
    && Stop(segs, top, i) < EndOf(segs[i]) <= WORD && segs[i].size % 8 == 0 && Granted(m, segs[i].base, segs[i].size)
  }

  /** The chunk that holds the record of a segment that has been closed. */
  ghost predicate Recorded(m: Heap, chunks: set<Addr>, s: Segment) {
    && s.record in Allocated(m, Part(chunks, s)) && Allocated(m, Part(chunks, s))[s.record] == RECORD_SIZE
  }

  /** Every segment is tiled by its chunks; but for the top chunk in the first one. */
  ghost predicate HeapTags(m: Heap, segs: seq<Segment>, top: Addr, topsize: nat, chunks: set<Addr>) {
    && 0 < |segs| && 0 < topsize && EndOf(segs[0]) == top + topsize + TOP_FOOT_SIZE
    && SegmentsApart(segs)
    && (forall i :: 0 <= i < |segs| ==> SegmentTags(m, segs, top, topsize, chunks, i))
    && (forall i :: 1 <= i < |segs| ==> Recorded(m, chunks, segs[i]))
    && (forall p {:trigger Placed(segs, p)} :: p in chunks ==> Placed(segs, p))
  }

  /** Does some segment hold address p? */
  ghost predicate Placed(segs: seq<Segment>, p: Addr) {
    exists i :: 0 <= i < |segs| && InSegment(segs[i], p)
  }

  ghost function Records(segs: seq<Segment>): set<Addr> {
    set i | 1 <= i < |segs| :: segs[i].record
  }

  /** The chunks in use and their sizes, without those that hold records of segments. */
  ghost function Used(m: Heap, segs: seq<Segment>, chunks: set<Addr>): map<Addr, nat> {
    Allocated(m, chunks) - Records(segs)
  }

  /** The segment of a chunk. */
  lemma Located(m: Heap, segs: seq<Segment>, top: Addr, topsize: nat, chunks: set<Addr>, p: Addr) returns (i: nat)
    requires HeapTags(m, segs, top, topsize, chunks) && p in chunks
    ensures i < |segs| && p in Part(chunks, segs[i]) && SegmentTags(m, segs, top, topsize, chunks, i)
    ensures p in m && segs[i].base <= p < p + m[p].data.size <= Stop(segs, top, i) < EndOf(segs[i])
    ensures i > 0 ==> Recorded(m, chunks, segs[i])
  {
    hide Tags, ChunkTags, SegmentsApart, Granted, Recorded;
    assert Placed(segs, p);
    i :| 0 <= i < |segs| && InSegment(segs[i], p);
    assert SegmentTags(m, segs, top, topsize, chunks, i);
    AllBelow(m, segs[i].base, Stop(segs, top, i), Room(topsize, i), Part(chunks, segs[i]));
    BoundsOfTags(m, segs[i].base, Stop(segs, top, i), Room(topsize, i), Part(chunks, segs[i]));
  }

  lemma BoundsOfTags(m: Heap, base: Addr, top: Addr, topsize: nat, chunks: set<Addr>)
    requires Tags(m, base, top, topsize, chunks)
    ensures Bounds(m, base, top, topsize) && forall p :: p in chunks ==> base <= p
  {
    forall p | p in chunks ensures base <= p {
      assert ChunkTags(m, top, chunks, p);
    }
  }

  /** What is in and out of a segment. */
  lemma PartsOf(m: Heap, chunks: set<Addr>, s: Segment)
    ensures chunks == Rest(chunks, s) + Part(chunks, s) && Rest(chunks, s) !! Part(chunks, s)
    ensures Allocated(m, chunks) == Allocated(m, Rest(chunks, s)) + Allocated(m, Part(chunks, s))
    ensures FreeChunks(m, chunks) == FreeChunks(m, Rest(chunks, s)) + FreeChunks(m, Part(chunks, s))
  {
  }

  /** The memory outside of segment s is as it was. */
  ghost predicate KeptOutside(m: Heap, m': Heap, s: Segment) {
    m.Keys <= m'.Keys && forall a :: a in m && !InSegment(s, a) ==> m'[a] == m[a]
  }

  /** Segments where nothing is changed stay tiled. */
  lemma OtherSegment(m: Heap, m': Heap, segs: seq<Segment>, top: Addr, topsize: nat, top': Addr, topsize': nat,
                     chunks: set<Addr>, chunks': set<Addr>, i: nat, j: nat)
    requires SegmentsApart(segs) && i < |segs| && j < |segs| && i != j && SegmentTags(m, segs, top, topsize, chunks, j)
    requires KeptOutside(m, m', segs[i]) && Part(chunks', segs[j]) == Part(chunks, segs[j])
    requires j == 0 ==> top' == top && topsize' == topsize
    ensures SegmentTags(m', segs, top', topsize', chunks', j)
    ensures Recorded(m, chunks, segs[j]) ==> Recorded(m', chunks', segs[j])
  {
    hide Tags, Allocated;
    var s, stop := segs[j], Stop(segs, top, j);
    assert Stop(segs, top', j) == stop && Room(topsize', j) == Room(topsize, j);
    BoundsOfTags(m, s.base, stop, Room(topsize, j), Part(chunks, s));
    forall a | a in m && s.base <= a <= stop ensures m'[a] == m[a] {
      assert !InSegment(segs[i], a);
    }
    ElsewhereFrame(m, m', s.base, stop, Room(topsize, j), Part(chunks, s));
  }

  /** Tags depend only on the memory of the segment. */
  lemma ElsewhereFrame(m: Heap, m': Heap, base: Addr, top: Addr, topsize: nat, chunks: set<Addr>)
    requires Tags(m, base, top, topsize, chunks)
    requires m.Keys <= m'.Keys && forall a :: a in m && base <= a <= top ==> m'[a] == m[a]
    ensures Tags(m', base, top, topsize, chunks)
    ensures Allocated(m', chunks) == Allocated(m, chunks) && FreeChunks(m', chunks) == FreeChunks(m, chunks)
  {
    hide ChunkTags, Bounds, Apart;
    BoundsFacts(m, base, top, topsize);
    AllBelow(m, base, top, topsize, chunks);
    forall p | p in chunks ensures base <= p && ChunkTags(m', top, chunks, p) {
      ChunkFacts(m, top, chunks, p);
      ChunkFrame(m, m', top, chunks, p);
    }
    ApartFrame(m, m', chunks);
    BoundsFrame(m, m', base, top, topsize);
  }

  /** The parts of a set of chunks when those of segment s become other ones. */
  lemma PartsChanged(m: Heap, m': Heap, chunks: set<Addr>, s: Segment, part: set<Addr>)
    requires KeptOutside(m, m', s) && (forall p :: p in part ==> InSegment(s, p))
    requires (forall p :: p in chunks ==> p in m)
    ensures var chunks' := Rest(chunks, s) + part;
      && Part(chunks', s) == part && Rest(chunks', s) == Rest(chunks, s)
      && Allocated(m', Rest(chunks, s)) == Allocated(m, Rest(chunks, s))
      && FreeChunks(m', Rest(chunks, s)) == FreeChunks(m, Rest(chunks, s))
  {
  }

  lemma OtherPart(chunks: set<Addr>, s: Segment, t: Segment, part: set<Addr>)
    requires EndOf(s) <= t.base || EndOf(t) <= s.base
    requires forall p :: p in part ==> InSegment(s, p)
    ensures Part(Rest(chunks, s) + part, t) == Part(chunks, t)
  {
  }

  lemma ApartOf(segs: seq<Segment>, i: nat, j: nat)
    requires SegmentsApart(segs) && i < |segs| && j < |segs| && i != j
    ensures EndOf(segs[i]) <= segs[j].base || EndOf(segs[j]) <= segs[i].base
  {
  }

  lemma ChunksInMemory(m: Heap, segs: seq<Segment>, top: Addr, topsize: nat, chunks: set<Addr>)
    requires HeapTags(m, segs, top, topsize, chunks)
    ensures forall p :: p in chunks ==> p in m && 0 < p
  {
    hide HeapTags, Tags;
    forall p | p in chunks ensures p in m && 0 < p {
      var i := Located(m, segs, top, topsize, chunks, p);
      BoundsOfTags(m, segs[i].base, Stop(segs, top, i), Room(topsize, i), Part(chunks, segs[i]));
    }
  }

  lemma LiftedSegment(m: Heap, m': Heap, segs: seq<Segment>, top: Addr, topsize: nat, chunks: set<Addr>,
                      i: nat, top': Addr, topsize': nat, part: set<Addr>, j: nat)
    requires HeapTags(m, segs, top, topsize, chunks) && i < |segs| && j < |segs| && KeptOutside(m, m', segs[i])
    requires if i == 0 then 0 < topsize' && top' + topsize' == top + topsize else top' == top && topsize' == topsize
    requires Tags(m', segs[i].base, Stop(segs, top', i), Room(topsize', i), part)
    requires forall p :: p in part ==> InSegment(segs[i], p)
    requires i > 0 ==> segs[i].record in Allocated(m', part) && Allocated(m', part)[segs[i].record] == RECORD_SIZE
    ensures SegmentTags(m', segs, top', topsize', Rest(chunks, segs[i]) + part, j)
    ensures j > 0 ==> Recorded(m', Rest(chunks, segs[i]) + part, segs[j])
  {
    ChunksInMemory(m, segs, top, topsize, chunks);
    var chunks' := Rest(chunks, segs[i]) + part;
    PartsChanged(m, m', chunks, segs[i], part);
    hide Tags, Allocated, Part, Rest, SegmentsApart, InSegment;
    assert SegmentTags(m, segs, top, topsize, chunks, j);
    if j != i {
      ApartOf(segs, i, j);
      OtherPart(chunks, segs[i], segs[j], part);
      OtherSegment(m, m', segs, top, topsize, top', topsize', chunks, chunks', i, j);
    }
  }

  /** When the chunks of one segment change, and nothing outside of it. */
  lemma LiftedSegments(m: Heap, m': Heap, segs: seq<Segment>, top: Addr, topsize: nat, chunks: set<Addr>,
                       i: nat, top': Addr, topsize': nat, part: set<Addr>)
    requires HeapTags(m, segs, top, topsize, chunks) && i < |segs| && KeptOutside(m, m', segs[i])
    requires if i == 0 then 0 < topsize' && top' + topsize' == top + topsize else top' == top && topsize' == topsize
    requires Tags(m', segs[i].base, Stop(segs, top', i), Room(topsize', i), part)
    requires forall p :: p in part ==> InSegment(segs[i], p)
    requires i > 0 ==> segs[i].record in Allocated(m', part) && Allocated(m', part)[segs[i].record] == RECORD_SIZE
    ensures HeapTags(m', segs, top', topsize', Rest(chunks, segs[i]) + part)
  {
    hide Tags, Allocated, Part, Rest, SegmentTags, Recorded, InSegment, SegmentsApart;
    var chunks' := Rest(chunks, segs[i]) + part;
    forall j | 0 <= j < |segs| ensures SegmentTags(m', segs, top', topsize', chunks', j)
      ensures j > 0 ==> Recorded(m', chunks', segs[j])
    {
      LiftedSegment(m, m', segs, top, topsize, chunks, i, top', topsize', part, j);
    }
    forall p | p in chunks' ensures Placed(segs, p) {
      PlacedPart(m, segs, top, topsize, chunks, segs[i], part, p);
    }
  }

  lemma PlacedPart(m: Heap, segs: seq<Segment>, top: Addr, topsize: nat, chunks: set<Addr>, s: Segment, part: set<Addr>,
                   p: Addr)
    requires HeapTags(m, segs, top, topsize, chunks) && s in segs && p in Rest(chunks, s) + part
    requires forall q :: q in part ==> InSegment(s, q)
    ensures Placed(segs, p)
  {
  }

  lemma RestIn(chunks: set<Addr>, s: Segment)
    ensures Rest(chunks, s) <= chunks && Part(chunks, s) <= chunks
  {
  }

  /** What is the same and what is other after the chunks of segment i have changed from part to part'. */
  lemma Lifted(m: Heap, m': Heap, segs: seq<Segment>, top: Addr, topsize: nat, chunks: set<Addr>,
               i: nat, top': Addr, topsize': nat, part': set<Addr>, chunks': set<Addr>)
    requires HeapTags(m, segs, top, topsize, chunks) && i < |segs| && KeptOutside(m, m', segs[i])
    requires if i == 0 then 0 < topsize' && top' + topsize' == top + topsize else top' == top && topsize' == topsize
    requires Tags(m', segs[i].base, Stop(segs, top', i), Room(topsize', i), part')
    requires chunks' == Rest(chunks, segs[i]) + part' && forall p :: p in part' ==> InSegment(segs[i], p)
    requires i > 0 ==> segs[i].record in Allocated(m', part') && Allocated(m', part')[segs[i].record] == RECORD_SIZE
    ensures HeapTags(m', segs, top', topsize', chunks')
    ensures Allocated(m, chunks) == Allocated(m, Rest(chunks, segs[i])) + Allocated(m, Part(chunks, segs[i]))
    ensures FreeChunks(m, chunks) == FreeChunks(m, Rest(chunks, segs[i])) + FreeChunks(m, Part(chunks, segs[i]))
    ensures Allocated(m', chunks') == Allocated(m, Rest(chunks, segs[i])) + Allocated(m', part')
    ensures FreeChunks(m', chunks') == FreeChunks(m, Rest(chunks, segs[i])) + FreeChunks(m', part')
    ensures forall p :: InSegment(segs[i], p) ==>
      p !in Allocated(m, Rest(chunks, segs[i])) && p !in FreeChunks(m, Rest(chunks, segs[i]))
  {
    ChunksInMemory(m, segs, top, topsize, chunks);
    LiftedSegments(m, m', segs, top, topsize, chunks, i, top', topsize', part');
    hide HeapTags, Tags;
    PartsOf(m, chunks, segs[i]);
    PartsChanged(m, m', chunks, segs[i], part');
    PartsOf(m', chunks', segs[i]);
  }

  /** The chunks that hold records are in use. */
  lemma RecordsUsed(m: Heap, segs: seq<Segment>, top: Addr, topsize: nat, chunks: set<Addr>)
    requires HeapTags(m, segs, top, topsize, chunks)
    ensures forall r :: r in Records(segs) ==> r in Allocated(m, chunks) && r in chunks && r !in FreeChunks(m, chunks)
  {
    hide Tags, SegmentTags, SegmentsApart;
    forall r | r in Records(segs) ensures r in Allocated(m, chunks) {
      var i :| 1 <= i < |segs| && segs[i].record == r;
      assert Recorded(m, chunks, segs[i]);
    }
  }

  /** A free chunk and its segment. */
  lemma FreeLocated(m: Heap, segs: seq<Segment>, top: Addr, topsize: nat, chunks: set<Addr>, p: Addr) returns (i: nat)
    requires HeapTags(m, segs, top, topsize, chunks) && p in FreeChunks(m, chunks)
    ensures p in m && p in chunks && p !in Allocated(m, chunks) && p !in Records(segs) && 0 < topsize
    ensures i < |segs| && p in Part(chunks, segs[i]) && p in FreeChunks(m, Part(chunks, segs[i]))
    ensures SegmentTags(m, segs, top, topsize, chunks, i)
    ensures (i > 0 ==> Recorded(m, chunks, segs[i]) && p != segs[i].record)
    ensures segs[i].base <= p < p + m[p].data.size <= Stop(segs, top, i) < EndOf(segs[i])
    ensures i > 0 ==> segs[i].record in Part(chunks, segs[i])
  {
    RecordsUsed(m, segs, top, topsize, chunks);
    hide HeapTags;
    i := Located(m, segs, top, topsize, chunks, p);
  }

  /** A chunk in use and its segment. */
  lemma UsedLocated(m: Heap, segs: seq<Segment>, top: Addr, topsize: nat, chunks: set<Addr>, p: Addr) returns (i: nat)
    requires HeapTags(m, segs, top, topsize, chunks) && p in Used(m, segs, chunks)
    ensures p in m && p in chunks && m[p].data.cinuse && p !in Records(segs) && 0 < topsize
    ensures i < |segs| && p in Part(chunks, segs[i]) && p in Allocated(m, Part(chunks, segs[i]))
    ensures SegmentTags(m, segs, top, topsize, chunks, i)
    ensures (i > 0 ==> Recorded(m, chunks, segs[i]) && p != segs[i].record)
    ensures segs[i].base <= p < p + m[p].data.size <= Stop(segs, top, i) < EndOf(segs[i])
    ensures i > 0 ==> segs[i].record in Part(chunks, segs[i])
    ensures p + m[p].data.size == Stop(segs, top, i) <==> p + m[p].data.size == top
    ensures p + m[p].data.size == top <==> i == 0 && p + m[p].data.size == Stop(segs, top, i)
  {
    i := Located(m, segs, top, topsize, chunks, p);
    TopLocated(m, segs, top, topsize, chunks, i);
    hide HeapTags, Tags;
    if i > 0 {
      BeforeFence(m, Stop(segs, top, i), Room(topsize, i), Part(chunks, segs[i]), segs[i], p);
    }
  }

  lemma BeforeFence(m: Heap, stop: Addr, room: nat, part: set<Addr>, s: Segment, p: Addr)
    requires Tags(m, s.base, stop, room, part) && stop == Fence(s) && s.record in Allocated(m, part)
    requires Allocated(m, part)[s.record] == RECORD_SIZE && p in part && p != s.record && p in m
    ensures p + m[p].data.size != stop
  {
    hide ChunkTags, Bounds;
    AllBelow(m, s.base, stop, room, part);
  }

  /** The top chunk lies in the first segment only. */
  lemma TopLocated(m: Heap, segs: seq<Segment>, top: Addr, topsize: nat, chunks: set<Addr>, i: nat)
    requires HeapTags(m, segs, top, topsize, chunks) && i < |segs|
    ensures segs[0].base <= top < EndOf(segs[0]) && top in m && top !in chunks && 0 < top && top % 8 == 0
    ensures m[top].data.pinuse && !m[top].data.cinuse && topsize % 8 == 0 && top + topsize <= WORD
    ensures i > 0 ==> !InSegment(segs[i], top)
  {
    hide Tags;
    assert SegmentTags(m, segs, top, topsize, chunks, 0);
    BoundsOfTags(m, segs[0].base, top, topsize, Part(chunks, segs[0]));
    TopIsNoChunk(m, segs[0].base, top, topsize, Part(chunks, segs[0]));
    if i > 0 {
      ApartOf(segs, 0, i);
    }
  }

  /** A free chunk goes into use. */
  lemma UseWhole(m: Heap, segs: seq<Segment>, top: Addr, topsize: nat, chunks: set<Addr>, p: Addr)
    requires HeapTags(m, segs, top, topsize, chunks) && p in FreeChunks(m, chunks)
    ensures p in m && p + m[p].data.size in m
    ensures var m' := SetInuseAndPinuse(m, p, m[p].data.size);
      && HeapTags(m', segs, top, topsize, chunks)
      && Used(m', segs, chunks) == Used(m, segs, chunks)[p := m[p].data.size]
      && FreeChunks(m', chunks) == FreeChunks(m, chunks) - {p}
  {
    hide HeapTags, Tags, Allocated, FreeChunks, SetInuseAndPinuse, Part, Rest, Records;
    var i := FreeLocated(m, segs, top, topsize, chunks, p);
    var part := Part(chunks, segs[i]);
    WholeAllocated(m, segs[i].base, Stop(segs, top, i), Room(topsize, i), part, p);
    WholeEffects(m, p, m[p].data.size);
    PartsOf(m, chunks, segs[i]);
    PartIn(chunks, segs[i]);
    Lifted(m, SetInuseAndPinuse(m, p, m[p].data.size), segs, top, topsize, chunks, i, top, topsize, part, chunks);
  }

  lemma PartIn(chunks: set<Addr>, s: Segment)
    ensures forall p :: p in Part(chunks, s) ==> InSegment(s, p) && p in chunks
  {
  }

  /** The front of a free chunk goes into use. */
  lemma UseFront(m: Heap, segs: seq<Segment>, top: Addr, topsize: nat, chunks: set<Addr>, p: Addr, nb: nat)
    requires HeapTags(m, segs, top, topsize, chunks) && p in FreeChunks(m, chunks) && p in m
    requires nb % 8 == 0 && MIN_CHUNK_SIZE <= nb && nb + MIN_CHUNK_SIZE <= m[p].data.size
    ensures var rsize := m[p].data.size - nb;
      && p + nb in m && p + nb + rsize in m && p + nb !in chunks
      && var m' := SplitFront(m, p, nb, rsize);
      && HeapTags(m', segs, top, topsize, chunks + {p + nb})
      && Used(m', segs, chunks + {p + nb}) == Used(m, segs, chunks)[p := nb]
      && FreeChunks(m', chunks + {p + nb}) == FreeChunks(m, chunks) - {p} + {p + nb}
      && m'[p + nb].data.size == rsize
  {
    hide HeapTags, Tags, Allocated, FreeChunks, SplitFront, Part, Rest, Records;
    var i := FreeLocated(m, segs, top, topsize, chunks, p);
    var part := Part(chunks, segs[i]);
    FrontAllocated(m, segs[i].base, Stop(segs, top, i), Room(topsize, i), part, p, nb);
    FrontEffects(m, p, nb, m[p].data.size - nb);
    PartsOf(m, chunks, segs[i]);
    PartIn(chunks, segs[i]);
    Lifted(m, SplitFront(m, p, nb, m[p].data.size - nb), segs, top, topsize, chunks, i, top, topsize,
           part + {p + nb}, chunks + {p + nb});
    PartHas(chunks, segs[i], p + nb);
  }

  lemma PartHas(chunks: set<Addr>, s: Segment, p: Addr)
    requires InSegment(s, p)
    ensures p in Part(chunks, s) <==> p in chunks
  {
  }

  /** The chunk that is free before p lies in the same segment. */
  lemma LeftmostPart(m: Heap, segs: seq<Segment>, top: Addr, topsize: nat, chunks: set<Addr>, p: Addr, lo: Addr, i: nat)
    requires HeapTags(m, segs, top, topsize, chunks) && p in chunks && Leftmost(m, chunks, p, lo)
    requires i < |segs| && InSegment(segs[i], p)
    ensures lo in m && lo <= p && InSegment(segs[i], lo) && Leftmost(m, Part(chunks, segs[i]), p, lo)
    ensures lo in chunks && (lo != p ==> lo in FreeChunks(m, chunks))
  {
    LeftmostFacts(m, chunks, p, lo);
    var j := Located(m, segs, top, topsize, chunks, lo);
    if i != j {
      ApartOf(segs, i, j);
    }
  }

  /** The chunks around a chunk in use that becomes free. */
  lemma AroundUsed(m: Heap, segs: seq<Segment>, top: Addr, topsize: nat, chunks: set<Addr>, p: Addr, lo: Addr)
    requires HeapTags(m, segs, top, topsize, chunks) && p in Used(m, segs, chunks) && p in m
    requires Leftmost(m, chunks, p, lo)
    requires p + m[p].data.size != top
    ensures var next := p + m[p].data.size;
      && next in chunks && next in m && lo in m && FreedEnd(m, next) in m && lo < FreedEnd(m, next)
      && lo <= p < next && (!m[next].data.cinuse ==> !m[FreedEnd(m, next)].data.pinuse)
      && lo in chunks && FreedEnd(m, next) in chunks
      && Separate(p, lo, next, FreedEnd(m, next), !m[next].data.cinuse)
  {
    hide HeapTags, Tags, Allocated, FreeChunks, FreedRegion, Part, Rest, Records, Leftmost, Merged, Separate;
    var i := UsedLocated(m, segs, top, topsize, chunks, p);
    LeftmostPart(m, segs, top, topsize, chunks, p, lo, i);
    var part, stop, room := Part(chunks, segs[i]), Stop(segs, top, i), Room(topsize, i);
    Surroundings(m, segs[i].base, stop, room, part, p, lo);
    SeparateOf(p, lo, p + m[p].data.size, FreedEnd(m, p + m[p].data.size), !m[p + m[p].data.size].data.cinuse);
    PartIn(chunks, segs[i]);
    if !m[p + m[p].data.size].data.cinuse {
      NextIsLess(m, segs[i].base, stop, room, part, p + m[p].data.size);
    }
  }

  lemma NextIsLess(m: Heap, base: Addr, top: Addr, topsize: nat, chunks: set<Addr>, p: Addr)
    requires Tags(m, base, top, topsize, chunks) && p in chunks && p in m
    ensures p + m[p].data.size in m && m[p + m[p].data.size].data.pinuse == m[p].data.cinuse && 0 < m[p].data.size
  {
    ChunkFacts(m, top, chunks, p);
  }

  /** The chunks that vanish lie behind the beginning and before the end of the new one. */
  ghost predicate Separate(p: Addr, lo: Addr, next: Addr, hi: Addr, merge: bool) {
    forall x :: x in Merged(p, lo, next, merge) ==> lo < x < hi
  }

  lemma SeparateOf(p: Addr, lo: Addr, next: Addr, hi: Addr, merge: bool)
    requires lo <= p < next <= hi && (merge ==> next < hi)
    ensures Separate(p, lo, next, hi, merge)
  {
  }

  /** A chunk in use becomes free, together with its free neighbours. */
  lemma FreeUsed(m: Heap, segs: seq<Segment>, top: Addr, topsize: nat, chunks: set<Addr>, p: Addr, lo: Addr, hi: Addr,
                 merge: bool)
    requires HeapTags(m, segs, top, topsize, chunks) && p in Used(m, segs, chunks) && p in m
    requires Leftmost(m, chunks, p, lo)
    requires p + m[p].data.size != top && p + m[p].data.size in m && hi == FreedEnd(m, p + m[p].data.size)
    requires merge == !m[p + m[p].data.size].data.cinuse && lo in m && hi in m && lo < hi
    ensures var next := p + m[p].data.size; var m' := FreedRegion(m, lo, hi, merge);
      var chunks' := chunks - Merged(p, lo, next, merge);
      && HeapTags(m', segs, top, topsize, chunks') && lo in chunks'
      && Used(m', segs, chunks') == Used(m, segs, chunks) - {p}
      && FreeChunks(m', chunks') == FreeChunks(m, chunks) - Merged(p, lo, next, merge) + {lo}
  {
    hide HeapTags, Tags, Allocated, FreeChunks, FreedRegion, Part, Rest, Records, Leftmost, Merged;
    var i := UsedLocated(m, segs, top, topsize, chunks, p);
    LeftmostPart(m, segs, top, topsize, chunks, p, lo, i);
    var part, stop, room := Part(chunks, segs[i]), Stop(segs, top, i), Room(topsize, i);
    Freed(m, segs[i].base, stop, room, part, p, lo);
    AroundUsed(m, segs, top, topsize, chunks, p, lo);
    FreedInside(m, segs[i], stop, room, part, p, lo);
    var gone := Merged(p, lo, p + m[p].data.size, merge);
    FreedEffects(m, lo, hi, merge);
    PartsOf(m, chunks, segs[i]);
    PartIn(chunks, segs[i]);
    RestLacks(chunks, segs[i], gone);
    Lifted(m, FreedRegion(m, lo, hi, merge), segs, top, topsize, chunks, i, top, topsize, part - gone, chunks - gone);
  }

  lemma FreedInside(m: Heap, s: Segment, stop: Addr, room: nat, part: set<Addr>, p: Addr, lo: Addr)
    requires Tags(m, s.base, stop, room, part) && p in part && p in m && m[p].data.cinuse && Leftmost(m, part, p, lo)
    requires p + m[p].data.size != stop && p + m[p].data.size in m && stop < EndOf(s)
    ensures InSegment(s, lo) && InSegment(s, FreedEnd(m, p + m[p].data.size))
    ensures forall x :: x in Merged(p, lo, p + m[p].data.size, !m[p + m[p].data.size].data.cinuse) ==> InSegment(s, x)
  {
    hide Tags, Leftmost;
    Surroundings(m, s.base, stop, room, part, p, lo);
  }

  lemma RestLacks(chunks: set<Addr>, s: Segment, gone: set<Addr>)
    requires forall p :: p in gone ==> InSegment(s, p)
    ensures Rest(chunks, s) !! gone && Rest(chunks, s) + (Part(chunks, s) - gone) == chunks - gone
  {
  }

  /** The first segment and the top chunk. */
  lemma TopSegment(m: Heap, segs: seq<Segment>, top: Addr, topsize: nat, chunks: set<Addr>)
    requires HeapTags(m, segs, top, topsize, chunks)
    ensures 0 < |segs| && SegmentTags(m, segs, top, topsize, chunks, 0) && 0 < topsize
    ensures segs[0].base <= top < top + topsize < EndOf(segs[0]) && EndOf(segs[0]) == top + topsize + TOP_FOOT_SIZE
    ensures Tags(m, segs[0].base, top, topsize, Part(chunks, segs[0])) && top !in chunks && InSegment(segs[0], top)
    ensures top in m && 0 < top && top % 8 == 0 && topsize % 8 == 0
    ensures m[top].data.pinuse && !m[top].data.cinuse && top !in Allocated(m, chunks) && top !in Records(segs)
  {
    RecordsUsed(m, segs, top, topsize, chunks);
    TopLocated(m, segs, top, topsize, chunks, 0);
    hide Tags;
    assert SegmentTags(m, segs, top, topsize, chunks, 0);
  }

  /** A chunk in use before the top chunk becomes part of it. */
  lemma FreeIntoTop(m: Heap, segs: seq<Segment>, top: Addr, topsize: nat, chunks: set<Addr>, p: Addr, lo: Addr)
    requires HeapTags(m, segs, top, topsize, chunks) && p in Used(m, segs, chunks) && p in m
    requires Leftmost(m, chunks, p, lo)
    requires p + m[p].data.size == top
    ensures lo in m && lo < top && lo in chunks
    ensures var m' := SetHead(m, lo, topsize + (top - lo), true, false); var chunks' := chunks - {p, lo};
      && HeapTags(m', segs, lo, topsize + (top - lo), chunks')
      && Used(m', segs, chunks') == Used(m, segs, chunks) - {p}
      && FreeChunks(m', chunks') == FreeChunks(m, chunks) - {lo}
  {
    hide HeapTags, Tags, Allocated, FreeChunks, SetHead, Part, Rest, Records, Leftmost;
    var i := UsedLocated(m, segs, top, topsize, chunks, p);
    TopSegment(m, segs, top, topsize, chunks);
    LeftmostPart(m, segs, top, topsize, chunks, p, lo, 0);
    var part := Part(chunks, segs[0]);
    FreedIntoTop(m, segs[0].base, top, topsize, part, p, lo);
    PartsOf(m, chunks, segs[0]);
    PartIn(chunks, segs[0]);
    RestLacks(chunks, segs[0], {p, lo});
    HeadEffects(m, lo, topsize + (top - lo), true, false);
    Lifted(m, SetHead(m, lo, topsize + (top - lo), true, false), segs, top, topsize, chunks, 0,
           lo, topsize + (top - lo), part - {p, lo}, chunks - {p, lo});
  }

  lemma HeadEffects(m: Heap, p: Addr, size: nat, pinuse: bool, cinuse: bool)
    requires p in m
    ensures var m' := SetHead(m, p, size, pinuse, cinuse);
      && m'.Keys == m.Keys && (forall q :: q in m && q != p ==> m'[q] == m[q])
      && m'[p].data == m[p].data.(size := size, pinuse := pinuse, cinuse := cinuse)
  {
  }

  /** The front of the top chunk goes into use. */
  lemma UseTop(m: Heap, segs: seq<Segment>, top: Addr, topsize: nat, chunks: set<Addr>, nb: nat)
    requires HeapTags(m, segs, top, topsize, chunks) && nb % 8 == 0 && MIN_CHUNK_SIZE <= nb < topsize
    ensures top in m && top + nb in m && top !in chunks
    ensures var m' := SplitTop(m, top, topsize, nb);
      && HeapTags(m', segs, top + nb, topsize - nb, chunks + {top})
      && Used(m', segs, chunks + {top}) == Used(m, segs, chunks)[top := nb]
      && FreeChunks(m', chunks + {top}) == FreeChunks(m, chunks)
  {
    hide HeapTags, Tags, Allocated, FreeChunks, SplitTop, Part, Rest, Records;
    TopSegment(m, segs, top, topsize, chunks);
    var part := Part(chunks, segs[0]);
    TopAllocated(m, segs[0].base, top, topsize, part, nb);
    SplitTopEffects(m, top, topsize, nb);
    PartsOf(m, chunks, segs[0]);
    PartIn(chunks, segs[0]);
    Lifted(m, SplitTop(m, top, topsize, nb), segs, top, topsize, chunks, 0, top + nb, topsize - nb, part + {top},
           chunks + {top});
  }

  /** A chunk in use is divided into two. */
  lemma DivideUsed(m: Heap, segs: seq<Segment>, top: Addr, topsize: nat, chunks: set<Addr>, p: Addr, nb: nat)
    requires HeapTags(m, segs, top, topsize, chunks) && p in Used(m, segs, chunks) && p in m
    requires nb % 8 == 0 && MIN_CHUNK_SIZE <= nb && nb + MIN_CHUNK_SIZE <= m[p].data.size
    ensures var rsize := m[p].data.size - nb; var r := p + nb;
      && r in m && r + rsize in m && r !in chunks
      && var m' := SplitInuse(m, p, nb, rsize);
      && HeapTags(m', segs, top, topsize, chunks + {r})
      && Used(m', segs, chunks + {r}) == Used(m, segs, chunks)[p := nb][r := rsize]
      && FreeChunks(m', chunks + {r}) == FreeChunks(m, chunks)
  {
    hide HeapTags, Tags, Allocated, FreeChunks, SplitInuse, Part, Rest, Records, Used;
    RecordsUsed(m, segs, top, topsize, chunks);
    var i := UsedLocated(m, segs, top, topsize, chunks, p);
    InsideUsed(m, segs, top, topsize, chunks, p, nb);
    var part, r, m' := Part(chunks, segs[i]), p + nb, SplitInuse(m, p, nb, m[p].data.size - nb);
    PartIn(chunks, segs[i]);
    DividedPart(m, segs[i], Stop(segs, top, i), Room(topsize, i), part, p, nb);
    PartsOf(m, chunks, segs[i]);
    PartHas(chunks, segs[i], r);
    assert chunks + {r} == Rest(chunks, segs[i]) + (part + {r});
    Lifted(m, m', segs, top, topsize, chunks, i, top, topsize, part + {r}, chunks + {r});
    Divided(m, m', segs, chunks, chunks + {r}, Allocated(m, Rest(chunks, segs[i])), Allocated(m, part), p, nb, r,
            m[p].data.size - nb);
  }

  lemma DividedPart(m: Heap, s: Segment, stop: Addr, room: nat, part: set<Addr>, p: Addr, nb: nat)
    requires Tags(m, s.base, stop, room, part) && p in part && p in m && m[p].data.cinuse && p + m[p].data.size in m
    requires nb % 8 == 0 && MIN_CHUNK_SIZE <= nb && nb + MIN_CHUNK_SIZE <= m[p].data.size && p + nb in m
    requires p + m[p].data.size < EndOf(s) && InSegment(s, p) && (forall q :: q in part ==> InSegment(s, q))
    ensures var m' := SplitInuse(m, p, nb, m[p].data.size - nb); var part' := part + {p + nb};
      && Tags(m', s.base, stop, room, part') && KeptOutside(m, m', s) && (forall q :: q in part' ==> InSegment(s, q))
      && Allocated(m', part') == Allocated(m, part)[p := nb][p + nb := m[p].data.size - nb]
      && FreeChunks(m', part') == FreeChunks(m, part)
      && (s.record in part && s.record != p && s.record in Allocated(m, part) ==>
            s.record in Allocated(m', part') && Allocated(m', part')[s.record] == Allocated(m, part)[s.record])
    ensures p + nb !in part && InSegment(s, p + nb)
  {
    hide Tags, SplitInuse, Allocated, FreeChunks;
    InuseSplit(m, s.base, stop, room, part, p, nb);
    SplitInuseEffects(m, p, nb, m[p].data.size - nb);
  }

  lemma InsideUsed(m: Heap, segs: seq<Segment>, top: Addr, topsize: nat, chunks: set<Addr>, p: Addr, nb: nat)
    requires HeapTags(m, segs, top, topsize, chunks) && p in chunks && p in m && nb % 8 == 0 && 0 < nb < m[p].data.size
    ensures p + nb in m && p + m[p].data.size in m && p + nb !in chunks
  {
    hide HeapTags, Tags;
    var i := Located(m, segs, top, topsize, chunks, p);
    InsideChunk(m, segs[i].base, Stop(segs, top, i), Room(topsize, i), Part(chunks, segs[i]), p, nb);
    PartHas(chunks, segs[i], p + nb);
  }

  lemma Divided(m: Heap, m': Heap, segs: seq<Segment>, chunks: set<Addr>, chunks': set<Addr>,
                rest: map<Addr, nat>, part: map<Addr, nat>, p: Addr, n: nat, r: Addr, k: nat)
    requires p !in Records(segs) && r !in Records(segs)
    requires Allocated(m, chunks) == rest + part && Allocated(m', chunks') == rest + part[p := n][r := k]
    ensures Used(m', segs, chunks') == Used(m, segs, chunks)[p := n][r := k]
  {
    hide Allocated, Records;
  }

  /** A chunk in use before the top chunk grows into it. */
  lemma GrowUsed(m: Heap, segs: seq<Segment>, top: Addr, topsize: nat, chunks: set<Addr>, p: Addr, nb: nat)
    requires HeapTags(m, segs, top, topsize, chunks) && p in Used(m, segs, chunks) && p in m
    requires p + m[p].data.size == top
    requires nb % 8 == 0 && m[p].data.size < nb < m[p].data.size + topsize
    ensures p + nb in m && p + nb !in chunks
    ensures var newtopsize := m[p].data.size + topsize - nb; var m' := GrowTop(m, p, nb, newtopsize);
      && HeapTags(m', segs, p + nb, newtopsize, chunks)
      && Used(m', segs, chunks) == Used(m, segs, chunks)[p := nb] && FreeChunks(m', chunks) == FreeChunks(m, chunks)
  {
    hide HeapTags, Tags, Allocated, FreeChunks, GrowTop, Part, Rest, Records;
    var i := UsedLocated(m, segs, top, topsize, chunks, p);
    TopSegment(m, segs, top, topsize, chunks);
    var part, newtopsize := Part(chunks, segs[0]), m[p].data.size + topsize - nb;
    GrownIntoTop(m, segs[0].base, top, topsize, part, p, nb);
    GrowTopEffects(m, p, nb, newtopsize);
    PartsOf(m, chunks, segs[0]);
    PartIn(chunks, segs[0]);
    PartHas(chunks, segs[0], p + nb);
    Lifted(m, GrowTop(m, p, nb, newtopsize), segs, top, topsize, chunks, 0, p + nb, newtopsize, part, chunks);
  }

  /** A chunk in use takes in the free chunk behind it. */
  lemma AbsorbUsed(m: Heap, segs: seq<Segment>, top: Addr, topsize: nat, chunks: set<Addr>, p: Addr)
    requires HeapTags(m, segs, top, topsize, chunks) && p in Used(m, segs, chunks) && p in m
    requires p + m[p].data.size in FreeChunks(m, chunks)
    ensures var next := p + m[p].data.size;
      && next in m && next + m[next].data.size in m
      && var m' := SetInuse(m, p, m[p].data.size + m[next].data.size);
      && HeapTags(m', segs, top, topsize, chunks - {next})
      && Used(m', segs, chunks - {next}) == Used(m, segs, chunks)[p := m[p].data.size + m[next].data.size]
      && FreeChunks(m', chunks - {next}) == FreeChunks(m, chunks) - {next}
  {
    hide HeapTags, Tags, Allocated, FreeChunks, SetInuse, Part, Rest, Records;
    var i := UsedLocated(m, segs, top, topsize, chunks, p);
    var part, next := Part(chunks, segs[i]), p + m[p].data.size;
    FreeInPart(m, chunks, segs[i], next);
    Absorbed(m, segs[i].base, Stop(segs, top, i), Room(topsize, i), part, p);
    AbsorbedInside(m, segs[i], Stop(segs, top, i), Room(topsize, i), part, p);
    SetInuseEffects(m, p, m[p].data.size + m[next].data.size);
    PartsOf(m, chunks, segs[i]);
    PartIn(chunks, segs[i]);
    RestLacks(chunks, segs[i], {next});
    Lifted(m, SetInuse(m, p, m[p].data.size + m[next].data.size), segs, top, topsize, chunks, i, top, topsize,
           part - {next}, chunks - {next});
  }

  lemma FreeInPart(m: Heap, chunks: set<Addr>, s: Segment, p: Addr)
    requires InSegment(s, p) && p in FreeChunks(m, chunks)
    ensures p in FreeChunks(m, Part(chunks, s)) && p in m && p in Part(chunks, s)
  {
  }

  lemma AbsorbedInside(m: Heap, s: Segment, stop: Addr, room: nat, part: set<Addr>, p: Addr)
    requires Tags(m, s.base, stop, room, part) && p in part && p in m && stop < EndOf(s)
    requires p + m[p].data.size in part && p + m[p].data.size in m
    ensures var next := p + m[p].data.size; InSegment(s, next) && InSegment(s, next + m[next].data.size) && p < next
  {
    hide Tags;
    AllBelow(m, s.base, stop, room, part);
    BoundsOfTags(m, s.base, stop, room, part);
  }

  lemma SetInuseEffects(m: Heap, p: Addr, s: nat)
    requires p in m && p + s in m && 0 < s
    ensures var m' := SetInuse(m, p, s);
      && m'.Keys == m.Keys && (forall q :: q in m && q != p && q != p + s ==> m'[q] == m[q])
      && m'[p].data == m[p].data.(size := s, cinuse := true) && m'[p + s].data == m[p + s].data.(pinuse := true)
  {
  }
}
