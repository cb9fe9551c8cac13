/** What the tags of the whole heap say of single chunks and of their neighbours. */
module HeapFacts {
  import opened Rings
  import opened TreeIndex
  import opened SizeTrie
  import opened TreeBins
  import opened BoundaryTags
  import opened Segments

  /** All segments lie at or above the address bound. */
  ghost predicate Above(segs: seq<Segment>, bound: Addr) {
    forall i :: 0 <= i < |segs| ==> bound <= segs[i].base
  }

  /** The tags stay when the headers do. */
  lemma HeapFrame(m: Heap, m': Heap, segs: seq<Segment>, top: Addr, topsize: nat, chunks: set<Addr>)
    requires HeapTags(m, segs, top, topsize, chunks) && SameHeaders(m, m')
    ensures HeapTags(m', segs, top, topsize, chunks)
    ensures Used(m', segs, chunks) == Used(m, segs, chunks) && FreeChunks(m', chunks) == FreeChunks(m, chunks)
  {
    HeadersKeys(m, m');
    SameMaps(m, m', chunks);
    hide Tags, SegmentsApart, SameHeaders, Allocated, Placed, Part;
    forall i | 0 <= i < |segs|
      ensures SegmentTags(m', segs, top, topsize, chunks, i) && (i > 0 ==> Recorded(m', chunks, segs[i]))
    {
      SegmentFrame(m, m', segs, top, topsize, chunks, i);
    }
  }

  lemma SameMaps(m: Heap, m': Heap, chunks: set<Addr>)
    requires SameHeaders(m, m')
    ensures Allocated(m', chunks) == Allocated(m, chunks) && FreeChunks(m', chunks) == FreeChunks(m, chunks)
  {
  }

  lemma SegmentFrame(m: Heap, m': Heap, segs: seq<Segment>, top: Addr, topsize: nat, chunks: set<Addr>, i: nat)
    requires HeapTags(m, segs, top, topsize, chunks) && SameHeaders(m, m') && i < |segs|
    ensures SegmentTags(m', segs, top, topsize, chunks, i) && (i > 0 ==> Recorded(m', chunks, segs[i]))
  {
    hide Tags, SegmentsApart, SameHeaders, Allocated, Placed, Part;
    assert SegmentTags(m, segs, top, topsize, chunks, i);
    HeadersKeys(m, m');
    TagsFrame(m, m', segs[i].base, Stop(segs, top, i), Room(topsize, i), Part(chunks, segs[i]));
  }

  lemma AboveAt(m: Heap, segs: seq<Segment>, top: Addr, topsize: nat, chunks: set<Addr>, bound: Addr, p: Addr)
    requires HeapTags(m, segs, top, topsize, chunks) && Above(segs, bound) && p in chunks
    ensures bound <= p && 0 < p && p in m && p % 8 == 0 && m[p].data.size % 8 == 0
    ensures MIN_CHUNK_SIZE <= m[p].data.size < WORD
  {
    hide HeapTags, Tags, ChunkTags;
    var i := Located(m, segs, top, topsize, chunks, p);
    ChunkOfPart(m, segs[i].base, Stop(segs, top, i), Room(topsize, i), Part(chunks, segs[i]), p);
  }

  lemma ChunkOfPart(m: Heap, base: Addr, top: Addr, topsize: nat, part: set<Addr>, p: Addr)
    requires Tags(m, base, top, topsize, part) && p in part
    ensures ChunkTags(m, top, part, p) && 0 < base <= p && top + topsize <= WORD
    ensures p in m && p % 8 == 0 && m[p].data.size % 8 == 0 && MIN_CHUNK_SIZE <= m[p].data.size < WORD
  {
    hide ChunkTags, Bounds;
    BoundsFacts(m, base, top, topsize);
    ChunkFacts(m, top, part, p);
  }

  lemma FreeIsSized(m: Heap, segs: seq<Segment>, top: Addr, topsize: nat, chunks: set<Addr>, p: Addr, bound: Addr)
    requires HeapTags(m, segs, top, topsize, chunks) && Above(segs, bound) && p in FreeChunks(m, chunks)
    ensures p in m && bound <= p && m[p].data.size % 8 == 0 && MIN_CHUNK_SIZE <= m[p].data.size < WORD && 0 < p
    ensures p % 8 == 0
  {
    hide HeapTags;
    AboveAt(m, segs, top, topsize, chunks, bound, p);
  }

  lemma LeftmostIsFree(m: Heap, segs: seq<Segment>, top: Addr, topsize: nat, chunks: set<Addr>, p: Addr, lo: Addr,
                       bound: Addr)
    requires HeapTags(m, segs, top, topsize, chunks) && Above(segs, bound) && Leftmost(m, chunks, p, lo) && p in chunks
    ensures lo == p || (lo in FreeChunks(m, chunks) && lo < p)
    ensures lo in m && bound <= lo && 0 < lo
  {
    LeftmostFacts(m, chunks, p, lo);
    hide HeapTags;
    AboveAt(m, segs, top, topsize, chunks, bound, lo);
  }

  /** What the tags say of a chunk in use and the next one. */
  lemma UsedFacts(m: Heap, segs: seq<Segment>, top: Addr, topsize: nat, chunks: set<Addr>, bound: Addr, p: Addr)
    requires HeapTags(m, segs, top, topsize, chunks) && Above(segs, bound) && p in Used(m, segs, chunks)
    ensures p in chunks && p in m && m[p].data.cinuse && Used(m, segs, chunks)[p] == m[p].data.size
    ensures p !in FreeChunks(m, chunks)
    ensures m[p].data.size % 8 == 0 && MIN_CHUNK_SIZE <= m[p].data.size && bound <= p && 0 < p && p % 8 == 0
    ensures var next := p + m[p].data.size;
      && next in m && m[next].data.pinuse
      && (next != top ==> next in chunks && (!m[next].data.cinuse <==> next in FreeChunks(m, chunks)))
  {
    hide HeapTags, Tags, ChunkTags, Part;
    AboveAt(m, segs, top, topsize, chunks, bound, p);
    var i := UsedLocated(m, segs, top, topsize, chunks, p);
    var part, stop := Part(chunks, segs[i]), Stop(segs, top, i);
    ChunkOfPart(m, segs[i].base, stop, Room(topsize, i), part, p);
    ChunkFacts(m, stop, part, p);
    RestIn(chunks, segs[i]);
  }

  /** The chunk before p is free: its size is found in front of p. */
  lemma PreviousUsed(m: Heap, segs: seq<Segment>, top: Addr, topsize: nat, chunks: set<Addr>, p: Addr)
    requires HeapTags(m, segs, top, topsize, chunks) && p in Used(m, segs, chunks) && p in m && !m[p].data.pinuse
    ensures m[p].data.prevFoot < p
    ensures var lo := p - m[p].data.prevFoot;
      && lo in FreeChunks(m, chunks) && lo in m && m[lo].data.size == m[p].data.prevFoot && Leftmost(m, chunks, p, lo)
      && lo < p
  {
    hide HeapTags, Tags, Part;
    var i := UsedLocated(m, segs, top, topsize, chunks, p);
    var part := Part(chunks, segs[i]);
    PreviousFree(m, segs[i].base, Stop(segs, top, i), Room(topsize, i), part, p);
    ChunkOfPart(m, segs[i].base, Stop(segs, top, i), Room(topsize, i), part, p - m[p].data.prevFoot);
    RestIn(chunks, segs[i]);
  }

  lemma FreeIsChunk(m: Heap, chunks: set<Addr>)
    ensures FreeChunks(m, chunks) <= chunks
  {
  }

  lemma LeftmostSelf(m: Heap, chunks: set<Addr>, p: Addr)
    requires p in m
    ensures m[p].data.pinuse ==> Leftmost(m, chunks, p, p)
  {
  }

  lemma UsedIsChunk(m: Heap, segs: seq<Segment>, chunks: set<Addr>)
    ensures Used(m, segs, chunks).Keys <= chunks
  {
  }

  /** The memory after chunk p grows into the front of the free chunk behind it. */
  function SplitVictim(m: Heap, p: Addr, nb: nat, dsize: nat): Heap
    requires p in m && p + nb in m && p + nb + dsize in m
  {
    SetPinuse(SetSizeAndPinuseOfFreeChunk(SetInuse(m, p, nb), p + nb, dsize), p + nb + dsize, false)
  }

  lemma VictimByParts(m: Heap, p: Addr, nb: nat, dsize: nat)
    requires p in m && p + nb in m && p + nb + dsize in m && 0 < nb && 0 < dsize
    ensures var m1 := SetInuse(m, p, nb + dsize);
      && p in m1 && p + nb in m1 && p + nb + dsize in m1
      && var m2 := SplitInuse(m1, p, nb, dsize);
      && p + nb in m2 && p + nb + dsize in m2
      && FreedRegion(m2, p + nb, p + nb + dsize, false) == SplitVictim(m, p, nb, dsize)
  {
    var m2 := FreedRegion(SplitInuse(SetInuse(m, p, nb + dsize), p, nb, dsize), p + nb, p + nb + dsize, false);
    var m3 := SplitVictim(m, p, nb, dsize);
    assert m2.Keys == m3.Keys;
    assert forall q :: q in m2 ==> m2[q] == m3[q];
  }

  lemma Neighbour(m: Heap, segs: seq<Segment>, top: Addr, topsize: nat, chunks: set<Addr>, p: Addr, r: Addr)
    requires HeapTags(m, segs, top, topsize, chunks) && p in Used(m, segs, chunks) && p in m && p <= r
    requires (r - p) % 8 == 0
    requires p + m[p].data.size in FreeChunks(m, chunks) && p + m[p].data.size in m
    requires p + m[p].data.size < r < p + m[p].data.size + m[p + m[p].data.size].data.size
    ensures var next := p + m[p].data.size; var hi := next + m[next].data.size;
      && hi in m && hi in chunks && m[hi].data.cinuse && hi != top && hi != next && p != next
      && r in m && r !in chunks && r != 0 && r % 8 == 0 && p % 8 == 0 && m[p].data.size % 8 == 0
      && m[next].data.size % 8 == 0
  {
    hide HeapTags, Tags, Part, ChunkTags;
    var next := p + m[p].data.size;
    var i := FreeLocated(m, segs, top, topsize, chunks, next);
    var j := UsedLocated(m, segs, top, topsize, chunks, p);
    TopLocated(m, segs, top, topsize, chunks, 0);
    var part, stop := Part(chunks, segs[i]), Stop(segs, top, i);
    ChunkOfPart(m, segs[i].base, stop, Room(topsize, i), part, next);
    ChunkFacts(m, stop, part, next);
    ChunkOfPart(m, segs[j].base, Stop(segs, top, j), Room(topsize, j), Part(chunks, segs[j]), p);
    Inside(m, segs[i].base, stop, Room(topsize, i), part, next, r);
    RestIn(chunks, segs[i]);
    PartHas(chunks, segs[i], r);
  }

  /** A chunk in use grows into the front of the free chunk behind it: that is as if it took in all
      of that chunk, was divided, and the rest was freed. */
  lemma VictimSplit(m: Heap, segs: seq<Segment>, top: Addr, topsize: nat, chunks: set<Addr>, p: Addr, nb: nat)
    requires HeapTags(m, segs, top, topsize, chunks) && p in Used(m, segs, chunks) && p in m && nb % 8 == 0
    requires p + m[p].data.size in FreeChunks(m, chunks) && p + m[p].data.size in m
    requires m[p].data.size < nb && nb + MIN_CHUNK_SIZE <= m[p].data.size + m[p + m[p].data.size].data.size
    ensures var next := p + m[p].data.size; var r := p + nb; var dsize := next + m[next].data.size - r;
      && r in m && r + dsize in m && r !in chunks && r != 0
      && var m' := SplitVictim(m, p, nb, dsize); var chunks' := chunks - {next} + {r};
      && HeapTags(m', segs, top, topsize, chunks') && r in m' && m'[r].data.size == dsize
      && Used(m', segs, chunks') == Used(m, segs, chunks)[p := nb]
      && FreeChunks(m', chunks') == FreeChunks(m, chunks) - {next} + {r}
  {
    hide HeapTags, Used, FreeChunks, SplitInuse, SplitVictim, SetInuse, FreedRegion;
    var next, r := p + m[p].data.size, p + nb;
    Neighbour(m, segs, top, topsize, chunks, p, r);
    var total := m[p].data.size + m[next].data.size;
    var dsize := total - nb;
    AbsorbUsed(m, segs, top, topsize, chunks, p);
    var m1, chunks1 := SetInuse(m, p, total), chunks - {next};
    SetInuseEffects(m, p, total);
    DivideUsed(m1, segs, top, topsize, chunks1, p, nb);
    SplitInuseEffects(m1, p, nb, dsize);
    var m2, chunks2 := SplitInuse(m1, p, nb, dsize), chunks1 + {r};
    LeftmostSelf(m2, chunks2, r);
    FreeUsed(m2, segs, top, topsize, chunks2, r, r, r + dsize, false);
    assert Merged(r, r, r + dsize, false) == {};
    FreedEffects(m2, r, r + dsize, false);
    VictimByParts(m, p, nb, dsize);
    UsedIsChunk(m, segs, chunks);
    assert chunks2 - {} == chunks2;
    assert Used(m, segs, chunks)[p := total][p := nb][r := dsize] - {r} == Used(m, segs, chunks)[p := nb];
  }

  /** Does address a lie in chunk p? */
  ghost predicate Holds(m: Heap, p: Addr, a: Addr) {
    p in m && p <= a < p + m[p].data.size
  }

  /** The chunks tile every segment: each address from its base to the end of its chunks lies in exactly
      one chunk. */
  lemma Tiled(m: Heap, segs: seq<Segment>, top: Addr, topsize: nat, chunks: set<Addr>, i: nat, a: Addr)
    requires HeapTags(m, segs, top, topsize, chunks) && i < |segs| && segs[i].base <= a < Stop(segs, top, i)
    ensures exists p :: p in chunks && Holds(m, p, a)
    ensures forall p, q :: p in chunks && q in chunks && Holds(m, p, a) && Holds(m, q, a) ==> p == q
  {
    hide HeapTags, Tags;
    SegmentAt(m, segs, top, topsize, chunks, i);
    var part, stop := Part(chunks, segs[i]), Stop(segs, top, i);
    var p := Covering(m, segs[i].base, stop, Room(topsize, i), part, a, segs[i].base);
    RestIn(chunks, segs[i]);
    forall q | q in chunks && q in m && q <= a < q + m[q].data.size ensures q == p {
      var j := Located(m, segs, top, topsize, chunks, q);
      if i == j {
        AllBelow(m, segs[i].base, stop, Room(topsize, i), part);
      } else {
        SegmentsDiffer(m, segs, top, topsize, chunks, i, j);
      }
    }
  }

  lemma SegmentAt(m: Heap, segs: seq<Segment>, top: Addr, topsize: nat, chunks: set<Addr>, i: nat)
    requires HeapTags(m, segs, top, topsize, chunks) && i < |segs|
    ensures Tags(m, segs[i].base, Stop(segs, top, i), Room(topsize, i), Part(chunks, segs[i]))
    ensures Stop(segs, top, i) < EndOf(segs[i])
    ensures segs[i].base in Part(chunks, segs[i]) || segs[i].base == Stop(segs, top, i)
  {
    assert SegmentTags(m, segs, top, topsize, chunks, i);
  }

  lemma SegmentsDiffer(m: Heap, segs: seq<Segment>, top: Addr, topsize: nat, chunks: set<Addr>, i: nat, j: nat)
    requires HeapTags(m, segs, top, topsize, chunks) && i < |segs| && j < |segs| && i != j
    ensures EndOf(segs[i]) <= segs[j].base || EndOf(segs[j]) <= segs[i].base
  {
    ApartOf(segs, i, j);
  }

  lemma Covering(m: Heap, base: Addr, top: Addr, topsize: nat, chunks: set<Addr>, a: Addr, from: Addr) returns (p: Addr)
    requires Tags(m, base, top, topsize, chunks) && from <= a < top && (from in chunks || from == top)
    ensures p in chunks && p in m && p <= a < p + m[p].data.size
    decreases a - from
  {
    hide Bounds, Apart, ChunkTags;
    ChunkFacts(m, top, chunks, from);
    if a < from + m[from].data.size {
      p := from;
    } else {
      p := Covering(m, base, top, topsize, chunks, a, from + m[from].data.size);
    }
  }

  /** No two free chunks are neighbours, and none borders on the top chunk. */
  lemma FreeApart(m: Heap, segs: seq<Segment>, top: Addr, topsize: nat, chunks: set<Addr>, p: Addr)
    requires HeapTags(m, segs, top, topsize, chunks) && p in FreeChunks(m, chunks)
    ensures p in m && p + m[p].data.size in chunks && p + m[p].data.size !in FreeChunks(m, chunks)
    ensures p + m[p].data.size != top
    ensures p + m[p].data.size in m && !m[p + m[p].data.size].data.pinuse
    ensures (exists s :: s in segs && s.base == p)
      || exists q :: q in chunks && q in m && q + m[q].data.size == p && m[q].data.cinuse
  {
    hide HeapTags, Tags, Part;
    var i := FreeLocated(m, segs, top, topsize, chunks, p);
    var part, base, stop := Part(chunks, segs[i]), segs[i].base, Stop(segs, top, i);
    ChunkOfPart(m, base, stop, Room(topsize, i), part, p);
    ChunkFacts(m, stop, part, p);
    RestIn(chunks, segs[i]);
    TopLocated(m, segs, top, topsize, chunks, 0);
    if p != base {
      SegmentAt(m, segs, top, topsize, chunks, i);
      var q := Predecessor(m, base, stop, Room(topsize, i), part, p, base);
      ChunkOfPart(m, base, stop, Room(topsize, i), part, q);
      ChunkFacts(m, stop, part, q);
    }
  }
}
