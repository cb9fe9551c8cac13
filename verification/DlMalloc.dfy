/** The allocator: bins, designated victim and top chunk over the segments of the heap. */
module DlMalloc {
  import opened Options
  import opened Rings
  import opened Powers
  import opened BinBits
  import opened TreeIndex
  import opened SizeTrie
  import opened TreeBins
  import opened SmallBins
  import opened BoundaryTags
  import opened Segments
  import opened HeapGrowth
  import opened HeapFacts
  import opened ChunkContents
  import opened FreeChunkLists
  import opened SystemMemory

  /** The designated victim as a set. */
  ghost function Victims(dv: Addr): set<Addr> {
    if dv == 0 then {} else {dv}
  }

  /** Freeing a chunk in use that no bin knows of: the region becomes one free chunk, the bins stay. */
  lemma FreedFiled(m: Heap, heads: Addr, b: Lists, s: Shapes, filed: set<Addr>,
                   segs: seq<Segment>, top: Addr, topsize: nat, chunks: set<Addr>, p: Addr, lo: Addr)
    requires HeapTags(m, segs, top, topsize, chunks) && p in Used(m, segs, chunks) && p in m
    requires Leftmost(m, chunks, p, lo)
    requires p + m[p].data.size != top && Above(segs, heads + 0x100)
    requires Filed(m, heads, b, s, filed) && lo !in filed && filed <= FreeChunks(m, chunks)
    ensures var next := p + m[p].data.size;
      && next in chunks && next in m && lo in m && FreedEnd(m, next) in m && lo < FreedEnd(m, next)
      && var merge := !m[next].data.cinuse;
      var m' := FreedRegion(m, lo, FreedEnd(m, next), merge); var chunks' := chunks - Merged(p, lo, next, merge);
      && HeapTags(m', segs, top, topsize, chunks') && Filed(m', heads, b, s, filed)
      && LinksKept(m, m', {lo}) && lo in m' && m'[lo].data.size == FreedEnd(m, next) - lo
      && Used(m', segs, chunks') == Used(m, segs, chunks) - {p}
      && FreeChunks(m', chunks') == FreeChunks(m, chunks) - Merged(p, lo, next, merge) + {lo}
  {
    hide Filed, HeapTags, FreedRegion, Used, FreeChunks, Leftmost, Merged, LinksKept, Separate;
    AroundUsed(m, segs, top, topsize, chunks, p, lo);
    UsedIsChunk(m, segs, chunks);
    var next := p + m[p].data.size;
    var hi, merge := FreedEnd(m, next), !m[next].data.cinuse;
    FreeUsed(m, segs, top, topsize, chunks, p, lo, hi, merge);
    LeftmostIsFree(m, segs, top, topsize, chunks, p, lo, heads + 0x100);
    RegionKept(m, lo, hi, merge);
    FreedEffects(m, lo, hi, merge);
    FiledFrame(m, FreedRegion(m, lo, hi, merge), heads, b, s, filed, {lo});
  }

  lemma RegionKept(m: Heap, lo: Addr, hi: Addr, merge: bool)
    requires lo in m && hi in m && lo < hi
    ensures LinksKept(m, FreedRegion(m, lo, hi, merge), {lo})
  {
  }

  const MIN_REQUEST := 11
  const MAX_SMALL_REQUEST := 244
  const MAX_REQUEST := 0xFFFF_FFC0
  const MAX_SIZE_T := 0xFFFF_FFFF
  const HALF_MAX_SIZE_T := 0x7FFF_FFFF
  const SYS_ALLOC_PADDING := 48
  const GRANULARITY := 0x100

  /** The first of a, 2 * a, 4 * a and so on that is at least the alignment. */
  function Rounded(alignment: nat, a: nat): nat
    decreases alignment - a
  {
    if a == 0 || alignment <= a then a else Rounded(alignment, 2 * a)
  }

  /** Left shift of a machine word by one. */
  function Double32(a: nat): (r: nat)
    ensures a <= 0x8000_0000 ==> r == if a < 0x8000_0000 then 2 * a else 0
  {
    2 * a % WORD
  }

  /** What 16 becomes after n doublings. */
  function DoubledWord(n: nat): nat {
    if n == 0 then MIN_CHUNK_SIZE else Double32(DoubledWord(n - 1))
  }

  /** Does doubling ever reach the alignment? */
  ghost predicate RoundingEnds(alignment: nat) {
    exists n :: Reaches(alignment, n)
  }

  ghost predicate Reaches(alignment: nat, n: nat) {
    alignment <= DoubledWord(n)
  }

  /** Doubling gives powers of two, and nothing but 0 from the 28th time on. */
  lemma {:induction false} DoubledWords(n: nat)
    ensures DoubledWord(n) == if n <= 27 then Pow2(n + 4) else 0
    ensures DoubledWord(n) <= 0x8000_0000
  {
    hide Double32;
    Pow2Values();
    assert Pow2(31) == 2 * Pow2(30);
    if n > 0 {
      DoubledWords(n - 1);
      if n <= 27 {
        assert Pow2(n + 4) == 2 * Pow2(n + 3);
        hide Pow2;
        Pow2Mono(n + 3, 30);
      }
    }
  }

  /** Rounding an alignment ends if and only if that is at most 2^31. */
  lemma RoundingEndsUpTo(alignment: nat)
    ensures RoundingEnds(alignment) <==> alignment <= 0x8000_0000
  {
    if alignment <= 0x8000_0000 {
      Pow2Values();
      DoubledWords(27);
      assert Reaches(alignment, 27);
    } else {
      forall n ensures !Reaches(alignment, n) {
        DoubledWords(n);
      }
    }
  }

  /** The request for a chunk in which there is an aligned place. */
  function AlignedRequest(bytes: nat, a: nat): nat {
    RequestToSize(bytes) + a + MIN_CHUNK_SIZE - 4
  }

  /** How many bytes of a chunk in use there are for its user. */
  function Payload(size: nat): nat {
    if size < 4 then 0 else size - 4
  }

  function PadRequest(bytes: nat): nat {
    (bytes + 11) / 8 * 8
  }

  /** The size of the chunk for a request. */
  function RequestToSize(bytes: nat): (nb: nat)
    ensures nb % 8 == 0 && bytes + 4 <= nb && MIN_CHUNK_SIZE <= nb
    ensures nb < bytes + 12 || nb == MIN_CHUNK_SIZE
  {
    if bytes < MIN_REQUEST then MIN_CHUNK_SIZE else PadRequest(bytes)
  }

  /** Rounds up to the next multiple of the granularity, in machine words. */
  function GranularityAlign(s: nat): (r: nat)
    ensures r % GRANULARITY == 0 && r < WORD && (s + 0xFF < WORD ==> s <= r < s + GRANULARITY)
  {
    (s + 0xFF) % WORD / GRANULARITY * GRANULARITY
  }

  /** How much memory the system is asked for: enough for the request, or nothing when the sum wraps. */
  lemma Growth(nb: nat, topsize: nat)
    requires topsize <= nb <= MAX_SIZE_T && 0 < topsize
    ensures var asize := GranularityAlign(nb + SYS_ALLOC_PADDING);
      var ssize := GranularityAlign(nb - topsize + SYS_ALLOC_PADDING);
      && (asize > nb ==> nb < MAX_REQUEST && ssize % 8 == 0 && 0 < ssize && nb < topsize + ssize)
      && (nb < 0x7FFF_0000 ==> nb < asize && ssize < HALF_MAX_SIZE_T)
  {
    hide GranularityAlign;
    GranularityWraps(nb + SYS_ALLOC_PADDING);
  }

  /** What rounding up makes of sums that do not fit into a machine word any more. */
  lemma GranularityWraps(s: nat)
    requires s <= MAX_SIZE_T + SYS_ALLOC_PADDING
    ensures s + 0xFF >= WORD ==> GranularityAlign(s) < 0x200
  {
  }

  /** The size that stands for too large requests wraps around. */
  lemma TooLarge()
    ensures GranularityAlign(MAX_SIZE_T + SYS_ALLOC_PADDING) <= MAX_SIZE_T
  {
  }

  /** How much memory is asked for to continue the heap, and how much more when that leads elsewhere. */
  function ContinuedSize(nb: nat, topsize: nat): nat
    requires topsize <= nb
  {
    GranularityAlign(nb - topsize + SYS_ALLOC_PADDING)
  }

  function SecondSize(nb: nat, ssize: nat): nat {
    if ssize < nb + SYS_ALLOC_PADDING then GranularityAlign(nb + SYS_ALLOC_PADDING - ssize) else 0
  }

  /** How much memory is asked for anywhere. */
  function AnywhereSize(nb: nat): nat {
    GranularityAlign(nb + SYS_ALLOC_PADDING)
  }

  /** What is asked for a second time makes up for what was too little the first time. */
  lemma SecondGrowth(nb: nat, topsize: nat)
    requires topsize <= nb < AnywhereSize(nb) && nb <= MAX_SIZE_T && 0 < topsize
    ensures var ssize := ContinuedSize(nb, topsize); var esize := SecondSize(nb, ssize);
      && nb + SYS_ALLOC_PADDING <= ssize + esize && ssize <= AnywhereSize(nb) && esize <= AnywhereSize(nb)
      && ssize % 8 == 0 && esize % 8 == 0 && AnywhereSize(nb) % 8 == 0 && 0 < ssize
      && nb < MAX_REQUEST && nb + SYS_ALLOC_PADDING <= AnywhereSize(nb) && nb < topsize + ssize
      && esize < topsize + GRANULARITY
  {
    var ssize := ContinuedSize(nb, topsize);
    GranularOfEight(nb - topsize + SYS_ALLOC_PADDING);
    GranularOfEight(nb + SYS_ALLOC_PADDING);
    if ssize < nb + SYS_ALLOC_PADDING {
      GranularOfEight(nb + SYS_ALLOC_PADDING - ssize);
    }
    hide GranularityAlign;
    GranularityWraps(nb + SYS_ALLOC_PADDING);
    GranularGrows(nb - topsize + SYS_ALLOC_PADDING, nb + SYS_ALLOC_PADDING);
    if ssize < nb + SYS_ALLOC_PADDING {
      GranularGrows(nb + SYS_ALLOC_PADDING - ssize, nb + SYS_ALLOC_PADDING);
    }
  }

  lemma GranularOfEight(s: nat)
    ensures GranularityAlign(s) % 8 == 0
  {
  }

  lemma GranularGrows(s: nat, t: nat)
    requires s <= t && t + 0xFF < WORD
    ensures GranularityAlign(s) <= GranularityAlign(t)
  {
  }

  /** It is not asked for when it is too much: with 2 GiB in the top chunk, 256 bytes are taken for enough. */
  lemma SecondTooLarge()
    ensures ContinuedSize(0x8000_0000, 0x8000_0000) == 0x100 && SecondSize(0x8000_0000, 0x100) >= HALF_MAX_SIZE_T
  {
  }

  lemma GrownTopKept(m: Heap, space: Heap, top: Addr, topsize: nat, more: nat)
    requires top in m && top + topsize + more in space + m
    ensures LinksKept(m, GrownTop(m, space, top, topsize, more), {top, top + topsize + more})
  {
  }

  lemma NewChunkKept(m: Heap, space: Heap, p: Addr, size: nat)
    requires p in space
    ensures LinksKept(m, NewChunk(m, space, p, size), {p})
  {
  }

  lemma GrantedAt(m: Heap, base: Addr, size: nat, a: Addr)
    requires Granted(m, base, size) && base <= a < base + size && a % 8 == 0
    ensures a in m
  {
  }

  lemma NewTopInMemory(m: Heap, segs: seq<Segment>, top: Addr, topsize: nat, chunks: set<Addr>, space: Heap, more: nat)
    requires HeapTags(m, segs, top, topsize, chunks) && more % 8 == 0 && Granted(space, EndOf(segs[0]), more)
    ensures top in m && top + topsize + more in space + m
  {
    hide Tags, Granted;
    TopSegment(m, segs, top, topsize, chunks);
    EighthsOfSum(top, topsize);
    EighthsOfSum(top + topsize, more);
    if more < TOP_FOOT_SIZE {
      GrantedAt(m, segs[0].base, segs[0].size, top + topsize + more);
    } else {
      GrantedAt(space, EndOf(segs[0]), more, top + topsize + more);
    }
  }

  lemma AboveGrown(segs: seq<Segment>, i: nat, s: Segment, bound: Addr)
    requires Above(segs, bound) && i < |segs| && (bound <= s.base || s.base == segs[i].base)
    ensures Above(segs[i := s], bound)
  {
  }

  lemma AboveAdded(segs: seq<Segment>, base: Addr, size: nat, sp: Addr, bound: Addr)
    requires Above(segs, bound) && 0 < |segs| && bound <= base
    ensures Above(WithSegment(segs, base, size, sp), bound)
  {
    var segs' := WithSegment(segs, base, size, sp);
    assert forall i :: 2 <= i < |segs'| ==> segs'[i] == segs[i - 1];
  }

  lemma BaseGranted(space: Heap, base: Addr, size: nat)
    requires Granted(space, base, size) && base % 8 == 0 && 0 < size
    ensures base in space
  {
  }

  lemma FirstInMemory(space: Heap, base: Addr, size: nat)
    requires Granted(space, base, size) && base % 8 == 0 && size % 8 == 0 && TOP_FOOT_SIZE < size
    ensures base in space && base + size - TOP_FOOT_SIZE in space
  {
    assert (base + size - TOP_FOOT_SIZE) % 8 == 0;
  }

  lemma ApartFromTop(m: Heap, segs: seq<Segment>, top: Addr, topsize: nat, chunks: set<Addr>, base: Addr, size: nat)
    requires HeapTags(m, segs, top, topsize, chunks) && Unused(segs, base, size)
    ensures base + size <= top || top + topsize + TOP_FOOT_SIZE <= base
    ensures Granted(m, top, topsize + TOP_FOOT_SIZE) && top in m && m[top].data.pinuse
  {
    hide Tags;
    TopSegment(m, segs, top, topsize, chunks);
  }

  /** A new segment does not change the old top chunk. */
  lemma TopKeptIn(m: Heap, m': Heap, segs: seq<Segment>, top: Addr, topsize: nat, chunks: set<Addr>, base: Addr,
                  size: nat)
    requires HeapTags(m, segs, top, topsize, chunks) && Unused(segs, base, size)
    requires m.Keys <= m'.Keys && forall a :: a in m && !(base <= a < base + size) ==> m'[a] == m[a]
    ensures Granted(m', top, topsize + TOP_FOOT_SIZE) && top in m' && m'[top].data.pinuse
  {
    hide Tags;
    TopSegment(m, segs, top, topsize, chunks);
    ApartFromTop(m, segs, top, topsize, chunks, base, size);
    assert top in m && m'[top] == m[top];
  }

  /** Neither the new segment nor the old top chunk has chunks. */
  lemma NoneChanged(m: Heap, first: Heap, segs: seq<Segment>, top: Addr, topsize: nat, chunks: set<Addr>, base: Addr,
                    size: nat, bound: Addr)
    requires HeapTags(m, segs, top, topsize, chunks) && Unused(segs, base, size) && Above(segs, bound) && bound <= base
    ensures var changed := Stretch(first, base, base + size) + Stretch(first, top, top + topsize + TOP_FOOT_SIZE);
      (forall a :: a in changed ==> bound <= a && a !in chunks)
  {
    hide Tags, SegmentsApart, Recorded;
    TopSegment(m, segs, top, topsize, chunks);
    forall p | p in chunks ensures !(base <= p < base + size) && !(top <= p < top + topsize + TOP_FOOT_SIZE) {
      var i := Located(m, segs, top, topsize, chunks, p);
      if i > 0 {
        ApartOf(segs, 0, i);
      }
    }
  }

  /** The next multiple of a from x on. */
  function AlignUp(x: nat, a: nat): nat
    requires a > 0
  {
    (x + a - 1) / a * a
  }

  /** The first place in chunk p that is aligned and leaves room for a chunk in front. */
  function AlignedIn(p: Addr, a: nat): Addr
    requires a > 0
  {
    var br := AlignUp(p + 8, a) - 8;
    if br - p >= MIN_CHUNK_SIZE then br else br + a
  }

  /** Is x a multiple of a? */
  predicate Aligned(x: nat, a: nat)
    requires a > 0
  {
    x % a == 0
  }

  lemma AlignUpFacts(x: nat, a: nat)
    requires a % 16 == 0 && MIN_CHUNK_SIZE <= a
    ensures x <= AlignUp(x, a) < x + a && Aligned(AlignUp(x, a), a) && Aligned(AlignUp(x, a) + a, a)
    ensures AlignUp(x, a) % 8 == 0
  {
    var q := (x + a - 1) / a;
    Quotient(x + a - 1, a);
    MultipleOf(q, a);
    MultipleOf(q + 1, a);
    Distribute(q, a);
    MultipleOfEight(q, a);
  }

  lemma MultipleOfEight(q: nat, a: nat)
    requires a % 16 == 0
    ensures q * a % 8 == 0
  {
    Associate(q, a / 8, 8);
    MultipleOf(q * (a / 8), 8);
  }

  lemma AlignedAhead(p: Addr, a: nat)
    requires a % 16 == 0 && MIN_CHUNK_SIZE <= a && p % 8 == 0
    ensures var br := AlignedIn(p, a);
      p + MIN_CHUNK_SIZE <= br < p + a + MIN_CHUNK_SIZE && Aligned(br + 8, a) && (br - p) % 8 == 0
  {
    hide AlignUp, Aligned;
    AlignUpFacts(p + 8, a);
    Eights(p, AlignUp(p + 8, a), a);
  }

  lemma EightTimes(i: int)
    ensures 8 * i % 8 == 0
  {
  }

  lemma Eights(p: nat, u: nat, a: nat)
    requires p % 8 == 0 && u % 8 == 0 && a % 16 == 0
    ensures (u - 8 - p) % 8 == 0 && (u - 8 + a - p) % 8 == 0
  {
    var i, j, k := p / 8, u / 8, a / 16;
    assert p == 8 * i && u == 8 * j && a == 16 * k;
    EightTimes(j - 1 - i);
    EightTimes(j - 1 + 2 * k - i);
  }

  lemma Quotient(x: nat, a: nat)
    requires a > 0
    ensures x / a * a <= x < x / a * a + a
  {
    assert x == a * (x / a) + x % a;
  }

  lemma Distribute(q: nat, a: nat)
    ensures (q + 1) * a == q * a + a
  {
  }

  lemma MultipleOf(q: nat, a: nat)
    requires a > 0
    ensures q * a % a == 0
  {
    Distribute(q, a);
    DivOf(q * a, a, q);
    assert q * a == a * (q * a / a) + q * a % a;
  }

  /** Writes a new top chunk into new memory and closes the segment that the old one is in. */
  method NewTop(m: Heap, space: Heap, ghost segs: seq<Segment>, top: Addr, topsize: nat, ghost chunks: set<Addr>,
                base: Addr, size: nat, ghost bound: Addr) returns (m': Heap, sp: Addr, ghost changed: set<Addr>)
    requires HeapTags(m, segs, top, topsize, chunks) && Above(segs, bound) && bound <= base
    requires Unused(segs, base, size) && Granted(space, base, size)
    requires base % 8 == 0 && 0 < base && size % 8 == 0 && TOP_FOOT_SIZE < size && base + size <= WORD
    ensures HeapTags(m', WithSegment(segs, base, size, sp), base, size - TOP_FOOT_SIZE, chunks + ClosingChunks(top, sp))
    ensures Used(m', WithSegment(segs, base, size, sp), chunks + ClosingChunks(top, sp)) == Used(m, segs, chunks)
    ensures FreeChunks(m', chunks + ClosingChunks(top, sp)) == FreeChunks(m, chunks) + ClosingFree(top, sp)
    ensures sp != top ==> top in m' && m'[top].data.size == topsize
    ensures LinksKept(m, m', changed) && forall a :: a in changed ==> bound <= a && a !in chunks
    ensures var used' := Used(m', WithSegment(segs, base, size, sp), chunks + ClosingChunks(top, sp));
      Intact(m, Used(m, segs, chunks), m', used')
  {
    hide Intact, HeapTags, FreeChunks, Used, LinksKept, Granted, Above, Unused, FirstMemory, Closing, WithSegment,
         ClosingChunks;
    ApartFromTop(m, segs, top, topsize, chunks, base, size);
    TopSegment(m, segs, top, topsize, chunks);
    FirstInMemory(space, base, size);
    FirstKept(m, space, base, size);
    FirstLinks(m, space, base, size);
    m' := FirstMemory(space + m, base, size - TOP_FOOT_SIZE);
    ghost var first := m';
    TopKeptIn(m, first, segs, top, topsize, chunks, base, size);
    m', sp := CloseSegment(m', top, topsize);
    NewTopIntact(m, space, m', segs, top, topsize, chunks, bound, base, size, sp);
    SegmentAdded(m, space, m', segs, top, topsize, chunks, base, size, sp);
    ClosingFacts(first, m', top, topsize, sp);
    ghost var a, b := Stretch(first, base, base + size), Stretch(first, top, top + topsize + TOP_FOOT_SIZE);
    changed := a + b;
    LinksKeptTwice(m, first, m', a, b);
    NoneChanged(m, first, segs, top, topsize, chunks, base, size, bound);
  }

  lemma UnusedBoth(segs: seq<Segment>, p: Addr, s: nat, e: nat)
    requires Unused(segs, p, s) && Unused(segs, p + s, e) && forall i :: 0 <= i < |segs| ==> 0 < segs[i].size
    ensures Unused(segs, p, s + e)
  {
  }

  lemma EighthsOfSum(a: nat, b: nat)
    requires a % 8 == 0 && b % 8 == 0
    ensures (a + b) % 8 == 0
  {
  }

  /** What is ahead of the break b is in no segment, and the first segment is not larger than what is behind it.
      As long as memory comes from the first region, it continues that segment. */
  ghost predicate Held(regions: seq<Region>, b: Break, segs: seq<Segment>, contiguous: bool) {
    && BreakIn(regions, b) && Ahead(regions, b, segs)
    && 0 < |segs| && segs[0].size <= HandedOut(regions, b)
    && (contiguous && b.index == 0 ==> b.ptr == EndOf(segs[0]))
  }

  /** The first segment, from the front of region i. */
  lemma FirstBacked(regions: seq<Region>, ram: Heap, bound: Addr, i: nat, tsize: nat)
    requires Regions(regions, ram, bound) && i < |regions| && tsize % 8 == 0 && 0 < tsize
    requires regions[i].first + tsize <= regions[i].last
    ensures var base := regions[i].first; var b := Break(i, base + tsize); var segs := [Segment(base, tsize, 0)];
      && bound <= base && 0 < base && base % 8 == 0 && base + tsize < WORD && Granted(ram, base, tsize)
      && Held(regions, b, segs, true)
  {
    hide Granted;
    var base := regions[i].first;
    var b := Break(i, base + tsize);
    assert Usable(regions[i], ram, bound);
    GrantedWithin(ram, base, regions[i].last, base, tsize);
    forall j | i <= j < |regions|
      ensures Left(regions, b, j) > 0 ==> Unused([Segment(base, tsize, 0)], From(regions, b, j), Left(regions, b, j))
    {
      assert Usable(regions[j], ram, bound);
    }
  }

  lemma GrantedMore(ram: Heap, statics: Heap, base: Addr, size: nat)
    requires Granted(ram, base, size)
    ensures Granted(ram + statics, base, size)
  {
  }

  /** If any of the chunks free is large enough for nb bytes, then p is the smallest one that is. */
  ghost predicate BestFree(p: Addr, nb: nat, free: set<Addr>, m: Heap) {
    forall q :: q in free && q in m && nb <= m[q].data.size ==>
      p in free && p in m && nb <= m[p].data.size <= m[q].data.size
  }

  /** Chunk p is free, and fits nb bytes without a rest that could be a chunk. */
  ghost predicate WithoutRest(p: Addr, nb: nat, free: set<Addr>, m: Heap) {
    p in free && p in m && nb <= m[p].data.size < nb + MIN_CHUNK_SIZE
  }

  class Malloc {
    // The heads of the small bins lie in the static state, below the heap
    const heads: Addr
    // The regions of the board and what is in them; where the next memory comes from
    const regions: seq<Region>
    const ram: Heap
    var brk: Break
    // The segments, the one with the top chunk first
    var segs: seq<Segment>
    var contiguous: bool
    var mem: Heap
    var bins: Lists
    var dv: Addr
    var dvsize: nat
    var top: Addr
    var topsize: nat
    ghost var shapes: Shapes
    ghost var chunks: set<Addr>

    /** The chunks in use and their sizes. */
    ghost function InUse(): map<Addr, nat>
      reads this`mem, this`segs, this`chunks
    {
      Used(mem, segs, chunks)
    }

    /** The free chunks. */
    ghost function FreeSet(): set<Addr>
      reads this`mem, this`chunks
    {
      FreeChunks(mem, chunks)
    }

    ghost predicate Provided()
      reads this`brk, this`segs, this`contiguous
    {
      Regions(regions, ram, heads + 0x100) && Held(regions, brk, segs, contiguous)
    }

    ghost predicate Tagged()
      reads this`mem, this`segs, this`top, this`topsize, this`chunks, this`brk, this`contiguous
    {
      HeapTags(mem, segs, top, topsize, chunks) && Above(segs, heads + 0x100) && Provided()
    }

    /** The designated victim is a free chunk, and its size is known. */
    ghost predicate Victim()
      reads this`mem, this`chunks, this`dv, this`dvsize
    {
      if dv == 0 then dvsize == 0 else dv in FreeSet() && dv in mem && mem[dv].data.size == dvsize
    }

    /** The invariant, but that the free chunks of out are in no bin. */
    ghost predicate Holding(out: set<Addr>)
      reads this`mem, this`segs, this`bins, this`shapes, this`dv, this`dvsize, this`top, this`topsize, this`chunks,
            this`brk, this`contiguous
    {
      Tagged() && Victim() && Filed(mem, heads, bins, shapes, FreeSet() - Victims(dv) - out)
    }

    /** The chunks tile the heap, their tags are right, no two free chunks are neighbours, and every
        free chunk but the top chunk is the designated victim or in the one bin for its size. */
    ghost predicate Valid()
      reads this`mem, this`segs, this`bins, this`shapes, this`dv, this`dvsize, this`top, this`topsize, this`chunks,
            this`brk, this`contiguous
    {
      Holding({})
    }

    method UnlinkFree(p: Addr, size: nat, ghost out: set<Addr>)
      requires Holding(out) && p in FreeSet() && p != dv && p !in out && p in mem && mem[p].data.size == size
      modifies this`mem, this`bins, this`shapes
      ensures Holding(out + {p}) && InUse() == old(InUse()) && FreeSet() == old(FreeSet()) && SameHeaders(old(mem), mem)
      ensures Intact(old(mem), old(InUse()), mem, InUse())
    {
      hide Provided, Intact, Filed, HeapTags, SameHeaders, Used, FreeChunks, Above;
      ghost var before, filed := mem, FreeSet() - Victims(dv) - out;
      mem, bins, shapes := UnlinkChunk(mem, heads, bins, p, size, shapes, filed);
      LinksIntact(before, mem, segs, top, topsize, chunks, heads + 0x100);
      HeapFrame(before, mem, segs, top, topsize, chunks);
      HeadersKeys(before, mem);
      HeaderSizes(before, mem);
      assert filed - {p} == FreeSet() - Victims(dv) - (out + {p});
    }

    method FileFree(p: Addr, size: nat)
      requires Holding({p}) && p in FreeSet() && p != dv && p in mem && mem[p].data.size == size
      modifies this`mem, this`bins, this`shapes
      ensures Valid() && InUse() == old(InUse()) && FreeSet() == old(FreeSet()) && SameHeaders(old(mem), mem)
      ensures Intact(old(mem), old(InUse()), mem, InUse())
    {
      hide Provided, Intact, Filed, HeapTags, SameHeaders, Used, FreeChunks, Above;
      ghost var before, filed := mem, FreeSet() - Victims(dv) - {p};
      FreeIsSized(mem, segs, top, topsize, chunks, p, heads + 0x100);
      mem, bins, shapes := InsertChunk(mem, heads, bins, p, size, shapes, filed);
      LinksIntact(before, mem, segs, top, topsize, chunks, heads + 0x100);
      HeapFrame(before, mem, segs, top, topsize, chunks);
      HeadersKeys(before, mem);
      HeaderSizes(before, mem);
      assert filed + {p} == FreeSet() - Victims(dv) - {};
    }

    /** What the tags say of a chunk in use and the next one. */
    lemma InUseFacts(p: Addr)
      requires Tagged() && p in InUse()
      ensures p in chunks && p in mem && mem[p].data.cinuse && InUse()[p] == mem[p].data.size && p !in FreeSet()
      ensures mem[p].data.size % 8 == 0 && MIN_CHUNK_SIZE <= mem[p].data.size && heads + 0x100 <= p && 0 < p
      ensures p % 8 == 0
      ensures var next := p + mem[p].data.size;
        && next in mem && mem[next].data.pinuse
        && (next != top ==> next in chunks && (!mem[next].data.cinuse <==> next in FreeSet()))
      ensures top in mem && !mem[top].data.cinuse && top !in chunks && 0 < top
    {
      UsedFacts(mem, segs, top, topsize, chunks, heads + 0x100, p);
      TopSegment(mem, segs, top, topsize, chunks);
    }

    /** The chunk before p is free: its size is found in front of p. */
    lemma PreviousFacts(p: Addr)
      requires Tagged() && p in InUse() && p in mem && !mem[p].data.pinuse
      ensures mem[p].data.prevFoot < p
      ensures var lo := p - mem[p].data.prevFoot;
        && lo in FreeSet() && lo in mem && mem[lo].data.size == mem[p].data.prevFoot && Leftmost(mem, chunks, p, lo)
        && lo < p
    {
      PreviousUsed(mem, segs, top, topsize, chunks, p);
    }

    /** The free chunk before p when it has been taken from its bin. */
    ghost function Pending(p: Addr, lo: Addr): set<Addr>
      reads this`dv
    {
      if lo == p || lo == dv then {} else {lo}
    }

    /** The region from lo, that chunk p is the last chunk in use of, becomes one free chunk. */
    method MarkFree(p: Addr, lo: Addr, ghost filed: set<Addr>)
      requires Tagged() && p in InUse() && p in mem && Leftmost(mem, chunks, p, lo) && p + mem[p].data.size != top
      requires Filed(mem, heads, bins, shapes, filed) && lo !in filed && filed <= FreeSet()
      modifies this`mem, this`chunks
      ensures Tagged() && Filed(mem, heads, bins, shapes, filed) && InUse() == old(InUse()) - {p} && lo in FreeSet()
      ensures lo in mem
      ensures var next := p + old(mem)[p].data.size;
        && next in old(mem) && FreedEnd(old(mem), next) > lo && mem[lo].data.size == FreedEnd(old(mem), next) - lo
        && FreeSet() == old(FreeSet()) - Merged(p, lo, next, !old(mem)[next].data.cinuse) + {lo}
      ensures LinksKept(old(mem), mem, {lo})
      ensures Intact(old(mem), old(InUse()), mem, InUse())
    {
      hide Provided, Intact, Filed, HeapTags, FreeChunks, Used, FreedRegion, Merged, Leftmost, FreedEnd;
      InUseFacts(p);
      FreedFiled(mem, heads, bins, shapes, filed, segs, top, topsize, chunks, p, lo);
      var next := p + mem[p].data.size;
      var merge := !mem[next].data.cinuse;
      FreedIntact(mem, segs, top, topsize, chunks, heads + 0x100, p, lo, FreedEnd(mem, next), merge);
      mem, chunks := FreedRegion(mem, lo, FreedEnd(mem, next), merge), chunks - Merged(p, lo, next, merge);
    }

    /** The end of freeing p when no bin knows of the chunks around it any more. */
    method PlaceRegion(p: Addr, lo: Addr, size: nat)
      requires Tagged() && p in InUse() && p in mem && Leftmost(mem, chunks, p, lo) && lo <= p
      requires var next := p + mem[p].data.size;
        && next != top && next != dv && next in mem && size == FreedEnd(mem, next) - lo
        && Holding(Pending(p, lo) + if mem[next].data.cinuse then {} else {next})
      modifies this
      ensures Valid() && InUse() == old(InUse()) - {p}
      ensures Intact(old(mem), old(InUse()), mem, InUse())
    {
      hide Provided, Intact, Filed, HeapTags, FreeChunks, Used, SameHeaders, Leftmost, FreedEnd;
      InUseFacts(p);
      var next := p + mem[p].data.size;
      ghost var merge := !mem[next].data.cinuse;
      ghost var filed := FreeSet() - Victims(dv) - (Pending(p, lo) + if mem[next].data.cinuse then {} else {next});
      LeftmostIsFree(mem, segs, top, topsize, chunks, p, lo, heads + 0x100);
      ghost var m0, u0 := mem, InUse();
      MarkFree(p, lo, filed);
      ghost var m1, u1 := mem, InUse();
      if lo == dv {
        dvsize := size;
        assert filed == FreeSet() - Victims(dv) - {};
      } else {
        assert filed == FreeSet() - Victims(dv) - {lo};
        FileFree(lo, size);
        IntactTwice(m0, u0, m1, u1, mem, InUse());
      }
    }

    /** Frees a chunk before the top chunk, which grows down. */
    method PlaceInTop(p: Addr, lo: Addr, size: nat)
      requires Holding(Pending(p, lo)) && p in InUse() && p in mem && Leftmost(mem, chunks, p, lo) && lo <= p
      requires p + mem[p].data.size == top && size == top - lo
      modifies this
      ensures Valid() && InUse() == old(InUse()) - {p}
      ensures Intact(old(mem), old(InUse()), mem, InUse())
    {
      hide Provided, Intact, Filed, HeapTags, FreeChunks, Used, SameHeaders, Leftmost, SetHead, LinksKept;
      InUseFacts(p);
      LeftmostIsFree(mem, segs, top, topsize, chunks, p, lo, heads + 0x100);
      ghost var before, filed := mem, FreeSet() - Victims(dv) - Pending(p, lo);
      FreeIntoTop(mem, segs, top, topsize, chunks, p, lo);
      HeadKept(mem, lo, topsize + size, true, false);
      FiledFrame(mem, SetHead(mem, lo, topsize + size, true, false), heads, bins, shapes, filed, {lo});
      IntoTopIntact(mem, segs, top, topsize, chunks, heads + 0x100, p, lo);
      topsize := topsize + size;
      top := lo;
      mem := SetHead(mem, lo, topsize, true, false);
      chunks := chunks - {p, lo};
      if lo == dv {
        dv, dvsize := 0, 0;
      } else if dv != 0 {
        KeptSize(before, mem, {lo}, dv);
      }
      assert filed == FreeSet() - Victims(dv) - {};
    }

    /** Frees a chunk before the designated victim, which grows down. */
    method PlaceInVictim(p: Addr, lo: Addr, size: nat)
      requires Holding(Pending(p, lo)) && p in InUse() && p in mem && Leftmost(mem, chunks, p, lo) && lo <= p
      requires p + mem[p].data.size == dv && dv != top && size == dv - lo && lo != dv && dv != 0
      modifies this
      ensures Valid() && InUse() == old(InUse()) - {p}
      ensures Intact(old(mem), old(InUse()), mem, InUse())
    {
      hide Provided, Intact, Filed, HeapTags, FreeChunks, Used, SameHeaders, Leftmost, LinksKept;
      InUseFacts(p);
      LeftmostIsFree(mem, segs, top, topsize, chunks, p, lo, heads + 0x100);
      ghost var before, filed := mem, FreeSet() - Victims(dv) - Pending(p, lo);
      MarkFree(p, lo, filed);
      dvsize := dvsize + size;
      dv := lo;
      assert filed == FreeSet() - Victims(dv) - {};
    }

    /** Nothing that is in use changes when nothing does. */
    lemma NothingWritten()
      requires Valid()
      ensures Intact(mem, InUse(), mem, InUse())
    {
      ChunksInMemory(mem, segs, top, topsize, chunks);
      SameIntact(mem, InUse(), InUse());
    }

    /** Frees a chunk in use: it is joined with free neighbours, and goes where the result belongs. */
    method Dispose(p: Addr)
      requires Valid() && p in InUse() && p in mem
      modifies this
      ensures Valid() && InUse() == old(InUse()) - {p}
      ensures Intact(old(mem), old(InUse()), mem, InUse())
    {
      hide Provided, Intact, Filed, HeapTags, FreeChunks, Used, SameHeaders, Leftmost;
      InUseFacts(p);
      var psize := mem[p].data.size;
      var next, lo := p + psize, p;
      ghost var m0, u0 := mem, InUse();
      LeftmostSelf(mem, chunks, p);
      HeadersStay(mem);
      NothingWritten();
      if !mem[p].data.pinuse {
        PreviousFacts(p);
        var prevsize := mem[p].data.prevFoot;
        lo := p - prevsize;
        psize := psize + prevsize;
        if lo != dv {
          UnlinkFree(lo, prevsize, {});
          assert {} + {lo} == Pending(p, lo);
          LeftmostKept(m0, mem, chunks, p, lo);
        } else if mem[next].data.cinuse && mem[next].data.pinuse {
          assert Pending(p, lo) + {} == {};
          PlaceRegion(p, lo, psize);
          return;
        }
      }
      HeadersOf(m0, mem, p);
      assert Holding(Pending(p, lo));
      ghost var m1, u1 := mem, InUse();
      Consolidate(p, lo, psize);
      IntactTwice(m0, u0, m1, u1, mem, InUse());
    }

    /** Frees a chunk in use when the free chunk before it has been taken from its bin. */
    method Consolidate(p: Addr, lo: Addr, psize: nat)
      requires Holding(Pending(p, lo)) && p in InUse() && p in mem && Leftmost(mem, chunks, p, lo) && lo <= p
      requires psize == p + mem[p].data.size - lo
      modifies this
      ensures Valid() && InUse() == old(InUse()) - {p}
      ensures Intact(old(mem), old(InUse()), mem, InUse())
    {
      hide Provided, Intact, Filed, HeapTags, FreeChunks, Used, SameHeaders, Leftmost;
      InUseFacts(p);
      var next := lo + psize;
      ghost var m0, u0 := mem, InUse();
      assert Pending(p, lo) + {} == Pending(p, lo);
      if !mem[next].data.cinuse {
        if next == top {
          PlaceInTop(p, lo, psize);
        } else if next == dv {
          PlaceInVictim(p, lo, psize);
        } else {
          var nsize := mem[next].data.size;
          UnlinkFree(next, nsize, Pending(p, lo));
          HeadersOf(m0, mem, p);
          HeadersOf(m0, mem, next);
          LeftmostKept(m0, mem, chunks, p, lo);
          ghost var m1, u1 := mem, InUse();
          PlaceRegion(p, lo, psize + nsize);
          IntactTwice(m0, u0, m1, u1, mem, InUse());
        }
      } else {
        PlaceRegion(p, lo, psize);
      }
    }

    /** A free chunk that was taken from its bin goes into use as a whole. */
    method TakeWhole(p: Addr, size: nat)
      requires Holding({p}) && p in FreeSet() && p != dv && p in mem && mem[p].data.size == size
      modifies this`mem
      ensures Valid() && InUse() == old(InUse())[p := size] && FreeSet() == old(FreeSet()) - {p}
      ensures Intact(old(mem), old(InUse()), mem, InUse())
    {
      hide Provided, Intact, Filed, HeapTags, FreeChunks, Used, SetInuseAndPinuse, LinksKept;
      ghost var before, filed := mem, FreeSet() - Victims(dv) - {p};
      UseWhole(mem, segs, top, topsize, chunks, p);
      FreeIsSized(mem, segs, top, topsize, chunks, p, heads + 0x100);
      WholeKept(mem, p, size);
      FiledFrame(mem, SetInuseAndPinuse(mem, p, size), heads, bins, shapes, filed, {p});
      WholeIntact(mem, segs, top, topsize, chunks, heads + 0x100, p);
      mem := SetInuseAndPinuse(mem, p, size);
      if dv != 0 {
        KeptSize(before, mem, {p}, dv);
      }
      assert filed == FreeSet() - Victims(dv) - {};
    }

    /** The front of a free chunk that was taken from its bin goes into use. */
    method TakeFront(p: Addr, nb: nat) returns (r: Addr, rsize: nat)
      requires Holding({p}) && p in FreeSet() && p != dv && p in mem
      requires nb % 8 == 0 && MIN_CHUNK_SIZE <= nb && nb + MIN_CHUNK_SIZE <= mem[p].data.size
      modifies this`mem, this`chunks
      ensures Holding({r}) && r in FreeSet() && r != dv && r in mem && mem[r].data.size == rsize
      ensures r == p + nb && rsize == old(mem)[p].data.size - nb && InUse() == old(InUse())[p := nb]
      ensures FreeSet() == old(FreeSet()) - {p} + {r}
      ensures Intact(old(mem), old(InUse()), mem, InUse())
    {
      hide Provided, Intact, Filed, HeapTags, FreeChunks, Used, SplitFront, LinksKept;
      ghost var before, filed := mem, FreeSet() - Victims(dv) - {p};
      rsize := mem[p].data.size - nb;
      r := p + nb;
      UseFront(mem, segs, top, topsize, chunks, p, nb);
      FreeIsSized(mem, segs, top, topsize, chunks, p, heads + 0x100);
      FrontKept(mem, p, nb, rsize);
      KeptKeys(mem, SplitFront(mem, p, nb, rsize), {p, r});
      FreeIsChunk(mem, chunks);
      FiledFrame(mem, SplitFront(mem, p, nb, rsize), heads, bins, shapes, filed, {p, r});
      FrontIntact(mem, segs, top, topsize, chunks, heads + 0x100, p, nb);
      mem, chunks := SplitFront(mem, p, nb, rsize), chunks + {r};
      if dv != 0 {
        KeptSize(before, mem, {p, r}, dv);
      }
      assert filed == FreeSet() - Victims(dv) - {r};
    }

    /** A new designated victim; the old one, which is small, goes into its bin. */
    method ReplaceDv(p: Addr, size: nat)
      requires Holding({p}) && p in FreeSet() && p != dv && p in mem && mem[p].data.size == size && dvsize < 0x100
      modifies this`mem, this`bins, this`shapes, this`dv, this`dvsize
      ensures Valid() && InUse() == old(InUse()) && FreeSet() == old(FreeSet()) && SameHeaders(old(mem), mem) && dv == p
      ensures Intact(old(mem), old(InUse()), mem, InUse())
    {
      hide Provided, Intact, Filed, HeapTags, SameHeaders, Used, FreeChunks, Above;
      ghost var before, filed := mem, FreeSet() - Victims(dv) - {p};
      FreeIsSized(mem, segs, top, topsize, chunks, p, heads + 0x100);
      HeadersStay(mem);
      if dvsize != 0 {
        FreeIsSized(mem, segs, top, topsize, chunks, dv, heads + 0x100);
        mem, bins, shapes := InsertChunk(mem, heads, bins, dv, dvsize, shapes, filed);
        filed := filed + {dv};
      } else {
        NoVictim();
      }
      LinksIntact(before, mem, segs, top, topsize, chunks, heads + 0x100);
      HeapFrame(before, mem, segs, top, topsize, chunks);
      HeadersKeys(before, mem);
      HeaderSizes(before, mem);
      dvsize := size;
      dv := p;
      assert filed == FreeSet() - Victims(dv) - {};
    }

    lemma NoVictim()
      requires Tagged() && Victim() && dvsize == 0
      ensures dv == 0
    {
      if dv != 0 {
        FreeIsSized(mem, segs, top, topsize, chunks, dv, heads + 0x100);
      }
    }

    /** A chunk in a bin is free, and not the designated victim. */
    lemma FiledIsFree(p: Addr)
      requires Valid() && (p in Listed(shapes.lists) || p in Binned(shapes.tries))
      ensures p in FreeSet() && p != dv && p in mem
    {
      assert p in FreeSet() - Victims(dv) - {};
    }

    /** A free chunk that is in no bin is the designated victim. */
    lemma FreeIsFiled(p: Addr)
      requires Valid() && p in FreeSet() && p != dv
      ensures p in Listed(shapes.lists) || p in Binned(shapes.tries)
    {
      assert p in FreeSet() - Victims(dv) - {};
    }

    /** Is chunk p, which was free before, now the one more chunk in use, and of a size for nb? */
    ghost predicate Took(p: Addr, nb: nat, inUse: map<Addr, nat>)
      reads this`mem, this`segs, this`chunks
    {
      && p !in inUse && p in InUse() && InUse() == inUse[p := InUse()[p]] && nb <= InUse()[p] < nb + MIN_CHUNK_SIZE
      && p % 8 == 0
    }

    lemma FreeNotInUse(p: Addr)
      requires Tagged() && p in FreeSet()
      ensures p !in InUse() && p % 8 == 0 && 0 < p
    {
      var i := FreeLocated(mem, segs, top, topsize, chunks, p);
      FreeIsSized(mem, segs, top, topsize, chunks, p, heads + 0x100);
    }

    lemma FirstFree(i: nat)
      requires Valid() && i < 32 && Marked(bins.smallmap, i)
      ensures BinAt(heads, i) in mem
      ensures var p := mem[BinAt(heads, i)].forw;
        && p in FreeSet() && p != dv && p in mem && mem[p].data.size == 8 * i && p !in InUse() && p % 8 == 0 && 0 < p
    {
      FirstOfSmall(mem, heads, bins.smallmap, shapes.lists, i);
      FiledIsFree(mem[BinAt(heads, i)].forw);
      FreeNotInUse(mem[BinAt(heads, i)].forw);
    }

    /** Uses the first chunk of a small bin, all of it. */
    method AllocateExact(i: nat, nb: nat) returns (p: Addr)
      requires Valid() && i < 32 && Marked(bins.smallmap, i) && nb <= 8 * i < nb + MIN_CHUNK_SIZE
      modifies this
      ensures Valid() && Took(p, nb, old(InUse())) && p != 0
      ensures p in old(FreeSet()) && p in old(mem) && old(mem)[p].data.size == 8 * i
      ensures !old(Exhausted(nb))
      ensures Intact(old(mem), old(InUse()), mem, InUse())
    {
      hide Provided, Intact, Filed, HeapTags, FreeChunks, Used, SameHeaders, Marked, Listed, Binned;
      FirstFree(i);
      p := mem[BinAt(heads, i)].forw;
      ghost var m0, u0 := mem, InUse();
      UnlinkFree(p, 8 * i, {});
      HeadersOf(m0, mem, p);
      assert {} + {p} == {p};
      ghost var m1, u1 := mem, InUse();
      TakeWhole(p, 8 * i);
      IntactTwice(m0, u0, m1, u1, mem, InUse());
    }

    /** Uses the front of the first chunk of a small bin; the rest becomes the designated victim. */
    method AllocateFront(i: nat, nb: nat) returns (p: Addr)
      requires Valid() && i < 32 && Marked(bins.smallmap, i) && nb + MIN_CHUNK_SIZE <= 8 * i && dvsize < 0x100
      requires nb % 8 == 0 && MIN_CHUNK_SIZE <= nb
      modifies this
      ensures Valid() && Took(p, nb, old(InUse())) && p != 0
      ensures p in old(FreeSet()) && p in old(mem) && old(mem)[p].data.size == 8 * i
      ensures !old(Exhausted(nb))
      ensures Intact(old(mem), old(InUse()), mem, InUse())
    {
      hide Provided, Intact, Filed, HeapTags, FreeChunks, Used, SameHeaders, Marked, Listed, Binned;
      FirstFree(i);
      p := mem[BinAt(heads, i)].forw;
      ghost var m0, u0 := mem, InUse();
      UnlinkFree(p, 8 * i, {});
      HeadersOf(m0, mem, p);
      assert {} + {p} == {p};
      ghost var m1, u1 := mem, InUse();
      var r, rsize := TakeFront(p, nb);
      IntactTwice(m0, u0, m1, u1, mem, InUse());
      m1, u1 := mem, InUse();
      ReplaceDv(r, rsize);
      IntactTwice(m0, u0, m1, u1, mem, InUse());
    }

    /** Uses the smallest chunk of all tree bins, for a small request. */
    method TmallocSmall(nb: nat) returns (p: Addr)
      requires Valid() && bins.treemap != 0 && nb % 8 == 0 && MIN_CHUNK_SIZE <= nb < 0x100 && dvsize < nb
      requires Shr(bins.smallmap, nb / 8) == 0
      modifies this
      ensures Valid() && Took(p, nb, old(InUse())) && p != 0
      ensures p in old(FreeSet()) && BestFree(p, nb, old(FreeSet()), old(mem))
      ensures !old(Exhausted(nb))
      ensures Intact(old(mem), old(InUse()), mem, InUse())
    {
      hide Provided, Intact, HeapTags, FreeChunks, Used, SameHeaders, Binned, Listed, BestFit, Bins, Smalls;
      var rsize;
      p, rsize := SearchSmall(mem, bins.treebins, bins.treemap, nb, shapes.tries);
      BestOfChunks(nb, p, rsize);
      NoSmallFrom(mem, heads, bins.smallmap, shapes.lists, nb / 8);
      BestOfAll(nb, p, rsize);
      FiledIsFree(p);
      FreeNotInUse(p);
      ghost var m0, u0 := mem, InUse();
      UnlinkFree(p, rsize + nb, {});
      HeadersOf(m0, mem, p);
      assert {} + {p} == {p};
      ghost var m1, u1 := mem, InUse();
      if rsize < MIN_CHUNK_SIZE {
        TakeWhole(p, rsize + nb);
        IntactTwice(m0, u0, m1, u1, mem, InUse());
      } else {
        var r, rest := TakeFront(p, nb);
        IntactTwice(m0, u0, m1, u1, mem, InUse());
        m1, u1 := mem, InUse();
        ReplaceDv(r, rest);
        IntactTwice(m0, u0, m1, u1, mem, InUse());
      }
    }

    /** What the search of the tree bins says of their chunks. */
    lemma BestOfChunks(nb: nat, p: Addr, rsize: nat)
      requires Valid() && BestFit(mem, shapes.tries, nb, p, rsize)
      ensures p != 0 ==> p in Binned(shapes.tries) && p in mem && mem[p].data.size == nb + rsize
      ensures forall q :: q in Binned(shapes.tries) ==> q in mem && mem[q].data.size < WORD
      ensures forall q :: q in Binned(shapes.tries) && nb <= mem[q].data.size ==>
        p != 0 && nb + rsize <= mem[q].data.size
    {
      hide Bins, Bin, Nodes, Sizes, HeapTags, Smalls, FreeChunks, Used;
      BinCount(mem, bins.treebins, bins.treemap, shapes.tries);
      forall q | q in Binned(shapes.tries)
        ensures q in mem && mem[q].data.size < WORD
        ensures (nb <= mem[q].data.size ==> p != 0 && nb + rsize <= mem[q].data.size)
      {
        var i :| 0 <= i < |shapes.tries| && q in Nodes(shapes.tries[i]);
        SizeInBin(mem, bins.treebins, bins.treemap, shapes.tries, i, q);
        BinOf(mem, bins.treebins, bins.treemap, shapes.tries, i);
      }
    }

    /** Comparing surpluses as machine words tells whether the victim fits at least as well. */
    lemma CompareVictim(nb: nat, p: Addr, rsize: nat)
      requires Valid() && 0x100 <= nb < WORD && (p != 0 ==> nb + rsize < WORD)
      ensures dvsize < WORD
      ensures p != 0 ==> (rsize < Sub32(dvsize, nb) <==> dvsize < nb || nb + rsize < dvsize)
      ensures forall q :: q in Listed(shapes.lists) ==> q in mem && mem[q].data.size < nb
    {
      hide HeapTags, Binned, Listed, Bins, Smalls, FreeChunks;
      if dv != 0 {
        FreeIsSized(mem, segs, top, topsize, chunks, dv, heads + 0x100);
      }
      SmallSizes(mem, heads, bins.smallmap, shapes.lists);
    }

    /** The best fit of the tree bins is the best fit of all when it is better than the victim. */
    lemma BestOfAll(nb: nat, p: Addr, rsize: nat)
      requires Valid() && (dvsize < nb || nb + rsize < dvsize)
      requires forall q :: q in Binned(shapes.tries) ==>
        q in mem && (nb <= mem[q].data.size ==> nb + rsize <= mem[q].data.size)
      requires forall q :: q in Listed(shapes.lists) ==> q in mem && mem[q].data.size < nb
      ensures forall q :: q in FreeSet() && q in mem && nb <= mem[q].data.size ==> nb + rsize <= mem[q].data.size
    {
      forall q | q in FreeSet() && q in mem && nb <= mem[q].data.size ensures nb + rsize <= mem[q].data.size {
        if q != dv {
          FreeIsFiled(q);
        }
      }
    }

    /** Uses the best fit in the tree bins for a large request, unless the designated victim fits at
        least as well; the rest goes into a bin. */
    method TmallocLarge(nb: nat) returns (p: Addr)
      requires Valid() && nb % 8 == 0 && 0x100 <= nb < WORD
      modifies this
      ensures Valid() && (p != 0 ==> Took(p, nb, old(InUse())))
      ensures p != 0 ==>
        p in old(FreeSet()) && p in old(mem) && BestFree(p, nb, old(FreeSet()), old(mem)) && !old(Exhausted(nb))
      ensures p == 0 ==> unchanged(this) && VictimFits(nb)
      ensures p != 0 ==> Intact(old(mem), old(InUse()), mem, InUse())
    {
      hide Provided, Intact, HeapTags, FreeChunks, Used, SameHeaders, Binned, Listed, BestFit, Bins, Smalls;
      var rsize;
      p, rsize := SearchLarge(mem, bins.treebins, bins.treemap, nb, shapes.tries);
      BestOfChunks(nb, p, rsize);
      CompareVictim(nb, p, rsize);
      if p != 0 && rsize < Sub32(dvsize, nb) {
        BestOfAll(nb, p, rsize);
        FiledIsFree(p);
        FreeNotInUse(p);
        ghost var m0, u0 := mem, InUse();
        UnlinkFree(p, rsize + nb, {});
        HeadersOf(m0, mem, p);
        assert {} + {p} == {p};
        ghost var m1, u1 := mem, InUse();
        if rsize < MIN_CHUNK_SIZE {
          TakeWhole(p, rsize + nb);
          IntactTwice(m0, u0, m1, u1, mem, InUse());
        } else {
          var r, rest := TakeFront(p, nb);
          IntactTwice(m0, u0, m1, u1, mem, InUse());
          m1, u1 := mem, InUse();
          FileFree(r, rest);
          IntactTwice(m0, u0, m1, u1, mem, InUse());
        }
      } else {
        p := 0;
      }
    }

    /** The allocator as it is when it has its first memory, from the front of region i: one top chunk. */
    constructor (heads: Addr, regions: seq<Region>, ram: Heap, statics: Heap, i: nat, tsize: nat)
      requires Regions(regions, ram, heads + 0x100) && i < |regions| && tsize % 8 == 0 && TOP_FOOT_SIZE < tsize
      requires regions[i].first + tsize <= regions[i].last
      requires forall i :: 0 <= i < 32 ==> BinAt(heads, i) in statics
      ensures Valid() && InUse() == map[] && topsize == tsize - TOP_FOOT_SIZE
      ensures segs == [Segment(regions[i].first, tsize, 0)] && contiguous
      ensures this.regions == regions && this.ram == ram && this.heads == heads
      ensures brk == Break(i, regions[i].first + tsize)
    {
      hide HeapTags, Filed, Used, FreeChunks, FirstMemory, Granted, Regions;
      var base := regions[i].first;
      ghost var memory := ram + statics;
      FirstBacked(regions, ram, heads + 0x100, i, tsize);
      GrantedMore(ram, statics, base, tsize);
      FirstHeap(ram + statics, base, tsize);
      this.heads, segs, contiguous := heads, [Segment(base, tsize, 0)], true;
      this.regions, this.ram, brk := regions, ram, Break(i, base + tsize);
      top, topsize := base, tsize - TOP_FOOT_SIZE;
      mem := FirstMemory(ram + statics, base, tsize - TOP_FOOT_SIZE);
      bins := Lists(seq(32, i => 0), 0, 0);
      dv, dvsize := 0, 0;
      shapes := Shapes(seq(32, i => Trie.Nil), seq(32, i => []));
      chunks := {};
      NothingFiled(FirstMemory(memory, base, tsize - TOP_FOOT_SIZE), heads, Lists(seq(32, i => 0), 0, 0),
                   Shapes(seq(32, i => Trie.Nil), seq(32, i => [])));
      new;
      assert FreeSet() - Victims(dv) - {} == {};
    }

    /** Uses the designated victim: its front, or all of it when the rest is too small for a chunk. */
    method AllocateFromVictim(nb: nat) returns (p: Addr)
      requires Valid() && nb <= dvsize && nb % 8 == 0 && MIN_CHUNK_SIZE <= nb
      modifies this
      ensures Valid() && Took(p, nb, old(InUse())) && p != 0
      ensures !old(Exhausted(nb))
      ensures p == old(dv)
      ensures Intact(old(mem), old(InUse()), mem, InUse())
    {
      hide Provided, Intact, Filed, HeapTags, FreeChunks, Used, SplitFront, SetInuseAndPinuse, LinksKept;
      ghost var filed := FreeSet() - Victims(dv) - {};
      var rsize := dvsize - nb;
      p := dv;
      FreeNotInUse(p);
      FreeIsSized(mem, segs, top, topsize, chunks, p, heads + 0x100);
      FreeIsChunk(mem, chunks);
      if rsize >= MIN_CHUNK_SIZE {
        var r := p + nb;
        UseFront(mem, segs, top, topsize, chunks, p, nb);
        FrontKept(mem, p, nb, rsize);
        KeptKeys(mem, SplitFront(mem, p, nb, rsize), {p, r});
        FiledFrame(mem, SplitFront(mem, p, nb, rsize), heads, bins, shapes, filed, {p, r});
        FrontIntact(mem, segs, top, topsize, chunks, heads + 0x100, p, nb);
        FrontInOtherOrder(mem, p, nb, rsize);
        dv, dvsize := r, rsize;
        mem := SetSizeAndPinuseOfInuseChunk(SetSizeAndPinuseOfFreeChunk(mem, r, rsize), p, nb);
        chunks := chunks + {r};
      } else {
        UseWhole(mem, segs, top, topsize, chunks, p);
        WholeKept(mem, p, dvsize);
        FiledFrame(mem, SetInuseAndPinuse(mem, p, dvsize), heads, bins, shapes, filed, {p});
        WholeIntact(mem, segs, top, topsize, chunks, heads + 0x100, p);
        mem := SetInuseAndPinuse(mem, p, dvsize);
        dv, dvsize := 0, 0;
      }
      assert filed == FreeSet() - Victims(dv) - {};
    }

    /** Uses the front of the top chunk. */
    method AllocateFromTop(nb: nat) returns (p: Addr)
      requires Valid() && nb < topsize && nb % 8 == 0 && MIN_CHUNK_SIZE <= nb
      modifies this
      ensures Valid() && Took(p, nb, old(InUse())) && p != 0
      ensures !old(Exhausted(nb))
      ensures Intact(old(mem), old(InUse()), mem, InUse())
    {
      hide Provided, Intact, Filed, HeapTags, FreeChunks, Used, SplitTop, LinksKept;
      ghost var before, filed := mem, FreeSet() - Victims(dv) - {};
      TopFacts();
      UseTop(mem, segs, top, topsize, chunks, nb);
      TopSegment(SplitTop(mem, top, topsize, nb), segs, top + nb, topsize - nb, chunks + {top});
      FreeIsChunk(mem, chunks);
      TopKept(mem, top, topsize, nb);
      FiledFrame(mem, SplitTop(mem, top, topsize, nb), heads, bins, shapes, filed, {top, top + nb});
      TopIntact(mem, segs, top, topsize, chunks, heads + 0x100, nb);
      p := top;
      mem, chunks := SplitTop(mem, top, topsize, nb), chunks + {top};
      topsize := topsize - nb;
      top := p + nb;
      if dv != 0 {
        KeptSize(before, mem, {p, p + nb}, dv);
      }
    }

    lemma TopFacts()
      requires Tagged()
      ensures 0 < top && top in mem && top % 8 == 0 && topsize % 8 == 0 && 0 < topsize && top + topsize < WORD
      ensures top !in InUse()
      ensures top !in chunks && |segs| > 0 && EndOf(segs[0]) == top + topsize + TOP_FOOT_SIZE && heads + 0x100 <= top
      ensures EndOf(segs[0]) <= WORD
    {
      TopSegment(mem, segs, top, topsize, chunks);
    }

    /** Memory that is in no segment, and that can be used. */
    ghost predicate Available(base: Addr, size: nat)
      reads this`segs
    {
      && Unused(segs, base, size) && Granted(ram, base, size)
      && heads + 0x100 <= base && 0 < base && base % 8 == 0 && size % 8 == 0 && 0 < size && base + size <= WORD
    }

    /** Memory that has been taken, such that b is the break now. */
    ghost predicate Given(b: Break, base: Addr, size: nat)
      reads this`segs, this`contiguous
    {
      && Available(base, size) && BreakIn(regions, b) && Ahead(regions, b, segs) && Behind(regions, b, base, size)
      && 0 < |segs| && segs[0].size + size <= HandedOut(regions, b)
      && (contiguous && b.index == 0 ==> base == EndOf(segs[0]) && b.ptr == base + size)
    }

    /** The first segment has been continued by the memory given. */
    lemma GivenBehind(b: Break, base: Addr, size: nat)
      requires Given(b, base, size) && base == EndOf(segs[0]) && Provided()
      ensures var segs' := segs[0 := segs[0].(size := segs[0].size + size)];
        Held(regions, b, segs', contiguous)
    {
      AheadOf(b, base, size, 0, segs[0].(size := segs[0].size + size));
    }

    lemma AheadOf(b: Break, base: Addr, size: nat, i: nat, s: Segment)
      requires Given(b, base, size) && i < |segs| && Provided()
      requires (s.base == segs[i].base && EndOf(segs[i]) == base && EndOf(s) == base + size)
        || (s.base == base && base + size == segs[i].base && EndOf(s) == EndOf(segs[i]))
      ensures Ahead(regions, b, segs[i := s])
    {
      forall j | b.index <= j < |regions|
        ensures Left(regions, b, j) > 0 ==> Unused(segs[i := s], From(regions, b, j), Left(regions, b, j))
      {
        assert Left(regions, b, j) > 0 ==> Unused(segs, From(regions, b, j), Left(regions, b, j));
        assert Usable(regions[j], ram, heads + 0x100);
      }
    }

    /** Segment i begins with the memory given now. */
    lemma GivenBefore(b: Break, base: Addr, size: nat, i: nat)
      requires Given(b, base, size) && i < |segs| && base + size == segs[i].base && base != EndOf(segs[0]) && Provided()
      ensures var segs' := segs[i := Segment(base, segs[i].size + size, segs[i].record)];
        Held(regions, b, segs', contiguous)
    {
      AheadOf(b, base, size, i, Segment(base, segs[i].size + size, segs[i].record));
    }

    /** The memory given is a segment of its own. */
    lemma GivenAlone(b: Break, base: Addr, size: nat, sp: Addr)
      requires Given(b, base, size) && base != EndOf(segs[0]) && Provided()
      ensures 0 < |segs| && Held(regions, b, WithSegment(segs, base, size, sp), contiguous)
    {
      var segs' := WithSegment(segs, base, size, sp);
      forall j | b.index <= j < |regions|
        ensures Left(regions, b, j) > 0 ==> Unused(segs', From(regions, b, j), Left(regions, b, j))
      {
        assert Left(regions, b, j) > 0 ==> Unused(segs, From(regions, b, j), Left(regions, b, j));
        assert Usable(regions[j], ram, heads + 0x100);
        assert forall k :: 2 <= k < |segs'| ==> segs'[k] == segs[k - 1];
      }
    }

    /** Memory that follows the first segment is added to the top chunk. */
    method ExtendTop(ssize: nat, b: Break)
      requires Valid() && 0 < |segs| && Given(b, EndOf(segs[0]), ssize)
      modifies this`mem, this`topsize, this`segs, this`brk
      ensures Valid() && InUse() == old(InUse()) && topsize == old(topsize) + ssize && brk == b
      ensures Intact(old(mem), old(InUse()), mem, InUse())
    {
      hide Held, Regions, Ahead, Behind, HandedOut, BreakIn, Intact, Filed, HeapTags, FreeChunks, Used, GrownTop,
           LinksKept, Granted, Above, Unused;
      ghost var before, filed := mem, FreeSet() - Victims(dv) - {};
      TopFacts();
      GivenBehind(b, EndOf(segs[0]), ssize);
      var space := ram;
      NewTopInMemory(mem, segs, top, topsize, chunks, space, ssize);
      EndIsNoChunk(mem, segs, top, topsize, chunks, ssize);
      FreeIsChunk(mem, chunks);
      Appended(mem, space, segs, top, topsize, chunks, ssize);
      GrownTopKept(mem, space, top, topsize, ssize);
      FiledFrame(mem, GrownTop(mem, space, top, topsize, ssize), heads, bins, shapes, filed,
                 {top, top + topsize + ssize});
      AboveGrown(segs, 0, segs[0].(size := segs[0].size + ssize), heads + 0x100);
      AppendIntact(mem, space, segs, top, topsize, chunks, heads + 0x100, ssize);
      mem := GrownTop(mem, space, top, topsize, ssize);
      segs, brk := segs[0 := segs[0].(size := segs[0].size + ssize)], b;
      topsize := topsize + ssize;
      if dv != 0 {
        KeptSize(before, mem, {top, top + topsize}, dv);
      }
    }

    /** Memory that ends where a segment begins is joined with it: the front becomes a chunk in use,
        and the rest is freed, so that it is joined with the first chunk of the segment if it can. */
    method PrependAlloc(i: nat, tbase: Addr, tsize: nat, nb: nat, b: Break) returns (p: Addr)
      requires Valid() && i < |segs| && tbase + tsize == segs[i].base && Given(b, tbase, tsize)
      requires tbase != EndOf(segs[0])
      requires nb % 8 == 0 && MIN_CHUNK_SIZE <= nb && nb + MIN_CHUNK_SIZE <= tsize
      modifies this
      ensures Valid() && Took(p, nb, old(InUse())) && p != 0
      ensures Intact(old(mem), old(InUse()), mem, InUse())
    {
      hide Holding, Used, Intact;
      ghost var m0, u0 := mem, InUse();
      PrependChunk(i, tbase, tsize, b);
      p := tbase;
      ValidInUse(p);
      ghost var m1, u1 := mem, InUse();
      Shrink(p, nb);
      IntactTwice(m0, u0, m1, u1, mem, InUse());
    }

    method PrependChunk(i: nat, tbase: Addr, tsize: nat, b: Break)
      requires Valid() && i < |segs| && tbase + tsize == segs[i].base && Given(b, tbase, tsize)
      requires MIN_CHUNK_SIZE <= tsize && tbase != EndOf(segs[0])
      modifies this`mem, this`segs, this`chunks, this`brk
      ensures Valid() && tbase !in old(InUse()) && InUse() == old(InUse())[tbase := tsize]
      ensures Intact(old(mem), old(InUse()), mem, InUse())
    {
      hide Held, Regions, Ahead, Behind, HandedOut, BreakIn, Intact, Filed, HeapTags, FreeChunks, Used, NewChunk,
           LinksKept, Granted, Above, Unused;
      ghost var before, filed := mem, FreeSet() - Victims(dv) - {};
      GivenBefore(b, tbase, tsize, i);
      var space := ram;
      assert tbase in space by { BaseGranted(space, tbase, tsize); }
      Prepended(mem, space, segs, top, topsize, chunks, i, tbase, tsize);
      FreeIsChunk(mem, chunks);
      UsedIsChunk(mem, segs, chunks);
      NewChunkKept(mem, space, tbase, tsize);
      FiledFrame(mem, NewChunk(mem, space, tbase, tsize), heads, bins, shapes, filed, {tbase});
      AboveGrown(segs, i, Segment(tbase, segs[i].size + tsize, segs[i].record), heads + 0x100);
      PrependIntact(mem, space, segs, top, topsize, chunks, heads + 0x100, i, tbase, tsize);
      mem := NewChunk(mem, space, tbase, tsize);
      segs, brk := segs[i := Segment(tbase, segs[i].size + tsize, segs[i].record)], b;
      chunks := chunks + {tbase};
      if dv != 0 {
        KeptSize(before, mem, {tbase}, dv);
      }
    }

    /** Memory that joins no segment becomes the first one: the segment that was first is closed with
        its record, and the rest of the old top chunk goes into a bin. */
    method AddSegment(tbase: Addr, tsize: nat, b: Break)
      requires Valid() && Given(b, tbase, tsize) && TOP_FOOT_SIZE < tsize && tbase != EndOf(segs[0])
      modifies this
      ensures Valid() && InUse() == old(InUse()) && topsize == tsize - TOP_FOOT_SIZE
      ensures Intact(old(mem), old(InUse()), mem, InUse())
    {
      hide Provided, Intact, Holding, Used, FreeChunks;
      var oldTop, psize := top, topsize;
      ghost var m0, u0 := mem, InUse();
      var sp := OpenSegment(tbase, tsize, b);
      if sp != oldTop {
        ghost var m1, u1 := mem, InUse();
        FileFree(oldTop, psize);
        IntactTwice(m0, u0, m1, u1, mem, InUse());
      }
    }

    method OpenSegment(tbase: Addr, tsize: nat, b: Break) returns (sp: Addr)
      requires Valid() && Given(b, tbase, tsize) && TOP_FOOT_SIZE < tsize && tbase != EndOf(segs[0])
      modifies this
      ensures InUse() == old(InUse()) && top == tbase && topsize == tsize - TOP_FOOT_SIZE
      ensures sp == old(top) ==> Valid()
      ensures sp != old(top) ==>
        && Holding({old(top)}) && old(top) in FreeSet() && old(top) != dv && old(top) in mem
        && mem[old(top)].data.size == old(topsize)
      ensures Intact(old(mem), old(InUse()), mem, InUse())
    {
      hide Held, Regions, Ahead, Behind, HandedOut, BreakIn, Intact, Filed, HeapTags, FreeChunks, Used, LinksKept,
           Granted, Above, Unused, FirstMemory, Closing, WithSegment, ClosingChunks;
      ghost var before, filed := mem, FreeSet() - Victims(dv) - {};
      FreeIsChunk(mem, chunks);
      TopFacts();
      ghost var changed;
      mem, sp, changed := NewTop(mem, ram, segs, top, topsize, chunks, tbase, tsize, heads + 0x100);
      FiledFrame(before, mem, heads, bins, shapes, filed, changed);
      AboveAdded(segs, tbase, tsize, sp, heads + 0x100);
      if dv != 0 {
        KeptSize(before, mem, changed, dv);
      }
      GivenAlone(b, tbase, tsize, sp);
      segs, brk := WithSegment(segs, tbase, tsize, sp), b;
      chunks := chunks + ClosingChunks(top, sp);
      top, topsize := tbase, tsize - TOP_FOOT_SIZE;
      assert FreeSet() - Victims(dv) - ClosingFree(old(top), sp) == filed;
    }

    /** The requests for memory that are granted: one that continues the heap, or is large enough, or is followed
        by another one; and once one of these was refused, one for memory anywhere. */
    ghost predicate Grants(nb: nat)
      reads this`segs, this`topsize, this`contiguous, this`brk
      requires 0 < |segs| && topsize <= nb
    {
      if contiguous then Continues(nb)
      else AnywhereSize(nb) < HALF_MAX_SIZE_T && Served(regions, brk, AnywhereSize(nb)).1.Some?
    }

    ghost predicate Continues(nb: nat)
      reads this`segs, this`topsize, this`contiguous, this`brk
      requires 0 < |segs| && topsize <= nb
    {
      var ssize := ContinuedSize(nb, topsize); var (b1, first) := Served(regions, brk, ssize);
      && ssize < HALF_MAX_SIZE_T && first.Some?
      && (first.value == EndOf(segs[0]) || nb + SYS_ALLOC_PADDING <= ssize
          || Served(regions, b1, SecondSize(nb, ssize)).1.Some?)
    }

    /** Asking for memory for nb bytes goes well: no grant wraps around; and when a second grant is needed, it is not
        too large to be asked for, and follows the first one. */
    ghost predicate Sound(nb: nat)
      reads this`segs, this`topsize, this`contiguous, this`brk
    {
      0 < |segs| && topsize <= nb < AnywhereSize(nb) ==>
        if contiguous then SoundContinued(nb)
        else AnywhereSize(nb) < HALF_MAX_SIZE_T ==> Straight(regions, brk, AnywhereSize(nb))
    }

    ghost predicate SoundContinued(nb: nat)
      reads this`segs, this`topsize, this`contiguous, this`brk
      requires 0 < |segs| && topsize <= nb
    {
      var ssize := ContinuedSize(nb, topsize); var (b1, first) := Served(regions, brk, ssize);
      ssize < HALF_MAX_SIZE_T && first.Some? ==>
        && Straight(regions, brk, ssize)
        && (first.value != EndOf(segs[0]) && ssize < nb + SYS_ALLOC_PADDING ==>
              var esize := SecondSize(nb, ssize); var second := Served(regions, b1, esize).1;
              && esize < HALF_MAX_SIZE_T && Straight(regions, b1, esize)
              && (second.Some? ==> second.value == first.value + ssize))
    }

    /** What is granted first does not continue the heap, is not enough, and is not followed by any more. */
    ghost predicate FirstLost(nb: nat)
      reads this`segs, this`topsize, this`contiguous, this`brk
    {
      && contiguous && 0 < |segs| && topsize <= nb
      && var ssize := ContinuedSize(nb, topsize); var (b1, first) := Served(regions, brk, ssize);
      && ssize < HALF_MAX_SIZE_T && first.Some? && first.value != EndOf(segs[0]) && ssize < nb + SYS_ALLOC_PADDING
      && Served(regions, b1, SecondSize(nb, ssize)).1.None?
    }

    /** A grant that does not wrap around is memory for the heap. */
    lemma OneGrant(incr: nat)
      requires Tagged() && 0 < incr < WORD && incr % 8 == 0
      requires Served(regions, brk, incr).1.Some? && Straight(regions, brk, incr)
      ensures var (b, br) := Served(regions, brk, incr);
        && Given(b, br.value, incr) && Taken(regions, brk, incr, b, br.value) && b.ptr == br.value + incr
        && Served(regions, b, 0) == (b, Some(b.ptr))
    {
      hide HeapTags, Granted, Unused, HandedOut;
      TopFacts();
      var (b, br) := Served(regions, brk, incr);
      Grant(regions, brk, incr, ram, heads + 0x100);
      TakenFacts(regions, brk, incr, b, br.value, ram, heads + 0x100, segs);
      HandedOutMore(regions, brk, incr, b, br.value, ram, heads + 0x100);
    }

    /** Two grants, when the second one follows the first. */
    lemma TwoGrants(s: nat, e: nat)
      requires Tagged() && 0 < s < WORD && s % 8 == 0 && 0 < e < WORD && e % 8 == 0
      requires var (b1, first) := Served(regions, brk, s); var second := Served(regions, b1, e).1;
        && first.Some? && Straight(regions, brk, s) && second.Some? && Straight(regions, b1, e)
        && second.value == first.value + s
      ensures var (b1, first) := Served(regions, brk, s); Given(Served(regions, b1, e).0, first.value, s + e)
    {
      hide HeapTags, Granted, HandedOut, Unused, Ahead, Behind, Served, Filed, Victim;
      var (b1, first) := Served(regions, brk, s);
      var (b2, second) := Served(regions, b1, e);
      OneGrant(s);
      Grant(regions, b1, e, ram, heads + 0x100);
      TakenFacts(regions, b1, e, b2, second.value, ram, heads + 0x100, segs);
      HandedOutMore(regions, b1, e, b2, second.value, ram, heads + 0x100);
      GrantedBoth(ram, first.value, s, e);
      NoneEmpty(mem, segs, top, topsize, chunks);
      UnusedBoth(segs, first.value, s, e);
      EighthsOfSum(s, e);
      BehindBoth(regions, b1, b2, first.value, s, e);
    }

    /** Asks for memory such that the heap goes on behind its end; when that leads elsewhere, for enough memory
        there. When a request is refused, there will never be any memory; what was granted first, if anything,
        is lost. */
    method ContinueHeap(nb: nat) returns (found: bool, tbase: Addr, tsize: nat, b: Break)
      requires Valid() && contiguous && topsize <= nb < AnywhereSize(nb) && 0 < |segs| && nb <= MAX_SIZE_T
      requires SoundContinued(nb)
      modifies this`contiguous
      ensures Valid() && found == old(Continues(nb))
      ensures found ==> Given(b, tbase, tsize)
      ensures found ==> if tbase == EndOf(segs[0]) then nb < topsize + tsize else nb + TOP_FOOT_SIZE < tsize
      ensures !found ==> !contiguous && BreakIn(regions, b)
      ensures old(FirstLost(nb)) ==> !found && b.index == |regions|
      ensures !found ==> b.index == |regions| || (b == brk && HALF_MAX_SIZE_T <= AnywhereSize(nb))
    {
      hide Regions, HeapTags, Ahead, GranularityAlign, Given, Straight, HandedOut, Filed, Victim, ContinuedSize,
           SecondSize;
      TopFacts();
      SecondGrowth(nb, topsize);
      RegionsBegin(regions, ram, heads + 0x100);
      found, tbase, tsize, b := false, 0, 0, brk;
      var ssize := ContinuedSize(nb, topsize);
      var br := None;
      if ssize < HALF_MAX_SIZE_T {
        b, br := Sbrk(regions, b, ssize);
        AfterGrant(ssize);
        if br.Some? && br.value == EndOf(segs[0]) {
          return true, br.value, ssize, b;
        }
      }
      if br.Some? && ssize < HALF_MAX_SIZE_T && ssize < nb + SYS_ALLOC_PADDING {
        var esize := SecondSize(nb, ssize);
        if esize < HALF_MAX_SIZE_T {
          var end;
          b, end := Sbrk(regions, b, esize);
          AfterSecond(ssize, esize);
          if end.Some? {
            ssize := ssize + esize;
          } else {
            br := None;
          }
        }
      }
      if br.Some? {
        return true, br.value, ssize, b;
      }
      contiguous := false;
    }

    /** The break after a request, and after another one. */
    lemma AfterGrant(s: nat)
      requires Valid() && 0 < s < WORD && s % 8 == 0
      ensures var (b, br) := Served(regions, brk, s);
        && (br.Some? && Straight(regions, brk, s) ==> Given(b, br.value, s) && BreakIn(regions, b))
        && (br.None? ==> b.index == |regions| && BreakIn(regions, b))
    {
      hide Given, Regions;
      var (b, br) := Served(regions, brk, s);
      Grant(regions, brk, s, ram, heads + 0x100);
      if br.None? {
        RefusedForEver(regions, brk, s, 0);
      } else if Straight(regions, brk, s) {
        OneGrant(s);
      }
    }

    lemma AfterSecond(s: nat, e: nat)
      requires Valid() && 0 < s < WORD && s % 8 == 0 && 0 < e < WORD && e % 8 == 0
      requires Served(regions, brk, s).1.Some? && Straight(regions, brk, s)
      ensures var (b1, first) := Served(regions, brk, s); var (b2, second) := Served(regions, b1, e);
        && (second.Some? && Straight(regions, b1, e) && second.value == first.value + s ==>
              Given(b2, first.value, s + e) && BreakIn(regions, b2))
        && (second.None? ==> b2.index == |regions| && BreakIn(regions, b2))
    {
      hide Given, Regions;
      var (b1, first) := Served(regions, brk, s);
      var (b2, second) := Served(regions, b1, e);
      Grant(regions, brk, s, ram, heads + 0x100);
      Grant(regions, b1, e, ram, heads + 0x100);
      if second.None? {
        RefusedForEver(regions, b1, e, 0);
      } else if Straight(regions, b1, e) && second.value == first.value + s {
        TwoGrants(s, e);
      }
    }

    /** Asks for memory anywhere. */
    method TakeAnywhere(nb: nat, asize: nat, b0: Break) returns (found: bool, tbase: Addr, tsize: nat, b: Break)
      requires Valid() && nb < asize && asize == AnywhereSize(nb) && nb <= MAX_SIZE_T && !contiguous && topsize <= nb
      requires BreakIn(regions, b0)
      requires b0 == brk || b0.index == |regions|
      requires b0.index < |regions| && asize < HALF_MAX_SIZE_T ==> Straight(regions, b0, asize)
      ensures found == (asize < HALF_MAX_SIZE_T && Served(regions, b0, asize).1.Some?)
      ensures found ==> Given(b, tbase, tsize) && nb + TOP_FOOT_SIZE < tsize
      ensures !found ==> BreakIn(regions, b) && (b == b0 || b.index == |regions|)
    {
      hide Regions, HeapTags, Ahead, GranularityAlign, Given, Straight, HandedOut, Filed, Victim;
      TopFacts();
      SecondGrowth(nb, topsize);
      RegionsBegin(regions, ram, heads + 0x100);
      found, tbase, tsize, b := false, 0, 0, b0;
      if asize < HALF_MAX_SIZE_T {
        var br, end;
        b, br := Sbrk(regions, b, asize);
        if b0 == brk {
          AfterGrant(asize);
          AskedAgain(asize);
        }
        b, end := Sbrk(regions, b, 0);
        if br.Some? && end.Some? && br.value < end.value {
          var ssize := end.value - br.value;
          if ssize > nb + TOP_FOOT_SIZE {
            return true, br.value, ssize, b;
          }
        }
      }
    }

    /** Asking for nothing tells where memory ends. */
    lemma AskedAgain(s: nat)
      requires Valid() && 0 < s < WORD && s % 8 == 0
      ensures var (b, br) := Served(regions, brk, s);
        && (br.Some? && Straight(regions, brk, s) ==> Served(regions, b, 0) == (b, Some(br.value + s)))
        && (br.None? ==> Served(regions, b, 0) == (b, None))
    {
      hide Given, Regions;
      if Served(regions, brk, s).1.None? {
        RefusedForEver(regions, brk, s, 0);
      } else if Straight(regions, brk, s) {
        OneGrant(s);
      }
    }

    /** On a board with at most two regions of memory, of less than 2 GiB in all, asking for memory always goes well,
        if what is asked for does not reach around the end of all addresses. */
    lemma SoundOnBoard(nb: nat)
      requires Valid() && |regions| <= 2 && SizeOfFirst(regions, |regions|) < 0x7FFF_0000 && nb <= MAX_SIZE_T
      requires forall i :: 0 <= i < |regions| ==> regions[i].last + AnywhereSize(nb) < WORD
      ensures Sound(nb)
    {
      hide HeapTags, Filed, Victim, GranularityAlign, Regions, Ahead, HandedOut, SizeOfFirst;
      TopFacts();
      if topsize <= nb < AnywhereSize(nb) {
        SecondGrowth(nb, topsize);
        HandedOutAll(regions, brk);
        TopInFirst();
        NoneWraps(brk, AnywhereSize(nb));
        if contiguous {
          var ssize := ContinuedSize(nb, topsize);
          var esize := SecondSize(nb, ssize);
          var (b1, first) := Served(regions, brk, ssize);
          NoneWraps(brk, ssize);
          AfterGrant(ssize);
          if first.Some? && ssize < nb + SYS_ALLOC_PADDING {
            NoneWraps(b1, esize);
            if first.value != EndOf(segs[0]) {
              SecondIsLast(ssize, esize);
            }
          }
        }
      }
    }

    /** The top chunk lies in the first segment. */
    lemma TopInFirst()
      requires Tagged()
      ensures 0 < |segs| && topsize <= segs[0].size
    {
      hide Provided;
      HoldsTop(0);
    }

    /** No grant wraps around when there is enough behind all regions. */
    lemma NoneWraps(b: Break, incr: nat)
      requires Regions(regions, ram, heads + 0x100) && BreakIn(regions, b) && incr < WORD && incr % 8 == 0
      requires forall i :: 0 <= i < |regions| ==> regions[i].last + incr < WORD
      ensures Straight(regions, b, incr)
    {
      Grant(regions, b, incr, ram, heads + 0x100);
      var (b', br) := Served(regions, b, incr);
      if br.Some? {
        assert Usable(regions[b'.index], ram, heads + 0x100);
      }
    }

    /** With two regions, a grant that does not continue the heap is from the last one, and so is the next one. */
    lemma SecondIsLast(s: nat, e: nat)
      requires Valid() && |regions| <= 2 && contiguous && 0 < s < WORD && s % 8 == 0 && 0 < e < WORD && e % 8 == 0
      requires var first := Served(regions, brk, s).1;
        first.Some? && Straight(regions, brk, s) && first.value != EndOf(segs[0])
      ensures var (b1, first) := Served(regions, brk, s); var second := Served(regions, b1, e).1;
        second.Some? ==> second.value == first.value + s
    {
      hide HeapTags, Filed, Victim, Regions, Ahead, HandedOut;
      OneGrant(s);
      LastRegion(regions, Served(regions, brk, s).0, e);
    }

    /** Asks the system for memory: such that the heap goes on behind its end if that is possible; or
        else memory anywhere. Once memory has been refused, there will never be any. */
    method MoreCore(nb: nat, asize: nat) returns (found: bool, tbase: Addr, tsize: nat, b: Break)
      requires Valid() && topsize <= nb && Sound(nb) && nb < asize && asize == AnywhereSize(nb) && nb <= MAX_SIZE_T
      modifies this`contiguous
      ensures Valid() && 0 < |segs| && found == old(Grants(nb))
      ensures found ==> Given(b, tbase, tsize)
      ensures found ==> if tbase == EndOf(segs[0]) then nb < topsize + tsize else nb + TOP_FOOT_SIZE < tsize
      ensures !found ==> Held(regions, b, segs, contiguous) && (b == brk || b.index == |regions|)
      ensures old(FirstLost(nb)) ==> !found && b.index == |regions|
    {
      hide Regions, HeapTags, Ahead, Given, GranularityAlign, SoundContinued, Continues, Served, Straight, HandedOut,
           Filed,
           Victim, BreakIn, FirstLost;
      NotContiguous(nb);
      TopFacts();
      found, tbase, tsize, b := false, 0, 0, brk;
      if contiguous {
        found, tbase, tsize, b := ContinueHeap(nb);
      }
      if !found {
        if b.index == |regions| {
          ServedNoMore(b, asize);
        }
        found, tbase, tsize, b := TakeAnywhere(nb, asize, b);
        if !found && b.index == |regions| {
          HeldAtEnd(b);
        }
      }
    }

    lemma NotContiguous(nb: nat)
      ensures FirstLost(nb) ==> contiguous
    {
    }

    /** When a request for memory has been refused, the system has nothing for any other one. */
    lemma NoMoreMemory(nb: nat)
      requires Valid() && brk.index == |regions|
      ensures !SystemHas(nb)
    {
      hide HeapTags, GranularityAlign, Regions, Filed;
    }

    lemma ServedNoMore(b: Break, incr: nat)
      requires b.index == |regions|
      ensures Served(regions, b, incr).1 == None
    {
    }

    lemma HeldAtEnd(b: Break)
      requires BreakIn(regions, b) && b.index == |regions| && Held(regions, brk, segs, contiguous) && !contiguous
      ensures Held(regions, b, segs, contiguous)
    {
      HandedOutAll(regions, brk);
    }

    /** The first segment of the list that ends at address a; there may be none. */
    method SegmentEnding(a: Addr) returns (i: nat)
      ensures i <= |segs| && (i < |segs| ==> EndOf(segs[i]) == a) && forall j :: 0 <= j < i ==> EndOf(segs[j]) != a
    {
      i := 0;
      while i < |segs| && EndOf(segs[i]) != a
        invariant i <= |segs| && forall j :: 0 <= j < i ==> EndOf(segs[j]) != a
      {
        i := i + 1;
      }
    }

    /** The first segment of the list that begins at address a; there may be none. */
    method SegmentStarting(a: Addr) returns (i: nat)
      ensures i <= |segs| && (i < |segs| ==> segs[i].base == a) && forall j :: 0 <= j < i ==> segs[j].base != a
    {
      i := 0;
      while i < |segs| && segs[i].base != a
        invariant i <= |segs| && forall j :: 0 <= j < i ==> segs[j].base != a
      {
        i := i + 1;
      }
    }

    /** The first segment is the one that holds the top chunk. */
    lemma HoldsTop(i: nat)
      requires Tagged() && i < |segs|
      ensures InSegment(segs[i], top) <==> i == 0
    {
      TopLocated(mem, segs, top, topsize, chunks, i);
    }

    /** Gets memory from the system and uses its front. */
    method SysAlloc(nb: nat) returns (p: Addr)
      requires Valid() && nb <= MAX_SIZE_T && topsize <= nb
      requires (nb < MAX_REQUEST ==> nb % 8 == 0 && MIN_CHUNK_SIZE <= nb)
      requires Sound(nb) && 0 < |segs|
      modifies this
      ensures Valid() && (p != 0 ==> Took(p, nb, old(InUse())))
      ensures p == 0 ==> unchanged(`mem, `segs, `bins, `dv, `dvsize, `top, `topsize, `shapes, `chunks)
      ensures p == 0 ==> brk == old(brk) || brk.index == |regions|
      ensures p != 0 <==> nb < AnywhereSize(nb) && old(Grants(nb))
      ensures p != 0 ==> Intact(old(mem), old(InUse()), mem, InUse())
    {
      hide Held, Regions, Given, Intact, Filed, HeapTags, Victim, Used, FreeChunks, Took, GranularityAlign, Grants,
           Sound,
           Above;
      TopFacts();
      var asize := GranularityAlign(nb + SYS_ALLOC_PADDING);
      if asize <= nb {
        return 0;
      }
      var found, tbase, tsize, b := MoreCore(nb, asize);
      if !found {
        brk := b;
        return 0;
      }
      ghost var m0, u0 := mem, InUse();
      var i := SegmentEnding(tbase);
      if i < |segs| {
        HoldsTop(i);
      }
      if i < |segs| && InSegment(segs[i], top) {
        ExtendTop(tsize, b);
      } else {
        HoldsTop(0);
        i := SegmentStarting(tbase + tsize);
        if i < |segs| {
          SizeOfGrant(b, tbase, tsize, nb);
          p := PrependAlloc(i, tbase, tsize, nb, b);
          return;
        }
        AddSegment(tbase, tsize, b);
      }
      ghost var m1, u1 := mem, InUse();
      p := AllocateFromTop(nb);
      IntactTwice(m0, u0, m1, u1, mem, InUse());
    }

    lemma SizeOfGrant(b: Break, tbase: Addr, tsize: nat, nb: nat)
      requires Given(b, tbase, tsize) && nb + TOP_FOOT_SIZE < tsize
      ensures nb + MIN_CHUNK_SIZE <= tsize
    {
    }

    /** Free chunks are smaller than nb, and so is the top chunk, but for what it has to keep. */
    ghost predicate Exhausted(nb: nat)
      reads this`mem, this`chunks, this`topsize
    {
      topsize <= nb && forall q :: q in FreeSet() ==> q in mem && mem[q].data.size < nb
    }

    /** When no free chunk is large enough. */
    lemma NoneFits(nb: nat)
      requires forall q :: q in FreeSet() ==> q in mem && mem[q].data.size < nb
      ensures topsize <= nb ==> Exhausted(nb)
      ensures forall x {:trigger BestFree(x, nb, FreeSet(), mem)} :: BestFree(x, nb, FreeSet(), mem)
    {
    }

    lemma NoTrees()
      requires Valid() && bins.treemap == 0
      ensures Binned(shapes.tries) == {}
    {
      BinCount(mem, bins.treebins, bins.treemap, shapes.tries);
      forall i | 0 <= i < 32 ensures Nodes(shapes.tries[i]) == {} {
        BinOf(mem, bins.treebins, bins.treemap, shapes.tries, i);
        MarkedNone(i);
      }
    }

    /** For a small request: neither the small bins nor the tree bins have a chunk that fits. */
    lemma NoSmallFits(idx: nat)
      requires Valid() && idx < 32 && Shr(bins.smallmap, idx) == 0 && bins.treemap == 0
      ensures forall q :: q in Binned(shapes.tries) ==> q in mem && mem[q].data.size < 8 * idx
      ensures forall q :: q in Listed(shapes.lists) ==> q in mem && mem[q].data.size < 8 * idx
    {
      NoSmallFrom(mem, heads, bins.smallmap, shapes.lists, idx);
      NoTrees();
    }

    /** The first small bin that is not empty, of those for nb bytes or more, has the smallest free chunks that
        fit, if the designated victim does not. */
    lemma BestSmall(i: nat, nb: nat)
      requires Valid() && i < 32 && NoneMarked(bins.smallmap, nb / 8, i) && nb % 8 == 0 && nb <= 8 * i
      ensures dvsize < nb ==> forall p {:trigger BestFree(p, nb, FreeSet(), mem)} ::
        p in FreeSet() && p in mem && mem[p].data.size == 8 * i ==> BestFree(p, nb, FreeSet(), mem)
    {
      hide HeapTags, FreeChunks, Used, Marked, Listed, Binned, Bins, Smalls, NoneMarked;
      SizesBetween(mem, heads, bins.smallmap, shapes.lists, nb / 8, i);
      LargeSizes();
      if dvsize < nb {
        forall q | q in FreeSet() && q in mem && nb <= mem[q].data.size ensures 8 * i <= mem[q].data.size {
          if q != dv {
            FreeIsFiled(q);
          }
        }
      }
    }

    /** The chunks in tree bins are larger than those in small bins. */
    lemma LargeSizes()
      requires Valid()
      ensures forall q :: q in Binned(shapes.tries) ==> q in mem && 0x100 <= mem[q].data.size
    {
      BinCount(mem, bins.treebins, bins.treemap, shapes.tries);
      forall q | q in Binned(shapes.tries) ensures q in mem && 0x100 <= mem[q].data.size {
        var i :| 0 <= i < |shapes.tries| && q in Nodes(shapes.tries[i]);
        SizeInBin(mem, bins.treebins, bins.treemap, shapes.tries, i, q);
        BinOf(mem, bins.treebins, bins.treemap, shapes.tries, i);
      }
    }

    /** Serves a small request from the bins, if the choice falls on them: an exact fit in a small bin;
        or else, unless the designated victim fits, a split of the next small bin or the best tree chunk. */
    method MallocSmall(nb: nat) returns (p: Addr)
      requires Valid() && nb % 8 == 0 && MIN_CHUNK_SIZE <= nb < 0x100
      modifies this
      ensures Valid() && (p != 0 ==> Took(p, nb, old(InUse()))) && (p == 0 ==> unchanged(this))
      ensures p == 0 ==> nb <= dvsize || (Shr(bins.smallmap, nb / 8) == 0 && bins.treemap == 0)
      ensures p != 0 && old(dvsize) < nb ==> BestFree(p, nb, old(FreeSet()), old(mem))
      ensures p != 0 && nb <= old(dvsize) ==> WithoutRest(p, nb, old(FreeSet()), old(mem))
      ensures p != 0 ==> !old(Exhausted(nb))
      ensures p != 0 ==> Intact(old(mem), old(InUse()), mem, InUse())
    {
      hide Provided, Intact, Holding, Took, Marked, Shr, Shl, BitToIndex, LeastBit, LeftBits, BitOf, Both;
      var idx := nb / 8;
      var smallbits := Shr(bins.smallmap, idx);
      ExactBin(bins.smallmap, idx);
      if smallbits & 3 != 0 {
        idx := idx + (!smallbits & 1) as nat;
        BestSmall(idx, nb);
        p := AllocateExact(idx, nb);
      } else if nb > dvsize {
        if smallbits != 0 {
          ghost var next := NextSmall(bins.smallmap, idx);
          var leftbits := Both(Shl(smallbits, idx), LeftBits(BitOf(idx)));
          var i := BitToIndex(LeastBit(leftbits)) as nat;
          BestSmall(i, nb);
          p := AllocateFront(i, nb);
        } else if bins.treemap != 0 {
          p := TmallocSmall(nb);
        } else {
          p := 0;
        }
      } else {
        p := 0;
      }
    }

    lemma LargestSizes()
      requires Valid()
      ensures dvsize < MAX_SIZE_T && topsize < MAX_SIZE_T
      ensures 0 < topsize && 0 < |segs|
    {
      TopFacts();
      if dv != 0 {
        FreeIsSized(mem, segs, top, topsize, chunks, dv, heads + 0x100);
      }
    }

    lemma TookFacts(p: Addr, nb: nat, inUse: map<Addr, nat>)
      requires Took(p, nb, inUse)
      ensures p % 8 == 0
    {
    }

    /** When the bins have nothing, or nothing better than the designated victim. */
    lemma BinsSearched(bytes: nat, nb: nat)
      requires Valid() && nb == Needed(bytes)
      requires bytes <= MAX_SMALL_REQUEST ==> nb <= dvsize || (Shr(bins.smallmap, nb / 8) == 0 && bins.treemap == 0)
      requires MAX_SMALL_REQUEST < bytes < MAX_REQUEST && bins.treemap != 0 ==> VictimFits(nb)
      ensures dvsize < nb ==> forall q :: q in FreeSet() ==> q in mem && mem[q].data.size < nb
      ensures nb <= dvsize && bytes > MAX_SMALL_REQUEST ==> BestFree(dv, nb, FreeSet(), mem)
    {
      hide HeapTags, Filed, FreeChunks, Used, Marked, Shr;
      forall q | q in FreeSet() && (dvsize < nb || bytes > MAX_SMALL_REQUEST)
        ensures q in mem && (nb <= mem[q].data.size ==> nb <= dvsize <= mem[q].data.size)
      {
        FreeIsSized(mem, segs, top, topsize, chunks, q, heads + 0x100);
        if q != dv {
          FreeIsFiled(q);
          SearchedBins(bytes, nb, q);
        }
      }
      if nb <= dvsize {
        assert dv in FreeSet();
      }
    }

    lemma SearchedBins(bytes: nat, nb: nat, q: Addr)
      requires Valid() && nb == Needed(bytes) && q in mem && (q in Listed(shapes.lists) || q in Binned(shapes.tries))
      requires mem[q].data.size < MAX_SIZE_T
      requires (bytes <= MAX_SMALL_REQUEST ==> Shr(bins.smallmap, nb / 8) == 0 && bins.treemap == 0)
      requires MAX_SMALL_REQUEST < bytes < MAX_REQUEST && bins.treemap != 0 ==> VictimFits(nb)
      ensures nb <= mem[q].data.size ==> nb <= dvsize <= mem[q].data.size
    {
      hide HeapTags, FreeChunks, Used, Marked, Shr, Listed, Binned, Bins, Smalls;
      if bytes <= MAX_SMALL_REQUEST {
        NoSmallFits(nb / 8);
      } else if bytes < MAX_REQUEST {
        SmallSizes(mem, heads, bins.smallmap, shapes.lists);
        if bins.treemap == 0 {
          NoTrees();
        }
      }
    }

    /** No chunk in the tree bins fits better than the designated victim. */
    ghost predicate VictimFits(nb: nat)
      reads this`mem, this`dvsize, this`shapes
    {
      forall q :: q in Binned(shapes.tries) && q in mem && nb <= mem[q].data.size ==> nb <= dvsize <= mem[q].data.size
    }

    /** The size of the chunk for a request; none is large enough for one that is too large. */
    function Needed(bytes: nat): nat {
      if bytes < MAX_REQUEST then RequestToSize(bytes) else MAX_SIZE_T
    }

    /** Does the system have memory for the request? */
    ghost predicate SystemHas(nb: nat)
      reads this`segs, this`topsize, this`contiguous, this`brk
    {
      0 < |segs| && topsize <= nb < AnywhereSize(nb) && Grants(nb)
    }

    /** Nothing free is large enough for the request, and the system has no memory either. */
    ghost predicate NoRoom(bytes: nat)
      reads this`mem, this`segs, this`chunks, this`topsize, this`contiguous, this`brk
    {
      Exhausted(Needed(bytes)) && !SystemHas(Needed(bytes))
    }

    /** Serves a request from the bins, unless they have nothing better than the designated victim. */
    method MallocFromBins(bytes: nat) returns (p: Addr, nb: nat)
      requires Valid() && bytes < WORD
      modifies this
      ensures Valid() && nb == Needed(bytes) && (p == 0 ==> unchanged(this)) && (bytes >= MAX_REQUEST ==> p == 0)
      ensures p != 0 ==> Took(p, nb, old(InUse())) && Intact(old(mem), old(InUse()), mem, InUse())
      ensures p != 0 ==> !old(Exhausted(nb))
      ensures p != 0 && (bytes > MAX_SMALL_REQUEST || old(dvsize) < nb) ==> BestFree(p, nb, old(FreeSet()), old(mem))
      ensures p != 0 && bytes <= MAX_SMALL_REQUEST && nb <= old(dvsize) ==>
        WithoutRest(p, nb, old(FreeSet()), old(mem))
      ensures p == 0 && dvsize < nb ==> forall q :: q in FreeSet() ==> q in mem && mem[q].data.size < nb
      ensures p == 0 && nb <= dvsize && bytes > MAX_SMALL_REQUEST ==> BestFree(dv, nb, FreeSet(), mem)
    {
      hide Holding, Took, Marked, Shr, Exhausted, BestFree, Intact, FreeChunks, Used;
      p, nb := 0, MAX_SIZE_T;
      if bytes <= MAX_SMALL_REQUEST {
        nb := if bytes < MIN_REQUEST then MIN_CHUNK_SIZE else PadRequest(bytes);
        p := MallocSmall(nb);
      } else if bytes < MAX_REQUEST {
        nb := PadRequest(bytes);
        if bins.treemap != 0 {
          p := TmallocLarge(nb);
        }
      }
      assert nb == Needed(bytes);
      if p == 0 {
        BinsSearched(bytes, nb);
      }
    }

    /** Serves a request from the designated victim, the top chunk or the system. */
    method MallocElsewhere(nb: nat) returns (p: Addr)
      requires Valid() && nb <= MAX_SIZE_T
      requires (nb % 8 == 0 && MIN_CHUNK_SIZE <= nb) || nb == MAX_SIZE_T
      requires dvsize < nb ==> forall q :: q in FreeSet() ==> q in mem && mem[q].data.size < nb
      requires Sound(nb)
      modifies this
      ensures Valid() && (p != 0 ==> Took(p, nb, old(InUse())) && Intact(old(mem), old(InUse()), mem, InUse()))
      ensures p == 0 ==> unchanged(`mem, `segs, `bins, `dv, `dvsize, `top, `topsize, `shapes, `chunks)
      ensures p == 0 <==> old(Exhausted(nb)) && !old(SystemHas(nb))
      ensures p == 0 ==> brk == old(brk) || brk.index == |regions|
      ensures old(dvsize) >= nb ==> p == old(dv)
      ensures nb == MAX_SIZE_T ==> p == 0
    {
      hide Holding, Took, Grants, GranularityAlign, Exhausted, Intact, FreeChunks, Used;
      LargestSizes();
      TooLarge();
      if nb <= dvsize {
        p := AllocateFromVictim(nb);
      } else {
        NoneFits(nb);
        if nb < topsize {
          p := AllocateFromTop(nb);
        } else {
          p := SysAlloc(nb);
        }
      }
    }

    /** Allocates memory for a request of the given size; that fails, with 0, just when nothing free is
        large enough and the system has no memory either. The best fit is used, if there is any; but for a
        small request the designated victim, if that fits and nothing does without a rest. */
    method Malloc(bytes: nat) returns (r: Addr)
      requires Valid() && bytes < WORD && Sound(Needed(bytes))
      modifies this
      ensures Valid()
      ensures r != 0 ==> 8 <= r && r % 8 == 0 && Took(r - 8, RequestToSize(bytes), old(InUse()))
      ensures r == 0 ==> unchanged(`mem, `segs, `bins, `dv, `dvsize, `top, `topsize, `shapes, `chunks)
      ensures r == 0 <==> old(NoRoom(bytes))
      ensures r == 0 ==> brk == old(brk) || brk.index == |regions|
      ensures r != 0 && (bytes > MAX_SMALL_REQUEST || old(dvsize) < Needed(bytes)) ==>
        BestFree(r - 8, Needed(bytes), old(FreeSet()), old(mem))
      ensures r != 0 && bytes <= MAX_SMALL_REQUEST && Needed(bytes) <= old(dvsize) ==>
        r - 8 == old(dv) || WithoutRest(r - 8, Needed(bytes), old(FreeSet()), old(mem))
      ensures r != 0 ==> Intact(old(mem), old(InUse()), mem, InUse())
    {
      hide Holding, Took, SystemHas, Exhausted, BestFree, WithoutRest, Intact, FreeChunks, Used, GranularityAlign;
      LargestSizes();
      var p, nb := MallocFromBins(bytes);
      if p == 0 {
        if dvsize < nb {
          NoneFits(nb);
        }
        ghost var free, m0 := FreeSet(), mem;
        assert dvsize < nb ==> forall x {:trigger BestFree(x, nb, free, m0)} :: BestFree(x, nb, free, m0);
        assert nb <= dvsize && bytes > MAX_SMALL_REQUEST ==> BestFree(dv, nb, free, m0);
        p := MallocElsewhere(nb);
        assert (bytes > MAX_SMALL_REQUEST || old(dvsize) < nb) && p != 0 ==> BestFree(p, nb, free, m0);
      }
      if p != 0 {
        TookFacts(p, nb, old(InUse()));
      }
      r := if p == 0 then 0 else p + 8;
      assert p != 0 ==> r - 8 == p;
    }

    /** Frees memory that was allocated. */
    method Free(r: Addr)
      requires Valid() && (r != 0 ==> 8 <= r && r - 8 in InUse())
      modifies this
      ensures Valid() && InUse() == if r == 0 then old(InUse()) else old(InUse()) - {r - 8}
      ensures r != 0 ==> Intact(old(mem), old(InUse()), mem, InUse())
      ensures r == 0 ==> unchanged(this)
    {
      hide Provided, Intact;
      if r != 0 {
        InUseFacts(r - 8);
        Dispose(r - 8);
      }
    }

    /** Divides a chunk in use behind its first nb bytes. */
    method Divide(p: Addr, nb: nat) returns (r: Addr)
      requires Valid() && p in InUse() && p in mem && nb % 8 == 0 && MIN_CHUNK_SIZE <= nb
      requires nb + MIN_CHUNK_SIZE <= mem[p].data.size
      modifies this
      ensures Valid() && r == p + nb && r !in old(InUse()) && r in mem && p in old(mem)
      ensures InUse() == old(InUse())[p := nb][r := old(mem)[p].data.size - nb]
      ensures Intact(old(mem), old(InUse()), mem, InUse())
    {
      hide Provided, Intact, Filed, HeapTags, FreeChunks, Used, SplitInuse, LinksKept;
      ghost var before, filed := mem, FreeSet() - Victims(dv) - {};
      InUseFacts(p);
      var rsize := mem[p].data.size - nb;
      r := p + nb;
      DivideUsed(mem, segs, top, topsize, chunks, p, nb);
      InuseKept(mem, p, nb, rsize);
      FreeIsChunk(mem, chunks);
      UsedIsChunk(mem, segs, chunks);
      FiledFrame(mem, SplitInuse(mem, p, nb, rsize), heads, bins, shapes, filed, {p, r});
      DivideIntact(mem, segs, top, topsize, chunks, heads + 0x100, p, nb);
      mem, chunks := SplitInuse(mem, p, nb, rsize), chunks + {r};
      if dv != 0 {
        KeptSize(before, mem, {p, r}, dv);
      }
      assert filed == FreeSet() - Victims(dv) - {};
      InUseFacts(r);
    }

    /** Divides a chunk in use and frees what is behind its first nb bytes. */
    method Shrink(p: Addr, nb: nat)
      requires Valid() && p in InUse() && p in mem && nb % 8 == 0 && MIN_CHUNK_SIZE <= nb
      requires nb + MIN_CHUNK_SIZE <= mem[p].data.size
      modifies this
      ensures Valid() && InUse() == old(InUse())[p := nb]
      ensures Intact(old(mem), old(InUse()), mem, InUse())
    {
      hide Provided, Intact, Holding, Used;
      ghost var m0, u0 := mem, InUse();
      var r := Divide(p, nb);
      ghost var m1, u1 := mem, InUse();
      Dispose(r);
      IntactTwice(m0, u0, m1, u1, mem, InUse());
      assert InUse() == old(InUse())[p := nb];
    }

    /** Makes a chunk in use larger, into the top chunk. */
    method ExtendIntoTop(p: Addr, nb: nat)
      requires Valid() && p in InUse() && p in mem && p + mem[p].data.size == top && nb % 8 == 0
      requires mem[p].data.size < nb < mem[p].data.size + topsize
      modifies this
      ensures Valid() && InUse() == old(InUse())[p := nb]
      ensures Intact(old(mem), old(InUse()), mem, InUse())
    {
      hide Provided, Intact, Filed, HeapTags, FreeChunks, Used, GrowTop, LinksKept;
      ghost var before, filed := mem, FreeSet() - Victims(dv) - {};
      InUseFacts(p);
      TopFacts();
      GrowUsed(mem, segs, top, topsize, chunks, p, nb);
      FreeIsChunk(mem, chunks);
      var newtopsize := mem[p].data.size + topsize - nb;
      GrowKept(mem, p, nb, newtopsize);
      FiledFrame(mem, GrowTop(mem, p, nb, newtopsize), heads, bins, shapes, filed, {p, p + nb});
      GrowIntact(mem, segs, top, topsize, chunks, heads + 0x100, p, nb);
      mem := GrowTop(mem, p, nb, newtopsize);
      top, topsize := p + nb, newtopsize;
      if dv != 0 {
        KeptSize(before, mem, {p, p + nb}, dv);
      }
    }

    /** Takes the free chunk behind a chunk in use, which no bin knows of, into it. */
    method AbsorbNext(p: Addr)
      requires p in InUse() && p in mem && p + mem[p].data.size in FreeSet() && p + mem[p].data.size in mem
      requires Holding({p + mem[p].data.size}) && p + mem[p].data.size != dv
      modifies this
      ensures Valid() && p in old(mem) && p + old(mem)[p].data.size in old(mem) && p in mem && p in InUse()
      ensures mem[p].data.size == old(mem)[p].data.size + old(mem)[p + old(mem)[p].data.size].data.size
      ensures InUse() == old(InUse())[p := mem[p].data.size]
      ensures Intact(old(mem), old(InUse()), mem, InUse())
    {
      hide Provided, Intact, Filed, HeapTags, FreeChunks, Used, SetInuse, LinksKept;
      var next := p + mem[p].data.size;
      ghost var before, filed := mem, FreeSet() - Victims(dv) - {next};
      InUseFacts(p);
      AbsorbUsed(mem, segs, top, topsize, chunks, p);
      var size := mem[p].data.size + mem[next].data.size;
      SetInuseKept(mem, p, size);
      FreeIsChunk(mem, chunks);
      FiledFrame(mem, SetInuse(mem, p, size), heads, bins, shapes, filed, {p});
      AbsorbIntact(mem, segs, top, topsize, chunks, heads + 0x100, p);
      mem, chunks := SetInuse(mem, p, size), chunks - {next};
      if dv != 0 {
        KeptSize(before, mem, {p}, dv);
      }
      assert filed == FreeSet() - Victims(dv) - {};
      InUseFacts(p);
    }

    /** Makes a chunk in use larger, into the designated victim, which loses its front or vanishes. */
    method ExtendIntoVictim(p: Addr, nb: nat)
      requires Valid() && p in InUse() && p in mem && dv != 0 && p + mem[p].data.size == dv && dv != top && nb % 8 == 0
      requires mem[p].data.size < nb <= mem[p].data.size + dvsize
      modifies this
      ensures Valid() && p in InUse() && InUse() == old(InUse())[p := InUse()[p]]
      ensures nb <= InUse()[p] < nb + MIN_CHUNK_SIZE
      ensures Intact(old(mem), old(InUse()), mem, InUse())
    {
      hide Provided, Intact, Filed, HeapTags, FreeChunks, Used, LinksKept, SetInuse, SplitVictim;
      ghost var filed := FreeSet() - Victims(dv) - {};
      InUseFacts(p);
      FreeIsChunk(mem, chunks);
      var oldsize := mem[p].data.size;
      var dsize := oldsize + dvsize - nb;
      if dsize >= MIN_CHUNK_SIZE {
        var r := p + nb;
        VictimSplit(mem, segs, top, topsize, chunks, p, nb);
        VictimKept(mem, p, nb, dsize);
        FiledFrame(mem, SplitVictim(mem, p, nb, dsize), heads, bins, shapes, filed, {p, r});
        VictimIntact(mem, segs, top, topsize, chunks, heads + 0x100, p, nb, dv, dsize);
        mem, chunks := SplitVictim(mem, p, nb, dsize), chunks - {dv} + {r};
        dvsize, dv := dsize, r;
      } else {
        AbsorbUsed(mem, segs, top, topsize, chunks, p);
        SetInuseKept(mem, p, oldsize + dvsize);
        FiledFrame(mem, SetInuse(mem, p, oldsize + dvsize), heads, bins, shapes, filed, {p});
        AbsorbIntact(mem, segs, top, topsize, chunks, heads + 0x100, p);
        mem, chunks := SetInuse(mem, p, oldsize + dvsize), chunks - {dv};
        dvsize, dv := 0, 0;
      }
      assert filed == FreeSet() - Victims(dv) - {};
    }

    /** Makes a chunk in use larger, into the free chunk behind it; what is too much is freed again. */
    method ExtendIntoNext(p: Addr, nb: nat)
      requires Valid() && p in InUse() && p in mem && nb % 8 == 0 && MIN_CHUNK_SIZE <= nb
      requires var next := p + mem[p].data.size;
        && next in mem && next in FreeSet() && next != dv
        && mem[p].data.size < nb <= mem[p].data.size + mem[next].data.size
      modifies this
      ensures Valid() && p in InUse() && InUse() == old(InUse())[p := InUse()[p]]
      ensures nb <= InUse()[p] < nb + MIN_CHUNK_SIZE
      ensures Intact(old(mem), old(InUse()), mem, InUse())
    {
      hide Provided, Intact, Filed, HeapTags, FreeChunks, Used, SameHeaders;
      InUseFacts(p);
      var oldsize := mem[p].data.size;
      var next := p + oldsize;
      var nextsize := mem[next].data.size;
      ghost var m0, u0 := mem, InUse();
      UnlinkFree(next, nextsize, {});
      HeadersOf(m0, mem, p);
      HeadersOf(m0, mem, next);
      assert {} + {next} == {next};
      ghost var m1, u1 := mem, InUse();
      AbsorbNext(p);
      IntactTwice(m0, u0, m1, u1, mem, InUse());
      if oldsize + nextsize - nb >= MIN_CHUNK_SIZE {
        m1, u1 := mem, InUse();
        Shrink(p, nb);
        IntactTwice(m0, u0, m1, u1, mem, InUse());
      }
    }

    /** Is chunk p large enough for nb bytes, or large enough with the free space behind it? */
    ghost predicate FitsInPlace(p: Addr, nb: nat)
      reads this`mem, this`chunks, this`top, this`topsize
    {
      && p in mem
      && var size := mem[p].data.size; var next := p + size;
      || nb <= size
      || (next == top && nb < size + topsize)
      || (next in FreeSet() && next in mem && nb <= size + mem[next].data.size)
    }

    /** Makes a chunk in use fit a request where it is, just when the space behind it allows that. */
    method TryReallocChunk(p: Addr, nb: nat) returns (newp: Addr)
      requires Valid() && p in InUse() && p in mem && nb % 8 == 0 && MIN_CHUNK_SIZE <= nb
      modifies this
      ensures Valid() && (newp == 0 || newp == p) && (newp == 0 ==> unchanged(this))
      ensures newp != 0 <==> old(FitsInPlace(p, nb))
      ensures newp != 0 ==>
        p in InUse() && nb <= InUse()[p] < nb + MIN_CHUNK_SIZE && InUse() == old(InUse())[p := InUse()[p]]
      ensures newp == 0 ==> InUse()[p] < nb
      ensures Intact(old(mem), old(InUse()), mem, InUse())
    {
      hide Provided, Intact, Filed, HeapTags, FreeChunks, Used, SameHeaders;
      InUseFacts(p);
      TopFacts();
      NothingWritten();
      FreeIsChunk(mem, chunks);
      var oldsize := mem[p].data.size;
      var next := p + oldsize;
      newp := 0;
      if oldsize >= nb {
        if oldsize - nb >= MIN_CHUNK_SIZE {
          Shrink(p, nb);
        }
        newp := p;
      } else if next == top {
        if oldsize + topsize > nb {
          ExtendIntoTop(p, nb);
          newp := p;
        }
      } else if next == dv {
        if oldsize + dvsize >= nb {
          ExtendIntoVictim(p, nb);
          newp := p;
        }
      } else if !mem[next].data.cinuse {
        if oldsize + mem[next].data.size >= nb {
          ExtendIntoNext(p, nb);
          newp := p;
        }
      }
    }

    lemma SizeInUse(p: Addr)
      requires Valid() && p in InUse()
      ensures MIN_CHUNK_SIZE <= InUse()[p]
    {
      InUseFacts(p);
    }

    lemma ValidInUse(p: Addr)
      requires Valid() && p in InUse()
      ensures p in mem && InUse()[p] == mem[p].data.size && mem[p].data.size % 8 == 0 && p % 8 == 0
    {
      InUseFacts(p);
    }

    /** Copies the first n bytes of what chunk p has into chunk q. */
    method CopyContents(p: Addr, q: Addr, n: nat)
      requires Valid() && p in InUse() && q in InUse() && p != q && n + 4 <= InUse()[p] && n + 8 <= InUse()[q]
      modifies this`mem
      ensures Valid() && InUse() == old(InUse()) && Copied(old(mem), p + 8, mem, q + 8, n)
      ensures Intact(old(mem), old(InUse()) - {q}, mem, InUse())
    {
      hide Provided, Intact, Filed, HeapTags, FreeChunks, Used, LinksKept, Granted, Copied, Stretch, AllLinks;
      InUseFacts(p);
      InUseFacts(q);
      ghost var before, filed := mem, FreeSet() - Victims(dv) - {};
      InsideGranted(mem, segs, top, topsize, chunks, p, n);
      InsideGranted(mem, segs, top, topsize, chunks, q, n);
      ChunksDisjoint(mem, segs, top, topsize, chunks, p, q);
      mem := CopyWords(mem, q + 8, p + 8, n);
      InsideFrame(before, mem, segs, top, topsize, chunks, q);
      InsideApart(before, mem, segs, top, topsize, chunks, heads + 0x100, q);
      ghost var inside := Stretch(before, q + 1, q + before[q].data.size);
      SameOutside(before, mem, q + 1, q + before[q].data.size);
      FreeIsChunk(before, chunks);
      NoChunkIn(before, segs, top, topsize, chunks, q, heads + 0x100, inside);
      FiledFrame(before, mem, heads, bins, shapes, filed, inside);
      if dv != 0 {
        KeptSize(before, mem, inside, dv);
      }
    }

    /** Moves what chunk p has, as far as it is among the first bytes, to chunk q, and frees p. */
    method MoveContents(p: Addr, q: Addr, bytes: nat)
      requires Valid() && p in InUse() && q in InUse() && p != q && InUse()[p] + 4 <= InUse()[q] && 4 <= InUse()[p]
      modifies this
      ensures Valid() && InUse() == old(InUse()) - {p}
      ensures Copied(old(mem), p + 8, mem, q + 8, Min(Payload(old(InUse())[p]), bytes))
      ensures Intact(old(mem), old(InUse()) - {q}, mem, InUse())
    {
      hide Provided, Intact, Holding, Used, Copied;
      ValidInUse(p);
      ValidInUse(q);
      ghost var m0, u0 := mem, InUse();
      var n := Min(Payload(mem[p].data.size), bytes);
      GrantedInside(p, n);
      CopyContents(p, q, n);
      ghost var m1, u1 := mem, InUse();
      ValidInUse(p);
      Dispose(p);
      SameInsideSelf(m0, p, u0[p]);
      IntactAt(m1, u1, mem, InUse(), q);
      CopiedFrame(m0, m0, p, u0[p], m1, mem, q, u0[q], n, p + 8, q + 8);
      IntactTwice(m0, u0 - {q}, m1, u1, mem, InUse());
    }

    lemma GrantedInside(p: Addr, n: nat)
      requires Valid() && p in InUse() && n + 4 <= InUse()[p]
      ensures Granted(mem, p + 8, n)
    {
      InUseFacts(p);
      InsideGranted(mem, segs, top, topsize, chunks, p, n);
    }

    /** Allocates memory for what chunk p has, moves it there, and frees p. */
    method ReallocElsewhere(p: Addr, bytes: nat) returns (r: Addr)
      requires Valid() && bytes < MAX_REQUEST && p in InUse() && InUse()[p] < RequestToSize(bytes) && 4 <= InUse()[p]
      requires Sound(Needed(bytes))
      modifies this
      ensures Valid()
      ensures r == 0 ==> InUse() == old(InUse()) && mem == old(mem)
      ensures r == 0 <==> old(NoRoom(bytes))
      ensures r != 0 ==> 8 <= r && r - 8 in InUse() && r - 8 !in old(InUse())
      ensures r != 0 ==> RequestToSize(bytes) <= InUse()[r - 8] < RequestToSize(bytes) + MIN_CHUNK_SIZE
      ensures r != 0 ==> InUse() == (old(InUse()) - {p})[r - 8 := InUse()[r - 8]]
      ensures r != 0 ==> Copied(old(mem), p + 8, mem, r, Min(Payload(old(InUse())[p]), bytes))
      ensures r != 0 ==> Intact(old(mem), old(InUse()) - {p}, mem, InUse())
    {
      hide Provided, Intact, Holding, Used, Copied;
      ValidInUse(p);
      ghost var m0, u0 := mem, InUse();
      ghost var n := Min(Payload(u0[p]), bytes);
      GrantedInside(p, n);
      r := Malloc(bytes);
      if r != 0 {
        ghost var q, m1, u1 := r - 8, mem, InUse();
        ValidInUse(p);
        ValidInUse(q);
        MoveContents(p, r - 8, bytes);
        IntactAt(m0, u0, m1, u1, p);
        ValidInUse(q);
        SameInsideSelf(mem, q, u1[q]);
        CopiedFrame(m0, m1, p, u0[p], mem, mem, q, u1[q], n, p + 8, q + 8);
        FewerIntact(m0, u0, m1, u1, {p}, {q});
        IntactTwice(m0, u0 - {p}, m1, u1 - {q}, mem, InUse());
      }
    }

    /** Changes the size of allocated memory: in place if possible, or else by moving it. What it had is
        kept, as far as the new size allows, and so is what all other chunks in use have. It fails just when
        there is no room behind the chunk and none can be allocated either. For no bytes, the memory is freed. */
    method Realloc(oldmem: Addr, bytes: nat) returns (r: Addr)
      requires Valid() && bytes < WORD && (oldmem != 0 ==> 8 <= oldmem && oldmem - 8 in InUse())
      requires Sound(Needed(bytes))
      modifies this
      ensures Valid()
      ensures oldmem == 0 && r != 0 ==>
        8 <= r && Took(r - 8, RequestToSize(bytes), old(InUse())) && Intact(old(mem), old(InUse()), mem, InUse())
      ensures oldmem != 0 && r != 0 ==> 8 <= r && r - 8 in InUse()
      ensures oldmem != 0 && r != 0 ==>
        RequestToSize(bytes) <= InUse()[r - 8] < RequestToSize(bytes) + MIN_CHUNK_SIZE
      ensures oldmem == 0 ==> (r == 0 <==> old(NoRoom(bytes)))
      ensures oldmem != 0 ==>
        (r == 0 <==>
           bytes == 0 || bytes >= MAX_REQUEST
           || (!old(FitsInPlace(oldmem - 8, RequestToSize(bytes))) && old(NoRoom(bytes))))
      ensures oldmem != 0 && r != 0 ==> (r == oldmem <==> old(FitsInPlace(oldmem - 8, RequestToSize(bytes))))
      ensures oldmem != 0 && r != 0 ==> InUse() == (old(InUse()) - {oldmem - 8})[r - 8 := InUse()[r - 8]]
      ensures oldmem != 0 && r != 0 && r != oldmem ==> r - 8 !in old(InUse())
      ensures oldmem != 0 && r != 0 ==> Copied(old(mem), oldmem, mem, r, Min(Payload(old(InUse())[oldmem - 8]), bytes))
      ensures oldmem != 0 && r != 0 ==> Intact(old(mem), old(InUse()) - {oldmem - 8}, mem, InUse())
      ensures oldmem != 0 && bytes == 0 ==>
        InUse() == old(InUse()) - {oldmem - 8} && Intact(old(mem), old(InUse()), mem, InUse())
      ensures r == 0 && (oldmem == 0 || bytes != 0) ==> InUse() == old(InUse()) && mem == old(mem)
    {
      hide Holding, Used, Intact, Copied;
      r := 0;
      if oldmem == 0 {
        r := Malloc(bytes);
      } else if bytes >= MAX_REQUEST {
      } else if bytes == 0 {
        Free(oldmem);
      } else {
        var oldp := oldmem - 8;
        ValidInUse(oldp);
        SizeInUse(oldp);
        ghost var m0, u0 := mem, InUse();
        ghost var n := Min(Payload(u0[oldp]), bytes);
        GrantedInside(oldp, n);
        var newp := TryReallocChunk(oldp, RequestToSize(bytes));
        if newp != 0 {
          r := newp + 8;
          IntactAt(m0, u0, mem, InUse(), oldp);
          CopiedSelf(m0, mem, oldp, Min(u0[oldp], InUse()[oldp]), n, oldmem);
          FewerIntact(m0, u0, mem, InUse(), {oldp}, {});
          assert InUse() - {} == InUse();
        } else {
          r := ReallocElsewhere(oldp, bytes);
        }
      }
    }

    /** The least power of two from 16 on that is at least the alignment, if there is one among machine words. */
    method RoundAlignment(alignment: nat) returns (a: nat)
      requires RoundingEnds(alignment)
      ensures a == Rounded(alignment, MIN_CHUNK_SIZE)
      ensures MIN_CHUNK_SIZE <= a <= 0x8000_0000 && alignment <= a && (a == MIN_CHUNK_SIZE || a < 2 * alignment)
      ensures a % 16 == 0
      ensures exists k :: a == Pow2(k)
    {
      hide Double32, Pow2, RoundingEnds;
      RoundingEndsUpTo(alignment);
      a := MIN_CHUNK_SIZE;
      ghost var k := 4;
      Pow2Values();
      while a < alignment
        invariant a == Pow2(k) && 4 <= k <= 31 && (a == MIN_CHUNK_SIZE || a < 2 * alignment) && a % 16 == 0
        invariant Rounded(alignment, a) == Rounded(alignment, MIN_CHUNK_SIZE)
        decreases alignment - a
      {
        NextPower(k);
        a := Double32(a);
        k := k + 1;
      }
      Pow2Mono(k, 31);
    }

    lemma NextPower(k: nat)
      requires k <= 31 && Pow2(k) < 0x8000_0000
      ensures k < 31 && Pow2(k + 1) == 2 * Pow2(k) && (Pow2(k) % 16 == 0 ==> Pow2(k + 1) % 16 == 0)
    {
      assert Pow2(k + 1) == 2 * Pow2(k);
      hide Pow2;
      Pow2Values();
      Sixteenths(Pow2(k));
    }

    lemma Sixteenths(a: nat)
      ensures a % 16 == 0 ==> 2 * a % 16 == 0
    {
    }

    /** Gives back what is too much in front of an aligned address in chunk p. */
    method TrimFront(p: Addr, a: nat) returns (newp: Addr)
      requires Valid() && p in InUse() && p in mem && a % 16 == 0 && MIN_CHUNK_SIZE <= a
      requires a + MIN_CHUNK_SIZE + MIN_CHUNK_SIZE <= mem[p].data.size
      modifies this
      ensures Valid() && newp in InUse() && newp in mem && Aligned(newp + 8, a) && p in old(mem)
      ensures newp != p ==> newp !in old(InUse())
      ensures InUse() == (old(InUse()) - {p})[newp := InUse()[newp]]
      ensures p <= newp && InUse()[newp] == old(mem)[p].data.size - (newp - p) && newp - p < a + MIN_CHUNK_SIZE
      ensures Intact(old(mem), old(InUse()), mem, InUse())
    {
      hide Provided, Intact, Holding, Used, AlignedIn, Aligned;
      ValidInUse(p);
      newp := p;
      NothingWritten();
      ghost var m0, u0 := mem, InUse();
      AlignedAhead(p, a);
      if !Aligned(p + 8, a) {
        newp := AlignedIn(p, a);
        var r := Divide(p, newp - p);
        ValidInUse(p);
        ghost var m1, u1 := mem, InUse();
        Dispose(p);
        IntactTwice(m0, u0, m1, u1, mem, InUse());
        ValidInUse(newp);
      }
    }

    /** Gives back what is too much at the end of chunk p. */
    method TrimBack(p: Addr, nb: nat)
      requires Valid() && p in InUse() && nb % 8 == 0 && MIN_CHUNK_SIZE <= nb <= InUse()[p]
      modifies this
      ensures Valid() && p in InUse() && InUse() == old(InUse())[p := InUse()[p]]
      ensures nb <= InUse()[p] <= nb + MIN_CHUNK_SIZE
      ensures Intact(old(mem), old(InUse()), mem, InUse())
    {
      hide Holding, Used, Intact;
      ValidInUse(p);
      NothingWritten();
      if mem[p].data.size > nb + MIN_CHUNK_SIZE {
        Shrink(p, nb);
      }
    }

    /** Gives back what is too much around an aligned place for a chunk of nb bytes in chunk p. */
    method Trim(p: Addr, a: nat, nb: nat) returns (newp: Addr)
      requires Valid() && p in InUse() && a % 16 == 0 && MIN_CHUNK_SIZE <= a && nb % 8 == 0 && MIN_CHUNK_SIZE <= nb
      requires nb + a + MIN_CHUNK_SIZE <= InUse()[p]
      modifies this
      ensures Valid() && newp in InUse() && p <= newp && Aligned(newp + 8, a) && (newp != p ==> newp !in old(InUse()))
      ensures InUse() == (old(InUse()) - {p})[newp := InUse()[newp]] && nb <= InUse()[newp] <= nb + MIN_CHUNK_SIZE
      ensures Intact(old(mem), old(InUse()), mem, InUse())
    {
      hide Holding, Used, Intact, Aligned;
      ValidInUse(p);
      ghost var m0, u0 := mem, InUse();
      newp := TrimFront(p, a);
      ghost var m1, u1 := mem, InUse();
      TrimBack(newp, nb);
      IntactTwice(m0, u0, m1, u1, mem, InUse());
    }

    /** Allocates memory at a multiple of a power of two: a larger chunk is allocated, and what is
        too much in front and behind is freed. */
    method AllocateAligned(a: nat, bytes: nat) returns (r: Addr)
      requires Valid() && MIN_CHUNK_SIZE <= a <= 0x8000_0000 && a % 16 == 0 && bytes < WORD
      requires Sound(Needed(AlignedRequest(bytes, a)))
      modifies this
      ensures Valid()
      ensures r == 0 ==> unchanged(`mem, `segs, `bins, `dv, `dvsize, `top, `topsize, `shapes, `chunks)
      ensures r == 0 <==> bytes >= MAX_REQUEST - a || old(NoRoom(AlignedRequest(bytes, a)))
      ensures r != 0 ==> 8 <= r && Aligned(r, a) && r - 8 in InUse() && r - 8 !in old(InUse())
      ensures r != 0 ==> InUse() == old(InUse())[r - 8 := InUse()[r - 8]]
      ensures r != 0 ==> RequestToSize(bytes) <= InUse()[r - 8] <= RequestToSize(bytes) + MIN_CHUNK_SIZE
      ensures r != 0 ==> Intact(old(mem), old(InUse()), mem, InUse())
    {
      hide Holding, Used, Intact, Aligned, Exhausted, SystemHas, BestFree, Sound, RequestToSize;
      if bytes >= MAX_REQUEST - a {
        return 0;
      }
      var nb := RequestToSize(bytes);
      ghost var m0, u0 := mem, InUse();
      r := Malloc(nb + a + MIN_CHUNK_SIZE - 4);
      if r != 0 {
        var p := r - 8;
        ValidInUse(p);
        ghost var m1, u1 := mem, InUse();
        p := Trim(p, a, nb);
        IntactTwice(m0, u0, m1, u1, mem, InUse());
        r := p + 8;
      }
    }

    /** Allocates memory at a multiple of the alignment, rounded up to a power of two. */
    method Memalign(alignment: nat, bytes: nat) returns (r: Addr)
      requires Valid() && RoundingEnds(alignment) && bytes < WORD
      requires Sound(Needed(AlignedRequest(bytes, Rounded(alignment, MIN_CHUNK_SIZE))))
      modifies this
      ensures Valid()
      ensures r == 0 ==> unchanged(`mem, `segs, `bins, `dv, `dvsize, `top, `topsize, `shapes, `chunks)
      ensures var a := Rounded(alignment, MIN_CHUNK_SIZE);
        r == 0 <==> bytes >= MAX_REQUEST - a || old(NoRoom(AlignedRequest(bytes, a)))
      ensures r != 0 ==> exists k :: alignment <= Pow2(k) && MIN_CHUNK_SIZE <= Pow2(k) && Aligned(r, Pow2(k))
      ensures r != 0 ==> 8 <= r && r - 8 in InUse() && r - 8 !in old(InUse())
      ensures r != 0 ==> InUse() == old(InUse())[r - 8 := InUse()[r - 8]]
      ensures r != 0 ==> RequestToSize(bytes) <= InUse()[r - 8] <= RequestToSize(bytes) + MIN_CHUNK_SIZE
      ensures r != 0 ==> Intact(old(mem), old(InUse()), mem, InUse())
    {
      hide Holding, Used, Intact, Aligned, Sound, RequestToSize, Pow2, Rounded;
      var a := RoundAlignment(alignment);
      r := AllocateAligned(a, bytes);
    }
  }

  lemma NoChunkIn(m: Heap, segs: seq<Segment>, top: Addr, topsize: nat, chunks: set<Addr>, q: Addr, bound: Addr,
                  inside: set<Addr>)
    requires HeapTags(m, segs, top, topsize, chunks) && Above(segs, bound) && q in chunks && q in m
    requires inside == Stretch(m, q + 1, q + m[q].data.size)
    ensures inside !! chunks && forall a :: a in inside ==> bound <= a
  {
    hide HeapTags;
    NoneInside(m, segs, top, topsize, chunks, q);
    AboveAt(m, segs, top, topsize, chunks, bound, q);
  }

  lemma KeptKeys(m: Heap, m': Heap, changed: set<Addr>)
    requires LinksKept(m, m', changed)
    ensures m.Keys <= m'.Keys
  {
  }

  lemma KeptSize(m: Heap, m': Heap, changed: set<Addr>, x: Addr)
    requires LinksKept(m, m', changed) && x in m && x !in changed
    ensures x in m' && m'[x].data.size == m[x].data.size
  {
  }

  /** What is the same when headers are the same. */
  lemma HeadersOf(m: Heap, m': Heap, p: Addr)
    requires SameHeaders(m, m') && p in m
    ensures p in m' && m'[p].data.size == m[p].data.size && m'[p].data.prevFoot == m[p].data.prevFoot
    ensures m'[p].data.pinuse == m[p].data.pinuse && m'[p].data.cinuse == m[p].data.cinuse
  {
  }

  lemma LeftmostKept(m: Heap, m': Heap, chunks: set<Addr>, p: Addr, lo: Addr)
    requires SameHeaders(m, m') && Leftmost(m, chunks, p, lo)
    ensures Leftmost(m', chunks, p, lo)
  {
  }

  lemma WholeKept(m: Heap, p: Addr, size: nat)
    requires p in m && p + size in m
    ensures LinksKept(m, SetInuseAndPinuse(m, p, size), {p})
  {
  }

  lemma FrontKept(m: Heap, p: Addr, nb: nat, rsize: nat)
    requires p in m && p + nb in m && p + nb + rsize in m
    ensures LinksKept(m, SplitFront(m, p, nb, rsize), {p, p + nb})
  {
  }

  lemma FrontInOtherOrder(m: Heap, p: Addr, nb: nat, rsize: nat)
    requires p in m && p + nb in m && p + nb + rsize in m && 0 < nb && 0 < rsize
    ensures p in SetSizeAndPinuseOfFreeChunk(m, p + nb, rsize)
    ensures SetSizeAndPinuseOfInuseChunk(SetSizeAndPinuseOfFreeChunk(m, p + nb, rsize), p, nb) ==
      SplitFront(m, p, nb, rsize)
  {
    var m1 := SetSizeAndPinuseOfInuseChunk(SetSizeAndPinuseOfFreeChunk(m, p + nb, rsize), p, nb);
    var m2 := SplitFront(m, p, nb, rsize);
    assert m1.Keys == m2.Keys;
    assert forall q :: q in m1 ==> m1[q] == m2[q];
  }

  lemma TopKept(m: Heap, top: Addr, topsize: nat, nb: nat)
    requires top in m && top + nb in m && nb <= topsize
    ensures LinksKept(m, SplitTop(m, top, topsize, nb), {top, top + nb})
  {
  }

  lemma InuseKept(m: Heap, p: Addr, nb: nat, rsize: nat)
    requires p in m && p + nb in m && p + nb + rsize in m
    ensures LinksKept(m, SplitInuse(m, p, nb, rsize), {p, p + nb})
  {
  }

  lemma GrowKept(m: Heap, p: Addr, nb: nat, newtopsize: nat)
    requires p in m && p + nb in m
    ensures LinksKept(m, GrowTop(m, p, nb, newtopsize), {p, p + nb})
  {
  }

  lemma SetInuseKept(m: Heap, p: Addr, size: nat)
    requires p in m && p + size in m
    ensures LinksKept(m, SetInuse(m, p, size), {p})
  {
  }

  lemma VictimKept(m: Heap, p: Addr, nb: nat, dsize: nat)
    requires p in m && p + nb in m && p + nb + dsize in m
    ensures LinksKept(m, SplitVictim(m, p, nb, dsize), {p, p + nb})
  {
  }

  lemma SmallSizes(m: Heap, heads: Addr, bits: bv32, lists: seq<seq<Addr>>)
    requires Smalls(m, heads, bits, lists)
    ensures forall q :: q in Listed(lists) ==> q in m && m[q].data.size < 0x100
  {
    forall q | q in Listed(lists) ensures q in m && m[q].data.size < 0x100 {
      var i :| 0 <= i < |lists| && q in lists[i];
      SmallOf(m, heads, bits, lists, i);
      SizeOfSmall(m, heads, i, lists[i], q);
    }
  }

  /** Bins that are all empty. */
  lemma NothingFiled(m: Heap, heads: Addr, b: Lists, s: Shapes)
    requires b.treemap == 0 && b.smallmap == 0 && |b.treebins| == 32 && |s.tries| == 32 && |s.lists| == 32
    requires forall i :: 0 <= i < 32 ==>
      b.treebins[i] == 0 && s.tries[i] == Trie.Nil && s.lists[i] == [] && BinAt(heads, i) in m
    ensures Filed(m, heads, b, s, {})
  {
    forall i | 0 <= i < 32
      ensures !Marked(0, i) && Bin(m, s.tries[i], b.treebins[i], i) && Small(m, heads, i, s.lists[i])
    {
      MarkedNone(i);
    }
  }

}
