/** What the allocator leaves alone: the memory inside of chunks in use. */
module ChunkContents {
  import opened Rings
  import opened TreeIndex
  import opened SizeTrie
  import opened TreeBins
  import opened BoundaryTags
  import opened Segments
  import opened HeapGrowth
  import opened HeapFacts

  function Min(a: nat, b: nat): nat {
    if a < b then a else b
  }

  ghost predicate SameLinks(x: Node<Chunk>, y: Node<Chunk>) {
    && x.forw == y.forw && x.back == y.back && x.data.index == y.data.index
    && x.data.child0 == y.data.child0 && x.data.child1 == y.data.child1 && x.data.parent == y.data.parent
  }

  /** The first n bytes behind the head of chunk q are as they were: all the words that heads of chunks
      could be written to, the links that lie in its first words when it is free, and the last word,
      where the next chunk finds the size of a free chunk before it. */
  ghost predicate SameInside(m: Heap, m': Heap, q: Addr, n: nat) {
    && q in m && q in m' && SameLinks(m[q], m'[q])
    && (forall a :: q < a < q + n && a in m ==> a in m' && m'[a] == m[a])
    && (0 < n && q + n in m ==> q + n in m' && m'[q + n].data.prevFoot == m[q + n].data.prevFoot)
  }

  /** The contents of all chunks that stay in use, as far as they were in use and are. */
  ghost predicate Intact(m: Heap, used: map<Addr, nat>, m': Heap, used': map<Addr, nat>) {
    forall q :: q in used && q in used' ==> SameInside(m, m', q, Min(used[q], used'[q]))
  }

  /** Is a not even at the end of a chunk? */
  ghost predicate Outside(m: Heap, chunks: set<Addr>, a: Addr) {
    forall q :: q in chunks && q in m ==> a < q || q + m[q].data.size < a
  }

  /** What may be written: what is outside of all chunks, and the heads of chunks as they were and as they
      are; but links only in chunks that are not in use, and sizes only behind chunks that are free. */
  ghost predicate Written(m: Heap, m': Heap, chunks: set<Addr>, chunks': set<Addr>, top: Addr, top': Addr,
                          used: map<Addr, nat>, a: Addr)
    requires a in m && a in m'
  {
    || Outside(m, chunks, a)
    || (&& (a in chunks || a in chunks' || a == top || a == top')
        && (a in used ==> SameLinks(m[a], m'[a]))
        && (m'[a].data.prevFoot == m[a].data.prevFoot || (a in chunks' && !m'[a].data.pinuse)))
  }

  ghost predicate OnlyWritten(m: Heap, m': Heap, chunks: set<Addr>, chunks': set<Addr>, top: Addr, top': Addr,
                              used: map<Addr, nat>) {
    m.Keys <= m'.Keys && forall a :: a in m && m'[a] != m[a] ==> Written(m, m', chunks, chunks', top, top', used, a)
  }

  /** What lies inside of a chunk is no chunk. */
  lemma NoneInside(m: Heap, segs: seq<Segment>, top: Addr, topsize: nat, chunks: set<Addr>, q: Addr)
    requires HeapTags(m, segs, top, topsize, chunks) && q in chunks
    ensures q in m && forall a :: q < a < q + m[q].data.size ==> a !in chunks && a != top
  {
    hide HeapTags, Tags;
    var i := Located(m, segs, top, topsize, chunks, q);
    forall a | q < a < q + m[q].data.size ensures a !in chunks && a != top {
      Inside(m, segs[i].base, Stop(segs, top, i), Room(topsize, i), Part(chunks, segs[i]), q, a);
      PartHas(chunks, segs[i], a);
      TopLocated(m, segs, top, topsize, chunks, i);
    }
  }

  /** Writing nothing else keeps the contents of the chunks in use. */
  lemma IntactOf(m: Heap, segs: seq<Segment>, top: Addr, topsize: nat, chunks: set<Addr>,
                 m': Heap, segs': seq<Segment>, top': Addr, topsize': nat, chunks': set<Addr>, bound: Addr)
    requires HeapTags(m, segs, top, topsize, chunks) && HeapTags(m', segs', top', topsize', chunks')
    requires Above(segs, bound) && Above(segs', bound)
    requires OnlyWritten(m, m', chunks, chunks', top, top', Used(m, segs, chunks))
    ensures Intact(m, Used(m, segs, chunks), m', Used(m', segs', chunks'))
  {
    hide HeapTags, Used, SameInside, OnlyWritten;
    var used, used' := Used(m, segs, chunks), Used(m', segs', chunks');
    forall q | q in used && q in used' ensures SameInside(m, m', q, Min(used[q], used'[q])) {
      UsedFacts(m, segs, top, topsize, chunks, bound, q);
      UsedFacts(m', segs', top', topsize', chunks', bound, q);
      NoneInside(m, segs, top, topsize, chunks, q);
      NoneInside(m', segs', top', topsize', chunks', q);
      InsideKept(m, m', chunks, chunks', top, top', used, q, used[q], used'[q]);
    }
  }

  lemma InsideKept(m: Heap, m': Heap, chunks: set<Addr>, chunks': set<Addr>, top: Addr, top': Addr, used: map<Addr,
                   nat>,
                   q: Addr, n: nat, n': nat)
    requires OnlyWritten(m, m', chunks, chunks', top, top', used) && q in chunks && q in m && q in m' && q in used
    requires m[q].data.size == n && 0 < n && 0 < n' && q + n' in m' && m'[q + n'].data.pinuse
    requires forall a :: q < a < q + n ==> a !in chunks && a != top
    requires forall a :: q < a < q + n' ==> a !in chunks' && a != top'
    ensures SameInside(m, m', q, Min(n, n'))
  {
    hide OnlyWritten, Written, Outside, SameLinks;
    var k := Min(n, n');
    CoveredWrites(m, m', chunks, chunks', top, top', used, q, q);
    CoveredWrites(m, m', chunks, chunks', top, top', used, q, q + k);
    forall a | q < a < q + k && a in m ensures a in m' && m'[a] == m[a] {
      CoveredWrites(m, m', chunks, chunks', top, top', used, q, a);
    }
  }

  /** What may be written at address a in chunk q or at its end. */
  lemma CoveredWrites(m: Heap, m': Heap, chunks: set<Addr>, chunks': set<Addr>, top: Addr, top': Addr, used: map<Addr,
                      nat>, q: Addr, a: Addr)
    requires OnlyWritten(m, m', chunks, chunks', top, top', used) && q in chunks && q in m
    requires q <= a <= q + m[q].data.size
    ensures a in m ==> a in m'
    ensures a in m && a !in chunks && a !in chunks' && a != top && a != top' ==> m'[a] == m[a]
    ensures a in m && a in used ==> SameLinks(m[a], m'[a])
    ensures a in m && (a !in chunks' || m'[a].data.pinuse) ==> m'[a].data.prevFoot == m[a].data.prevFoot
  {
    assert !Outside(m, chunks, a);
  }

  lemma SameIntact(m: Heap, used: map<Addr, nat>, used': map<Addr, nat>)
    requires forall q :: q in used ==> q in m
    ensures Intact(m, used, m, used')
  {
  }

  /** One change after the other. */
  lemma IntactTwice(m: Heap, used: map<Addr, nat>, m1: Heap, used1: map<Addr, nat>, m': Heap, used': map<Addr, nat>)
    requires Intact(m, used, m1, used1) && Intact(m1, used1, m', used')
    requires forall q :: q in used && q in used' ==> q in used1 && Min(used[q], used'[q]) <= used1[q]
    ensures Intact(m, used, m', used')
  {
    hide SameInside;
    forall q | q in used && q in used' ensures SameInside(m, m', q, Min(used[q], used'[q])) {
      var n, k, k' := Min(used[q], used'[q]), Min(used[q], used1[q]), Min(used1[q], used'[q]);
      assert SameInside(m, m1, q, k) && SameInside(m1, m', q, k');
      LessInside(m, m1, q, k, n);
      LessInside(m1, m', q, k', n);
      InsideTwice(m, m1, m', q, n);
    }
  }

  lemma LessInside(m: Heap, m': Heap, q: Addr, n: nat, k: nat)
    requires SameInside(m, m', q, n) && k <= n
    ensures SameInside(m, m', q, k)
  {
  }

  lemma InsideTwice(m: Heap, m1: Heap, m': Heap, q: Addr, n: nat)
    requires SameInside(m, m1, q, n) && SameInside(m1, m', q, n)
    ensures SameInside(m, m', q, n)
  {
  }

  /** The head of a chunk is written, and the size before it only when the chunk before it is free. */
  ghost predicate HeadWritten(m: Heap, m': Heap, chunks: set<Addr>, chunks': set<Addr>, top: Addr, top': Addr,
                              a: Addr) {
    && a in m && a in m' && (a in chunks || a in chunks' || a == top || a == top')
    && SameLinks(m[a], m'[a]) && (m'[a].data.prevFoot == m[a].data.prevFoot || (a in chunks' && !m'[a].data.pinuse))
  }

  /** At most three heads are written. */
  lemma HeadsWritten(m: Heap, segs: seq<Segment>, top: Addr, topsize: nat, chunks: set<Addr>,
                     m': Heap, top': Addr, topsize': nat, chunks': set<Addr>, bound: Addr, x: Addr, y: Addr, z: Addr)
    requires HeapTags(m, segs, top, topsize, chunks) && HeapTags(m', segs, top', topsize', chunks')
    requires Above(segs, bound)
    requires m.Keys <= m'.Keys && forall a :: a in m && a != x && a != y && a != z ==> m'[a] == m[a]
    requires HeadWritten(m, m', chunks, chunks', top, top', x) && HeadWritten(m, m', chunks, chunks', top, top', y)
    requires HeadWritten(m, m', chunks, chunks', top, top', z)
    ensures Intact(m, Used(m, segs, chunks), m', Used(m', segs, chunks'))
  {
    assert OnlyWritten(m, m', chunks, chunks', top, top', Used(m, segs, chunks)) by { hide HeapTags, Used; }
    hide HeapTags, Used, OnlyWritten;
    IntactOf(m, segs, top, topsize, chunks, m', segs, top', topsize', chunks', bound);
  }

  ghost predicate AllLinks(m: Heap, m': Heap) {
    forall a :: a in m && a in m' ==> SameLinks(m[a], m'[a])
  }

  lemma WholeLinks(m: Heap, p: Addr, s: nat)
    requires p in m && p + s in m
    ensures AllLinks(m, SetInuseAndPinuse(m, p, s))
  {
  }

  lemma FrontLinks(m: Heap, p: Addr, nb: nat, rsize: nat)
    requires p in m && p + nb in m && p + nb + rsize in m
    ensures AllLinks(m, SplitFront(m, p, nb, rsize))
  {
  }

  lemma FreedLinks(m: Heap, lo: Addr, hi: Addr, merge: bool)
    requires lo in m && hi in m && lo <= hi
    ensures AllLinks(m, FreedRegion(m, lo, hi, merge))
  {
  }

  lemma HeadLinks(m: Heap, p: Addr, size: nat, pinuse: bool, cinuse: bool)
    requires p in m
    ensures AllLinks(m, SetHead(m, p, size, pinuse, cinuse))
  {
  }

  lemma TopLinks(m: Heap, top: Addr, topsize: nat, nb: nat)
    requires top in m && top + nb in m && nb <= topsize
    ensures AllLinks(m, SplitTop(m, top, topsize, nb))
  {
  }

  lemma DivideLinks(m: Heap, p: Addr, nb: nat, rsize: nat)
    requires p in m && p + nb in m && p + nb + rsize in m
    ensures AllLinks(m, SplitInuse(m, p, nb, rsize))
  {
  }

  lemma GrowLinks(m: Heap, p: Addr, nb: nat, newtopsize: nat)
    requires p in m && p + nb in m
    ensures AllLinks(m, GrowTop(m, p, nb, newtopsize))
  {
  }

  lemma InuseLinks(m: Heap, p: Addr, s: nat)
    requires p in m && p + s in m
    ensures AllLinks(m, SetInuse(m, p, s))
  {
  }

  lemma VictimLinks(m: Heap, p: Addr, nb: nat, dsize: nat)
    requires p in m && p + nb in m && p + nb + dsize in m
    ensures AllLinks(m, SplitVictim(m, p, nb, dsize))
  {
  }

  /** Only links of free chunks are written, and the heads of the bins. */
  lemma LinksIntact(m: Heap, m': Heap, segs: seq<Segment>, top: Addr, topsize: nat, chunks: set<Addr>, bound: Addr)
    requires HeapTags(m, segs, top, topsize, chunks) && Above(segs, bound) && SameHeaders(m, m')
    requires forall y :: y in m && bound <= y && y !in FreeChunks(m, chunks) ==> m'[y] == m[y]
    ensures Intact(m, Used(m, segs, chunks), m', Used(m, segs, chunks))
  {
    hide HeapTags;
    HeapFrame(m, m', segs, top, topsize, chunks);
    forall q | q in chunks ensures bound <= q {
      AboveAt(m, segs, top, topsize, chunks, bound, q);
    }
    assert OnlyWritten(m, m', chunks, chunks, top, top, Used(m, segs, chunks));
    IntactOf(m, segs, top, topsize, chunks, m', segs, top, topsize, chunks, bound);
  }

  lemma WholeIntact(m: Heap, segs: seq<Segment>, top: Addr, topsize: nat, chunks: set<Addr>, bound: Addr, p: Addr)
    requires HeapTags(m, segs, top, topsize, chunks) && Above(segs, bound) && p in FreeChunks(m, chunks)
    ensures p in m && p + m[p].data.size in m
    ensures var m' := SetInuseAndPinuse(m, p, m[p].data.size);
      Intact(m, Used(m, segs, chunks), m', Used(m', segs, chunks))
  {
    hide HeapTags, Used, SetInuseAndPinuse, Intact;
    FreeApart(m, segs, top, topsize, chunks, p);
    FreeIsSized(m, segs, top, topsize, chunks, p, bound);
    UseWhole(m, segs, top, topsize, chunks, p);
    WholeEffects(m, p, m[p].data.size);
    WholeLinks(m, p, m[p].data.size);
    HeadsWritten(m, segs, top, topsize, chunks, SetInuseAndPinuse(m, p, m[p].data.size), top, topsize, chunks, bound,
                 p, p, p + m[p].data.size);
  }

  lemma FrontIntact(m: Heap, segs: seq<Segment>, top: Addr, topsize: nat, chunks: set<Addr>, bound: Addr, p: Addr,
                    nb: nat)
    requires HeapTags(m, segs, top, topsize, chunks) && Above(segs, bound) && p in FreeChunks(m, chunks) && p in m
    requires nb % 8 == 0 && MIN_CHUNK_SIZE <= nb && nb + MIN_CHUNK_SIZE <= m[p].data.size
    ensures p + nb in m && p + nb + (m[p].data.size - nb) in m
    ensures var m' := SplitFront(m, p, nb, m[p].data.size - nb);
      Intact(m, Used(m, segs, chunks), m', Used(m', segs, chunks + {p + nb}))
  {
    hide HeapTags, Used, SplitFront, Intact;
    FreeApart(m, segs, top, topsize, chunks, p);
    UseFront(m, segs, top, topsize, chunks, p, nb);
    FrontEffects(m, p, nb, m[p].data.size - nb);
    FrontLinks(m, p, nb, m[p].data.size - nb);
    HeadsWritten(m, segs, top, topsize, chunks, SplitFront(m, p, nb, m[p].data.size - nb), top, topsize,
                 chunks + {p + nb}, bound,
                 p, p + nb, p + m[p].data.size);
  }

  lemma FreedIntact(m: Heap, segs: seq<Segment>, top: Addr, topsize: nat, chunks: set<Addr>, bound: Addr, p: Addr,
                    lo: Addr, hi: Addr, merge: bool)
    requires HeapTags(m, segs, top, topsize, chunks) && Above(segs, bound)
    requires p in Used(m, segs, chunks) && p in m && Leftmost(m, chunks, p, lo)
    requires p + m[p].data.size != top && p + m[p].data.size in m && hi == FreedEnd(m, p + m[p].data.size)
    requires merge == !m[p + m[p].data.size].data.cinuse && lo in m && hi in m && lo < hi
    ensures var m' := FreedRegion(m, lo, hi, merge); var chunks' := chunks - Merged(p, lo, p + m[p].data.size, merge);
      Intact(m, Used(m, segs, chunks), m', Used(m', segs, chunks'))
  {
    hide HeapTags, Used, FreedRegion, Intact, Leftmost;
    AroundUsed(m, segs, top, topsize, chunks, p, lo);
    FreeUsed(m, segs, top, topsize, chunks, p, lo, hi, merge);
    FreedEffects(m, lo, hi, merge);
    FreedLinks(m, lo, hi, merge);
    HeadsWritten(m, segs, top, topsize, chunks, FreedRegion(m, lo, hi, merge), top, topsize,
                 chunks - Merged(p, lo, p + m[p].data.size, merge), bound, lo, lo, hi);
  }

  lemma IntoTopIntact(m: Heap, segs: seq<Segment>, top: Addr, topsize: nat, chunks: set<Addr>, bound: Addr, p: Addr,
                      lo: Addr)
    requires HeapTags(m, segs, top, topsize, chunks) && Above(segs, bound)
    requires p in Used(m, segs, chunks) && p in m && Leftmost(m, chunks, p, lo) && p + m[p].data.size == top
    ensures lo in m && lo < top
    ensures var m' := SetHead(m, lo, topsize + (top - lo), true, false);
      Intact(m, Used(m, segs, chunks), m', Used(m', segs, chunks - {p, lo}))
  {
    hide HeapTags, Used, SetHead, Intact, Leftmost;
    FreeIntoTop(m, segs, top, topsize, chunks, p, lo);
    HeadEffects(m, lo, topsize + (top - lo), true, false);
    HeadLinks(m, lo, topsize + (top - lo), true, false);
    HeadsWritten(m, segs, top, topsize, chunks, SetHead(m, lo, topsize + (top - lo), true, false), lo, topsize
      + (top - lo),
                 chunks - {p, lo}, bound, lo, lo, lo);
  }

  lemma TopIntact(m: Heap, segs: seq<Segment>, top: Addr, topsize: nat, chunks: set<Addr>, bound: Addr, nb: nat)
    requires HeapTags(m, segs, top, topsize, chunks) && Above(segs, bound) && nb % 8 == 0
    requires MIN_CHUNK_SIZE <= nb < topsize
    ensures top in m && top + nb in m
    ensures var m' := SplitTop(m, top, topsize, nb);
      Intact(m, Used(m, segs, chunks), m', Used(m', segs, chunks + {top}))
  {
    hide HeapTags, Used, SplitTop, Intact;
    UseTop(m, segs, top, topsize, chunks, nb);
    SplitTopEffects(m, top, topsize, nb);
    TopLinks(m, top, topsize, nb);
    HeadsWritten(m, segs, top, topsize, chunks, SplitTop(m, top, topsize, nb), top + nb, topsize - nb, chunks
      + {top}, bound,
                 top, top, top + nb);
  }

  lemma DivideIntact(m: Heap, segs: seq<Segment>, top: Addr, topsize: nat, chunks: set<Addr>, bound: Addr, p: Addr,
                     nb: nat)
    requires HeapTags(m, segs, top, topsize, chunks) && Above(segs, bound) && p in Used(m, segs, chunks) && p in m
    requires nb % 8 == 0 && MIN_CHUNK_SIZE <= nb && nb + MIN_CHUNK_SIZE <= m[p].data.size
    ensures p + nb in m && p + nb + (m[p].data.size - nb) in m
    ensures var m' := SplitInuse(m, p, nb, m[p].data.size - nb);
      Intact(m, Used(m, segs, chunks), m', Used(m', segs, chunks + {p + nb}))
  {
    hide HeapTags, Used, SplitInuse, Intact;
    UsedFacts(m, segs, top, topsize, chunks, bound, p);
    DivideUsed(m, segs, top, topsize, chunks, p, nb);
    SplitInuseEffects(m, p, nb, m[p].data.size - nb);
    DivideLinks(m, p, nb, m[p].data.size - nb);
    HeadsWritten(m, segs, top, topsize, chunks, SplitInuse(m, p, nb, m[p].data.size - nb), top, topsize,
                 chunks + {p + nb}, bound,
                 p, p + nb, p + m[p].data.size);
  }

  lemma GrowIntact(m: Heap, segs: seq<Segment>, top: Addr, topsize: nat, chunks: set<Addr>, bound: Addr, p: Addr,
                   nb: nat)
    requires HeapTags(m, segs, top, topsize, chunks) && Above(segs, bound)
    requires p in Used(m, segs, chunks) && p in m && p + m[p].data.size == top
    requires nb % 8 == 0 && m[p].data.size < nb < m[p].data.size + topsize
    ensures p + nb in m
    ensures var m' := GrowTop(m, p, nb, m[p].data.size + topsize - nb);
      Intact(m, Used(m, segs, chunks), m', Used(m', segs, chunks))
  {
    hide HeapTags, Used, GrowTop, Intact;
    UsedFacts(m, segs, top, topsize, chunks, bound, p);
    GrowUsed(m, segs, top, topsize, chunks, p, nb);
    GrowTopEffects(m, p, nb, m[p].data.size + topsize - nb);
    GrowLinks(m, p, nb, m[p].data.size + topsize - nb);
    HeadsWritten(m, segs, top, topsize, chunks, GrowTop(m, p, nb, m[p].data.size + topsize - nb), p + nb,
                 m[p].data.size + topsize - nb, chunks, bound, p, p, p + nb);
  }

  lemma AbsorbIntact(m: Heap, segs: seq<Segment>, top: Addr, topsize: nat, chunks: set<Addr>, bound: Addr, p: Addr)
    requires HeapTags(m, segs, top, topsize, chunks) && Above(segs, bound) && p in Used(m, segs, chunks) && p in m
    requires p + m[p].data.size in FreeChunks(m, chunks)
    ensures var next := p + m[p].data.size;
      && next in m && next + m[next].data.size in m
      && var m' := SetInuse(m, p, m[p].data.size + m[next].data.size);
      Intact(m, Used(m, segs, chunks), m', Used(m', segs, chunks - {next}))
  {
    hide HeapTags, Used, SetInuse, Intact;
    var next := p + m[p].data.size;
    UsedFacts(m, segs, top, topsize, chunks, bound, p);
    FreeApart(m, segs, top, topsize, chunks, next);
    AbsorbUsed(m, segs, top, topsize, chunks, p);
    SetInuseEffects(m, p, m[p].data.size + m[next].data.size);
    InuseLinks(m, p, m[p].data.size + m[next].data.size);
    HeadsWritten(m, segs, top, topsize, chunks, SetInuse(m, p, m[p].data.size + m[next].data.size), top, topsize,
                 chunks - {next}, bound,
                 p, p, next + m[next].data.size);
  }

  lemma VictimIntact(m: Heap, segs: seq<Segment>, top: Addr, topsize: nat, chunks: set<Addr>, bound: Addr, p: Addr,
                     nb: nat, next: Addr, dsize: nat)
    requires HeapTags(m, segs, top, topsize, chunks) && Above(segs, bound) && p in Used(m, segs, chunks) && p in m
    requires nb % 8 == 0
    requires next == p + m[p].data.size && next in FreeChunks(m, chunks) && next in m
    requires dsize == next + m[next].data.size - (p + nb)
    requires m[p].data.size < nb && nb + MIN_CHUNK_SIZE <= m[p].data.size + m[next].data.size
    requires p + nb in m && p + nb + dsize in m
    ensures var m' := SplitVictim(m, p, nb, dsize);
      Intact(m, Used(m, segs, chunks), m', Used(m', segs, chunks - {next} + {p + nb}))
  {
    hide HeapTags, Used, SplitVictim, Intact, FreeChunks;
    UsedFacts(m, segs, top, topsize, chunks, bound, p);
    FreeApart(m, segs, top, topsize, chunks, next);
    FreeIsSized(m, segs, top, topsize, chunks, next, bound);
    VictimSplit(m, segs, top, topsize, chunks, p, nb);
    SplitVictimEffects(m, p, nb, dsize);
    VictimLinks(m, p, nb, dsize);
    HeadsWritten(m, segs, top, topsize, chunks, SplitVictim(m, p, nb, dsize), top, topsize,
                 chunks - {next} + {p + nb}, bound,
                 p, p + nb, p + nb + dsize);
  }

  lemma SplitVictimEffects(m: Heap, p: Addr, nb: nat, dsize: nat)
    requires p in m && p + nb in m && p + nb + dsize in m && 0 < nb && 0 < dsize
    ensures var m' := SplitVictim(m, p, nb, dsize);
      && m'.Keys == m.Keys && (forall q :: q in m && q != p && q != p + nb && q != p + nb + dsize ==> m'[q] == m[q])
      && m'[p].data == m[p].data.(size := nb, cinuse := true)
      && m'[p + nb].data == m[p + nb].data.(size := dsize, pinuse := true, cinuse := false)
      && m'[p + nb + dsize].data == m[p + nb + dsize].data.(pinuse := false, prevFoot := dsize)
  {
  }

  /** Neither what is in no segment nor what is behind the head of the top chunk is in a chunk or at its end. */
  lemma OutsideChunks(m: Heap, segs: seq<Segment>, top: Addr, topsize: nat, chunks: set<Addr>, a: Addr)
    requires HeapTags(m, segs, top, topsize, chunks)
    requires (forall i :: 0 <= i < |segs| ==> !InSegment(segs[i], a)) || top < a < EndOf(segs[0])
    ensures Outside(m, chunks, a)
  {
    hide HeapTags, Tags;
    TopSegment(m, segs, top, topsize, chunks);
    forall q | q in chunks && q in m ensures a < q || q + m[q].data.size < a {
      var i := Located(m, segs, top, topsize, chunks, q);
      if i > 0 {
        SegmentsDiffer(m, segs, top, topsize, chunks, 0, i);
      }
    }
  }

  lemma AppendIntact(m: Heap, space: Heap, segs: seq<Segment>, top: Addr, topsize: nat, chunks: set<Addr>, bound: Addr,
                     more: nat)
    requires HeapTags(m, segs, top, topsize, chunks) && Above(segs, bound) && more % 8 == 0
    requires EndOf(segs[0]) + more <= WORD
    requires Unused(segs, EndOf(segs[0]), more) && Granted(space, EndOf(segs[0]), more)
    requires top in m && top + topsize + more in space + m
    ensures var m' := GrownTop(m, space, top, topsize, more);
      var segs' := segs[0 := segs[0].(size := segs[0].size + more)];
      Intact(m, Used(m, segs, chunks), m', Used(m', segs', chunks))
  {
    hide HeapTags, Used, GrownTop, Intact, OnlyWritten, Outside, Granted;
    TopSegment(m, segs, top, topsize, chunks);
    TopNotUsed(m, segs, top, topsize, chunks);
    Appended(m, space, segs, top, topsize, chunks, more);
    GrownTopEffects(m, space, top, topsize, more);
    OutsideChunks(m, segs, top, topsize, chunks, top + topsize + more);
    var m', segs' := GrownTop(m, space, top, topsize, more), segs[0 := segs[0].(size := segs[0].size + more)];
    WritesOutside(m, m', chunks, chunks, top, top, Used(m, segs, chunks), top + topsize + more);
    IntactOf(m, segs, top, topsize, chunks, m', segs', top, topsize + more, chunks, bound);
  }

  /** The old top chunk is written, and what is outside of all chunks. */
  lemma WritesOutside(m: Heap, m': Heap, chunks: set<Addr>, chunks': set<Addr>, top: Addr, top': Addr, used: map<Addr,
                      nat>, x: Addr)
    requires m.Keys <= m'.Keys && forall a :: a in m && m'[a] != m[a] ==> a == top || a == x || Outside(m, chunks, a)
    requires Outside(m, chunks, x) && top !in used && top in m && m'[top].data.prevFoot == m[top].data.prevFoot
    ensures OnlyWritten(m, m', chunks, chunks', top, top', used)
  {
  }

  lemma PrependIntact(m: Heap, space: Heap, segs: seq<Segment>, top: Addr, topsize: nat, chunks: set<Addr>, bound: Addr,
                      i: nat, base: Addr, size: nat)
    requires HeapTags(m, segs, top, topsize, chunks) && Above(segs, bound) && i < |segs| && base + size == segs[i].base
    requires size % 8 == 0
    requires MIN_CHUNK_SIZE <= size && bound <= base && 0 < base && Unused(segs, base, size)
    requires Granted(space, base, size) && base in space
    ensures var m' := NewChunk(m, space, base, size);
      var segs' := segs[i := Segment(base, segs[i].size + size, segs[i].record)];
      Intact(m, Used(m, segs, chunks), m', Used(m', segs', chunks + {base}))
  {
    hide HeapTags, Used, NewChunk, Intact, OnlyWritten, Outside, Granted;
    TopSegment(m, segs, top, topsize, chunks);
    TopNotUsed(m, segs, top, topsize, chunks);
    Prepended(m, space, segs, top, topsize, chunks, i, base, size);
    NewChunkEffects(m, space, base, size);
    NotInRegion(m, segs, top, topsize, chunks, base, size);
    OutsideChunks(m, segs, top, topsize, chunks, base);
    var m', segs' := NewChunk(m, space, base, size), segs[i := Segment(base, segs[i].size + size, segs[i].record)];
    WritesOutside(m, m', chunks, chunks + {base}, top, top, Used(m, segs, chunks), base);
    IntactOf(m, segs, top, topsize, chunks, m', segs', top, topsize, chunks + {base}, bound);
  }

  lemma TopNotUsed(m: Heap, segs: seq<Segment>, top: Addr, topsize: nat, chunks: set<Addr>)
    requires HeapTags(m, segs, top, topsize, chunks)
    ensures top !in Used(m, segs, chunks)
  {
    TopSegment(m, segs, top, topsize, chunks);
  }

  lemma NewTopIntact(m: Heap, space: Heap, m': Heap, segs: seq<Segment>, top: Addr, topsize: nat, chunks: set<Addr>,
                     bound: Addr,
                     base: Addr, size: nat, sp: Addr)
    requires HeapTags(m, segs, top, topsize, chunks) && Above(segs, bound) && bound <= base
    requires sp == RecordPlace(top, topsize)
    requires Unused(segs, base, size) && Granted(space, base, size) && base in space
    requires base + size - TOP_FOOT_SIZE in space
    requires base % 8 == 0 && 0 < base && size % 8 == 0 && TOP_FOOT_SIZE < size && base + size <= WORD
    requires Closing(FirstMemory(space + m, base, size - TOP_FOOT_SIZE), m', top, topsize, sp)
    ensures var used' := Used(m', WithSegment(segs, base, size, sp), chunks + ClosingChunks(top, sp));
      Intact(m, Used(m, segs, chunks), m', used')
  {
    hide HeapTags, Used, FirstMemory, Intact, OnlyWritten, Outside, Granted, Closing, WithSegment, ClosingChunks;
    TopSegment(m, segs, top, topsize, chunks);
    TopNotUsed(m, segs, top, topsize, chunks);
    SegmentAdded(m, space, m', segs, top, topsize, chunks, base, size, sp);
    FirstKept(m, space, base, size);
    var first := FirstMemory(space + m, base, size - TOP_FOOT_SIZE);
    ClosingFacts(first, m', top, topsize, sp);
    assert base + size <= segs[0].base || EndOf(segs[0]) <= base;
    forall a | a in m && m'[a] != m[a] && a != top ensures Outside(m, chunks, a) {
      OutsideChunks(m, segs, top, topsize, chunks, a);
    }
    AboveNew(segs, base, size, sp, bound);
    WritesBehind(m, m', chunks, chunks + ClosingChunks(top, sp), top, base, Used(m, segs, chunks));
    IntactOf(m, segs, top, topsize, chunks, m', WithSegment(segs, base, size, sp), base, size - TOP_FOOT_SIZE,
             chunks + ClosingChunks(top, sp), bound);
  }

  lemma WritesBehind(m: Heap, m': Heap, chunks: set<Addr>, chunks': set<Addr>, top: Addr, top': Addr, used: map<Addr,
                     nat>)
    requires m.Keys <= m'.Keys && forall a :: a in m && m'[a] != m[a] && a != top ==> Outside(m, chunks, a)
    requires top !in used && top in m && m'[top].data.prevFoot == m[top].data.prevFoot
    ensures OnlyWritten(m, m', chunks, chunks', top, top', used)
  {
  }

  lemma AboveNew(segs: seq<Segment>, base: Addr, size: nat, sp: Addr, bound: Addr)
    requires Above(segs, bound) && 0 < |segs| && bound <= base
    ensures Above(WithSegment(segs, base, size, sp), bound)
  {
    var segs' := WithSegment(segs, base, size, sp);
    assert forall i :: 2 <= i < |segs'| ==> segs'[i] == segs[i - 1];
  }

  /** The first n bytes from address from on are now found from address to on: at every aligned address
      there are two words, one that can hold the size of a free chunk and one that can be a head. */
  ghost predicate Copied(m: Heap, from: Addr, m': Heap, to: Addr, n: nat) {
    forall d: nat :: CopiedAt(m, from, m', to, n, d)
  }

  ghost predicate CopiedAt(m: Heap, from: Addr, m': Heap, to: Addr, n: nat, d: nat) {
    d % 8 == 0 && d + 4 <= n ==>
      && from + d in m && to + d in m' && m'[to + d].data.prevFoot == m[from + d].data.prevFoot
      && (d + 8 <= n ==> SameHead(m[from + d].data, m'[to + d].data))
  }

  ghost predicate SameHead(x: Chunk, y: Chunk) {
    x.size == y.size && x.pinuse == y.pinuse && x.cinuse == y.cinuse
  }

  function StoreCell(m: Heap, a: Addr, x: Chunk): Heap
    requires a in m
  {
    SetFoot(SetHead(m, a, x.size, x.pinuse, x.cinuse), a, x.prevFoot)
  }

  lemma StoreEffects(m: Heap, a: Addr, x: Chunk)
    requires a in m
    ensures var m' := StoreCell(m, a, x);
      && m'.Keys == m.Keys && (forall c :: c in m && c != a ==> m'[c] == m[c]) && AllLinks(m, m')
      && SameHead(x, m'[a].data) && m'[a].data.prevFoot == x.prevFoot
  {
  }

  /** Copies the words that the first n bytes have. */
  method CopyWords(m: Heap, to: Addr, from: Addr, n: nat) returns (m': Heap)
    requires to % 8 == 0 && from % 8 == 0 && Granted(m, to, n) && Granted(m, from, n)
    requires (to + n <= from || from + n <= to)
    ensures m'.Keys == m.Keys && AllLinks(m, m') && forall a :: a in m && (a < to || to + n <= a) ==> m'[a] == m[a]
    ensures Copied(m, from, m', to, n)
  {
    hide AllLinks, StoreCell, Granted, CopiedAt;
    m' := m;
    var i := 0;
    SameLinksAll(m);
    while 8 * i + 8 <= n
      invariant 8 * i <= n + 7 && m'.Keys == m.Keys && AllLinks(m, m')
      invariant forall a :: a in m && (a < to || to + n <= a) ==> m'[a] == m[a]
      invariant forall a :: a in m && from <= a < from + n ==> m'[a] == m[a]
      invariant forall d: nat :: d < 8 * i ==> CopiedAt(m, from, m', to, n, d)
    {
      InGranted(m, to, from, n, i);
      ghost var before := m';
      m' := StoreCell(m', to + 8 * i, m'[from + 8 * i].data);
      CopyStep(m, from, before, m', to, n, i);
      i := i + 1;
    }
    if 8 * i + 4 <= n {
      InGranted(m, to, from, n, i);
      ghost var before := m';
      m' := SetFoot(m', to + 8 * i, m'[from + 8 * i].data.prevFoot);
      LastStep(m, from, before, m', to, n, i);
    } else {
      forall d: nat ensures CopiedAt(m, from, m', to, n, d) {
        NoneLeft(m, from, m', to, n, i, d);
      }
    }
  }

  lemma SameLinksAll(m: Heap)
    ensures AllLinks(m, m)
  {
  }

  lemma InGranted(m: Heap, to: Addr, from: Addr, n: nat, i: nat)
    requires to % 8 == 0 && from % 8 == 0 && Granted(m, to, n) && Granted(m, from, n) && 8 * i < n
    ensures to + 8 * i in m && from + 8 * i in m
  {
  }

  lemma CopyStep(m: Heap, from: Addr, m1: Heap, m': Heap, to: Addr, n: nat, i: nat)
    requires to + 8 * i in m1 && from + 8 * i in m && from + 8 * i in m1 && 8 * i + 8 <= n
    requires m1[from + 8 * i] == m[from + 8 * i]
    requires m' == StoreCell(m1, to + 8 * i, m1[from + 8 * i].data) && AllLinks(m, m1) && m1.Keys == m.Keys
    requires forall d: nat :: d < 8 * i ==> CopiedAt(m, from, m1, to, n, d)
    ensures forall d: nat :: d < 8 * (i + 1) ==> CopiedAt(m, from, m', to, n, d)
    ensures m'.Keys == m.Keys && AllLinks(m, m') && forall a :: a in m && a != to + 8 * i ==> m'[a] == m1[a]
  {
    StoreEffects(m1, to + 8 * i, m1[from + 8 * i].data);
    forall d: nat | d < 8 * (i + 1) ensures CopiedAt(m, from, m', to, n, d) {
      if d < 8 * i {
        assert CopiedAt(m, from, m1, to, n, d);
      } else {
        OnlyMultiple(d, i);
      }
    }
  }

  lemma OnlyMultiple(d: nat, i: nat)
    requires 8 * i <= d < 8 * (i + 1)
    ensures d % 8 == 0 ==> d == 8 * i
  {
  }

  lemma LastStep(m: Heap, from: Addr, m1: Heap, m': Heap, to: Addr, n: nat, i: nat)
    requires to + 8 * i in m1 && from + 8 * i in m && from + 8 * i in m1 && 8 * i + 4 <= n < 8 * i + 8
    requires m1[from + 8 * i] == m[from + 8 * i]
    requires m' == SetFoot(m1, to + 8 * i, m1[from + 8 * i].data.prevFoot) && AllLinks(m, m1) && m1.Keys == m.Keys
    requires forall d: nat :: d < 8 * i ==> CopiedAt(m, from, m1, to, n, d)
    ensures Copied(m, from, m', to, n)
    ensures m'.Keys == m.Keys && AllLinks(m, m') && forall a :: a in m && a != to + 8 * i ==> m'[a] == m1[a]
  {
    forall d: nat ensures CopiedAt(m, from, m', to, n, d) {
      if d < 8 * i {
        assert CopiedAt(m, from, m1, to, n, d);
      } else if d < 8 * (i + 1) {
        OnlyMultiple(d, i);
      }
    }
  }

  lemma NoneLeft(m: Heap, from: Addr, m': Heap, to: Addr, n: nat, i: nat, d: nat)
    requires n < 8 * i + 4 && (d < 8 * i ==> CopiedAt(m, from, m', to, n, d))
    ensures CopiedAt(m, from, m', to, n, d)
  {
  }

  /** Tags depend only on the heads of the chunks and on what is behind the last one. */
  lemma HeadsFrame(m: Heap, m': Heap, base: Addr, top: Addr, topsize: nat, chunks: set<Addr>)
    requires Tags(m, base, top, topsize, chunks) && m'.Keys == m.Keys
    requires forall a :: a in m && (a in chunks || a == top) ==> m'[a] == m[a]
    ensures Tags(m', base, top, topsize, chunks)
    ensures Allocated(m', chunks) == Allocated(m, chunks) && FreeChunks(m', chunks) == FreeChunks(m, chunks)
  {
    hide ChunkTags, Bounds, Apart;
    BoundsFacts(m, base, top, topsize);
    AllBelow(m, base, top, topsize, chunks);
    forall p | p in chunks ensures base <= p && ChunkTags(m', top, chunks, p) {
      ChunkFacts(m, top, chunks, p);
      ChunkFrame(m, m', top, chunks, p);
    }
    ApartFrame(m, m', chunks);
    BoundsFrame(m, m', base, top, topsize);
  }

  /** Whoever uses a chunk may write inside of it. */
  lemma InsideFrame(m: Heap, m': Heap, segs: seq<Segment>, top: Addr, topsize: nat, chunks: set<Addr>, q: Addr)
    requires HeapTags(m, segs, top, topsize, chunks) && q in chunks && q in m && m'.Keys == m.Keys
    requires forall a :: a in m && (a <= q || q + m[q].data.size <= a) ==> m'[a] == m[a]
    ensures HeapTags(m', segs, top, topsize, chunks)
    ensures Used(m', segs, chunks) == Used(m, segs, chunks) && FreeChunks(m', chunks) == FreeChunks(m, chunks)
  {
    hide HeapTags, Tags, Allocated, FreeChunks, Part, Rest, Records;
    var i := Located(m, segs, top, topsize, chunks, q);
    var part, stop := Part(chunks, segs[i]), Stop(segs, top, i);
    TopSegment(m, segs, top, topsize, chunks);
    PartIn(chunks, segs[i]);
    PartsOf(m, chunks, segs[i]);
    forall a | a in m && (a in part || a == stop) ensures m'[a] == m[a] {
      if a in part {
        NoneInside(m, segs, top, topsize, chunks, q);
      }
    }
    HeadsFrame(m, m', segs[i].base, stop, Room(topsize, i), part);
    Lifted(m, m', segs, top, topsize, chunks, i, top, topsize, part, chunks);
  }

  /** What is written inside of one chunk in use is not in another one. */
  lemma InsideApart(m: Heap, m': Heap, segs: seq<Segment>, top: Addr, topsize: nat, chunks: set<Addr>, bound: Addr,
                    q: Addr)
    requires HeapTags(m, segs, top, topsize, chunks) && Above(segs, bound) && q in chunks && q in m && m'.Keys == m.Keys
    requires AllLinks(m, m')
    requires forall a :: a in m && (a <= q || q + m[q].data.size <= a) ==> m'[a] == m[a]
    ensures Intact(m, Used(m, segs, chunks) - {q}, m', Used(m, segs, chunks))
  {
    hide HeapTags, Used, SameLinks;
    forall p | p in Used(m, segs, chunks) && p != q ensures SameInside(m, m', p, Used(m, segs, chunks)[p]) {
      UsedFacts(m, segs, top, topsize, chunks, bound, p);
      NoneInside(m, segs, top, topsize, chunks, p);
      NoneInside(m, segs, top, topsize, chunks, q);
    }
  }

  lemma InsideGranted(m: Heap, segs: seq<Segment>, top: Addr, topsize: nat, chunks: set<Addr>, q: Addr, n: nat)
    requires HeapTags(m, segs, top, topsize, chunks) && q in chunks && q in m && n + 4 <= m[q].data.size
    ensures Granted(m, q + 8, n)
  {
    hide HeapTags, Tags;
    var i := Located(m, segs, top, topsize, chunks, q);
    ChunkOfPart(m, segs[i].base, Stop(segs, top, i), Room(topsize, i), Part(chunks, segs[i]), q);
    forall a: Addr | q + 8 <= a < q + 8 + n && a % 8 == 0 ensures a in m {
      AtMost(a, q, m[q].data.size);
    }
  }

  lemma AtMost(a: nat, q: nat, size: nat)
    requires a % 8 == 0 && q % 8 == 0 && size % 8 == 0 && a < q + size + 8
    ensures a <= q + size
  {
  }

  /** Two chunks do not overlap. */
  lemma ChunksDisjoint(m: Heap, segs: seq<Segment>, top: Addr, topsize: nat, chunks: set<Addr>, p: Addr, q: Addr)
    requires HeapTags(m, segs, top, topsize, chunks) && p in chunks && q in chunks && p in m && q in m && p != q
    ensures p + m[p].data.size <= q || q + m[q].data.size <= p
  {
    hide HeapTags;
    NoneInside(m, segs, top, topsize, chunks, p);
    NoneInside(m, segs, top, topsize, chunks, q);
  }

  /** What was copied from chunk p is what that held before, and stays where it was copied to. */
  lemma CopiedFrame(m: Heap, m1: Heap, p: Addr, size: nat, m2: Heap, m': Heap, q: Addr, size': nat, n: nat, from: Addr,
                    to: Addr)
    requires from == p + 8 && to == q + 8 && p % 8 == 0 && n + 4 <= size && n + 4 <= size' && Granted(m, from, n)
    requires SameInside(m, m1, p, size) && Copied(m1, from, m2, to, n) && SameInside(m2, m', q, size')
    ensures Copied(m, from, m', to, n)
  {
    forall d: nat ensures CopiedAt(m, from, m', to, n, d) {
      assert CopiedAt(m1, from, m2, to, n, d);
    }
  }

  lemma CopiedSelf(m: Heap, m': Heap, p: Addr, size: nat, n: nat, from: Addr)
    requires from == p + 8 && SameInside(m, m', p, size) && n + 4 <= size && Granted(m, from, n) && p % 8 == 0
    ensures Copied(m, from, m', from, n)
  {
    hide SameInside, Granted, CopiedAt;
    forall d: nat ensures CopiedAt(m, from, m', from, n, d) {
      CopiedSelfAt(m, m', p, size, n, from, d);
    }
  }

  lemma CopiedSelfAt(m: Heap, m': Heap, p: Addr, size: nat, n: nat, from: Addr, d: nat)
    requires from == p + 8 && SameInside(m, m', p, size) && n + 4 <= size && Granted(m, from, n) && p % 8 == 0
    ensures CopiedAt(m, from, m', from, n, d)
  {
  }

  lemma SameInsideSelf(m: Heap, q: Addr, n: nat)
    requires q in m
    ensures SameInside(m, m, q, n)
  {
  }

  lemma IntactAt(m: Heap, used: map<Addr, nat>, m': Heap, used': map<Addr, nat>, q: Addr)
    requires Intact(m, used, m', used') && q in used && q in used'
    ensures SameInside(m, m', q, Min(used[q], used'[q]))
  {
  }

  lemma FewerIntact(m: Heap, used: map<Addr, nat>, m': Heap, used': map<Addr, nat>, gone: set<Addr>, gone': set<Addr>)
    requires Intact(m, used, m', used')
    ensures Intact(m, used - gone, m', used' - gone')
  {
  }
}
