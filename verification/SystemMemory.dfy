/** Where the memory of the allocator comes from: the free regions of the board, one after the other. */
module SystemMemory {
  import opened Options
  import opened Rings
  import opened TreeIndex
  import opened SizeTrie
  import opened Segments
  import opened HeapGrowth

  /** The free memory of a region: from first on, up to last. */
  datatype Region = Region(first: Addr, last: Addr)

  /** The region that memory comes from, and where its free part begins; 0 when nothing was taken from it yet. */
  datatype Break = Break(index: nat, ptr: Addr)

  /** Regions of memory that do not overlap. */
  ghost predicate Regions(regions: seq<Region>, ram: Heap, bound: Addr) {
    && (forall i :: 0 <= i < |regions| ==> Usable(regions[i], ram, bound))
    && (forall i, j :: 0 <= i < j < |regions| ==>
          regions[i].last <= regions[j].first || regions[j].last <= regions[i].first)
  }

  ghost predicate Usable(r: Region, ram: Heap, bound: Addr) {
    && 0 < r.first <= r.last < WORD && bound <= r.first && r.first % 8 == 0 && r.last % 8 == 0
    && Granted(ram, r.first, r.last - r.first)
  }

  ghost predicate BreakIn(regions: seq<Region>, b: Break) {
    && b.index <= |regions| && (b.index == |regions| ==> b.ptr == 0) && b.ptr % 8 == 0
    && (b.index < |regions| && b.ptr != 0 ==> regions[b.index].first <= b.ptr <= regions[b.index].last)
  }

  /** Where the free part of region i begins; i is not before the current region. */
  function From(regions: seq<Region>, b: Break, i: nat): Addr
    requires i < |regions|
  {
    if i == b.index && b.ptr != 0 then b.ptr else regions[i].first
  }

  /** Addition of machine words. */
  function Add32(a: nat, b: nat): (r: nat)
    ensures r < WORD && (a < WORD && b < WORD ==> r == if a + b < WORD then a + b else a + b - WORD)
  {
    (a + b) % WORD
  }

  /** The answer to a request for memory, and the break after it. Addresses are added as machine words. */
  function Served(regions: seq<Region>, b: Break, incr: nat): (r: (Break, Option<Addr>))
    decreases |regions| - b.index
  {
    if b.index >= |regions| then (Break(b.index, 0), None)
    else
      var p := From(regions, b, b.index);
      if Add32(p, incr) > regions[b.index].last then Served(regions, Break(b.index + 1, 0), incr)
      else (Break(b.index, Add32(p, incr)), Some(p))
  }

  /** Requests for memory, as the source serves them: the first region with room is the one from then on. */
  method Sbrk(regions: seq<Region>, b: Break, incr: nat) returns (b': Break, br: Option<Addr>)
    requires b.index <= |regions| && (b.index == |regions| ==> b.ptr == 0)
    requires forall i :: 0 <= i < |regions| ==> 0 < regions[i].first
    ensures (b', br) == Served(regions, b, incr)
  {
    var heapPtr: nat, memIndex: nat := b.ptr, b.index;
    while true
      invariant memIndex <= |regions| && (memIndex == |regions| ==> heapPtr == 0)
      invariant Served(regions, Break(memIndex, heapPtr), incr) == Served(regions, b, incr)
      decreases |regions| - memIndex
    {
      if heapPtr == 0 {
        if memIndex == |regions| {
          return Break(memIndex, heapPtr), None;
        }
        heapPtr := regions[memIndex].first;
      }
      if Add32(heapPtr, incr) > regions[memIndex].last {
        heapPtr := 0;
        memIndex := memIndex + 1;
      } else {
        return Break(memIndex, Add32(heapPtr, incr)), Some(heapPtr);
      }
    }
  }

  /** What was granted does not reach beyond the largest address. */
  ghost predicate Straight(regions: seq<Region>, b: Break, incr: nat) {
    var br := Served(regions, b, incr).1; br.Some? ==> br.value + incr < WORD
  }

  /** The memory granted lies in one region, at the front of what is free there. */
  ghost predicate Taken(regions: seq<Region>, b: Break, incr: nat, b': Break, p: Addr) {
    && b.index <= b'.index < |regions| && p == From(regions, b, b'.index) && b'.ptr == p + incr
    && b'.ptr <= regions[b'.index].last
  }

  /** Memory that is granted lies in its region if and only if its end does not wrap around. */
  lemma {:induction false} Grant(regions: seq<Region>, b: Break, incr: nat, ram: Heap, bound: Addr)
    requires Regions(regions, ram, bound) && BreakIn(regions, b) && incr < WORD && incr % 8 == 0
    ensures var (b', br) := Served(regions, b, incr);
      && (br.None? ==> BreakIn(regions, b'))
      && (br.Some? ==>
            && b.index <= b'.index < |regions| && br.value == From(regions, b, b'.index) && br.value > 0
            && (br.value + incr <= regions[b'.index].last <==> br.value + incr < WORD))
    ensures var (b', br) := Served(regions, b, incr);
      br.Some? && Straight(regions, b, incr) ==> Taken(regions, b, incr, b', br.value) && BreakIn(regions, b')
    decreases |regions| - b.index
  {
    hide Add32, Granted;
    if b.index < |regions| {
      var p := From(regions, b, b.index);
      assert Usable(regions[b.index], ram, bound);
      if Add32(p, incr) > regions[b.index].last {
        Grant(regions, Break(b.index + 1, 0), incr, ram, bound);
      }
    }
  }

  /** Once a request has been refused, all are: no region is left, even if there was room for less. */
  lemma {:induction false} RefusedForEver(regions: seq<Region>, b: Break, incr: nat, more: nat)
    requires Served(regions, b, incr).1.None?
    ensures var b' := Served(regions, b, incr).0;
      && b'.index >= |regions| && b'.ptr == 0 && Served(regions, b', more) == (b', None)
      && (b.index <= |regions| ==> b'.index == |regions|)
    decreases |regions| - b.index
  {
    if b.index < |regions| {
      RefusedForEver(regions, Break(b.index + 1, 0), incr, more);
    }
  }

  /** The free part of the current region, and all later regions, are in no segment. */
  ghost predicate Ahead(regions: seq<Region>, b: Break, segs: seq<Segment>) {
    forall i :: b.index <= i < |regions| && Left(regions, b, i) > 0 ==>
      Unused(segs, From(regions, b, i), Left(regions, b, i))
  }

  function Left(regions: seq<Region>, b: Break, i: nat): nat
    requires i < |regions|
  {
    var p := From(regions, b, i);
    if p <= regions[i].last then regions[i].last - p else 0
  }

  /** Memory from p on does not reach into what is free. */
  ghost predicate Behind(regions: seq<Region>, b: Break, p: Addr, n: nat) {
    forall i :: b.index <= i < |regions| && Left(regions, b, i) > 0 ==>
      p + n <= From(regions, b, i) || regions[i].last <= p
  }

  /** Memory that was taken was in no segment, and is not free any more. */
  lemma TakenFacts(regions: seq<Region>, b: Break, incr: nat, b': Break, p: Addr, ram: Heap, bound: Addr,
                   segs: seq<Segment>)
    requires Regions(regions, ram, bound) && BreakIn(regions, b) && BreakIn(regions, b') && 0 < incr
    requires Taken(regions, b, incr, b', p) && Ahead(regions, b, segs)
    ensures Ahead(regions, b', segs) && Behind(regions, b', p, incr)
    ensures Unused(segs, p, incr) && Granted(ram, p, incr) && bound <= p && 0 < p && p % 8 == 0 && p + incr < WORD
  {
    assert Usable(regions[b'.index], ram, bound);
    assert Unused(segs, From(regions, b, b'.index), Left(regions, b, b'.index));
    hide Granted;
    forall i | b'.index <= i < |regions|
      ensures Left(regions, b', i) > 0 ==> Unused(segs, From(regions, b', i), Left(regions, b', i))
      ensures p + incr <= From(regions, b', i) || regions[i].last <= p
    {
      assert Usable(regions[i], ram, bound);
      assert Left(regions, b, i) > 0 ==> Unused(segs, From(regions, b, i), Left(regions, b, i));
    }
    hide Unused;
    GrantedWithin(ram, regions[b'.index].first, regions[b'.index].last, p, incr);
  }

  lemma GrantedWithin(ram: Heap, first: Addr, last: Addr, p: Addr, n: nat)
    requires first <= last && Granted(ram, first, last - first) && first <= p && p + n <= last
    ensures Granted(ram, p, n)
  {
  }

  lemma GrantedBoth(ram: Heap, p: Addr, s: nat, e: nat)
    requires Granted(ram, p, s) && Granted(ram, p + s, e)
    ensures Granted(ram, p, s + e)
  {
  }

  /** Two pieces of memory, one behind the other. */
  lemma BehindBoth(regions: seq<Region>, b1: Break, b2: Break, p: Addr, s: nat, e: nat)
    requires Behind(regions, b1, p, s) && Behind(regions, b2, p + s, e) && BreakIn(regions, b1) && BreakIn(regions, b2)
    requires Taken(regions, b1, e, b2, p + s)
    ensures Behind(regions, b2, p, s + e)
  {
    forall i | b2.index <= i < |regions| && Left(regions, b2, i) > 0
      ensures p + (s + e) <= From(regions, b2, i) || regions[i].last <= p
    {
      assert Left(regions, b1, i) > 0;
    }
  }

  /** Where regions begin. */
  lemma RegionsBegin(regions: seq<Region>, ram: Heap, bound: Addr)
    requires Regions(regions, ram, bound)
    ensures forall i :: 0 <= i < |regions| ==> 0 < regions[i].first
  {
    assert forall i :: 0 <= i < |regions| ==> Usable(regions[i], ram, bound);
  }

  /** A refused request leaves nothing free. */
  lemma NothingAhead(regions: seq<Region>, b: Break, segs: seq<Segment>)
    requires b.index >= |regions|
    ensures Ahead(regions, b, segs)
  {
  }

  /** The sizes of the first n regions. */
  ghost function SizeOfFirst(regions: seq<Region>, n: nat): nat
    requires n <= |regions|
  {
    if n == 0 then 0
    else SizeOfFirst(regions, n - 1) + (if regions[n - 1].first <= regions[n - 1].last
                                        then regions[n - 1].last - regions[n - 1].first else 0)
  }

  /** The memory that is behind the break. */
  ghost function HandedOut(regions: seq<Region>, b: Break): nat {
    if b.index >= |regions| then SizeOfFirst(regions, |regions|)
    else
      SizeOfFirst(regions, b.index)
      + (if regions[b.index].first <= b.ptr then b.ptr - regions[b.index].first else 0)
  }

  lemma {:induction false} MoreRegions(regions: seq<Region>, m: nat, n: nat)
    requires m <= n <= |regions|
    ensures SizeOfFirst(regions, m) <= SizeOfFirst(regions, n)
    decreases n
  {
    if m < n {
      MoreRegions(regions, m, n - 1);
    }
  }

  /** What was handed out does not exceed what there is, and grows by what is taken. */
  lemma HandedOutMore(regions: seq<Region>, b: Break, incr: nat, b': Break, p: Addr, ram: Heap, bound: Addr)
    requires Regions(regions, ram, bound) && BreakIn(regions, b) && BreakIn(regions, b')
    requires Taken(regions, b, incr, b', p)
    ensures HandedOut(regions, b) + incr <= HandedOut(regions, b')
  {
    hide Granted;
    assert Usable(regions[b'.index], ram, bound) && Usable(regions[b.index], ram, bound);
    if b.index < b'.index {
      MoreRegions(regions, b.index + 1, b'.index);
    }
  }

  lemma HandedOutAll(regions: seq<Region>, b: Break)
    requires BreakIn(regions, b)
    ensures HandedOut(regions, b) <= SizeOfFirst(regions, |regions|)
  {
    if b.index < |regions| {
      MoreRegions(regions, b.index + 1, |regions|);
    }
  }

  /** A second grant follows the first if and only if the same region has room for both; or when the next region
      to be used begins just where the first grant has used up its own. */
  lemma SecondFollows(regions: seq<Region>, b: Break, s: nat, b1: Break, p: Addr, e: nat, b2: Break, q: Addr, ram: Heap,
                      bound: Addr)
    requires Regions(regions, ram, bound) && BreakIn(regions, b) && BreakIn(regions, b1) && 0 < e
    requires Served(regions, b, s) == (b1, Some(p)) && Taken(regions, b, s, b1, p)
    requires Served(regions, b1, e) == (b2, Some(q)) && Taken(regions, b1, e, b2, q)
    ensures q == p + s <==>
      p + s + e <= regions[b1.index].last || regions[b1.index].last == p + s == regions[b2.index].first
  {
    hide Granted;
    assert Usable(regions[b1.index], ram, bound) && Usable(regions[b2.index], ram, bound);
  }

  /** Nothing else than that can happen in the last region: the second request is served there or refused. */
  lemma LastRegion(regions: seq<Region>, b: Break, e: nat)
    requires b.index + 1 >= |regions| && BreakIn(regions, b)
    ensures var br := Served(regions, b, e).1;
      br.Some? ==> b.index < |regions| && br.value == From(regions, b, b.index)
  {
    assert Served(regions, Break(b.index + 1, 0), e).1 == None;
  }

  /** With three regions, a second grant can lie elsewhere: a heap that asks for 0x500 bytes more, and then for another
      0x800 bytes, because the first answer did not continue it, gets the second piece from the third region. */
  lemma SecondElsewhere()
    ensures var regions := [Region(0x1000, 0x2000), Region(0x3000, 0x3600), Region(0x8000, 0x9000)];
      && Served(regions, Break(0, 0x2000), 0x500) == (Break(1, 0x3500), Some(0x3000))
      && Served(regions, Break(1, 0x3500), 0x800) == (Break(2, 0x8800), Some(0x8000))
  {
    var regions := [Region(0x1000, 0x2000), Region(0x3000, 0x3600), Region(0x8000, 0x9000)];
    assert Served(regions, Break(1, 0), 0x500) == (Break(1, 0x3500), Some(0x3000));
    assert Served(regions, Break(2, 0), 0x800) == (Break(2, 0x8800), Some(0x8000));
  }

  /** With two regions, there can be no second grant: the first piece, 0x500 bytes at 0x3000, is lost then. */
  lemma SecondRefused()
    ensures var regions := [Region(0x1000, 0x2000), Region(0x3000, 0x3600)];
      && Served(regions, Break(0, 0x2000), 0x500) == (Break(1, 0x3500), Some(0x3000))
      && Served(regions, Break(1, 0x3500), 0x800) == (Break(2, 0), None)
  {
    var regions := [Region(0x1000, 0x2000), Region(0x3000, 0x3600)];
    assert Served(regions, Break(1, 0), 0x500) == (Break(1, 0x3500), Some(0x3000));
    assert Served(regions, Break(2, 0), 0x800) == (Break(2, 0), None);
  }

  /** A grant can wrap around: a request that is larger than all addresses behind the region is served, and the
      break is nowhere then, so that the same memory is handed out again. */
  lemma GrantWraps()
    ensures var regions := [Region(0xD000_0000, 0xD200_0000)];
      Served(regions, Break(0, 0), 0x3000_0000) == (Break(0, 0), Some(0xD000_0000))
  {
  }
}
