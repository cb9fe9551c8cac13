/** A small allocator that takes a best fitting block of the first region that has one. */
module SimpleAllocator {
  import opened SimpleBlocks

  const WORDS := 0x1_0000_0000
  const DYN_MIN_SPLIT_SIZE := 16

  /** A size rounded up to a multiple of 8, as far as it fits in 32 bits. */
  function ActSize(size: nat): nat {
    if size % 8 != 0 then (size / 8 + 1) * 8 % WORDS else size
  }

  /** The size of a block for size bytes. */
  function Needed(size: nat): nat {
    ActSize((size + HEADER_SIZE) % WORDS)
  }

  /** The block is large enough for what is asked for, if and only if that is not so large that its size
      with the header wraps around; then a header is taken for large enough, or nothing at all. */
  lemma NeededFits(size: nat)
    requires size < WORDS
    ensures Needed(size) >= size + HEADER_SIZE <==> size <= WORDS - 16
    ensures Needed(size) % 8 == 0 && (size <= WORDS - 16 ==> Needed(size) < size + HEADER_SIZE + 8)
    ensures size > WORDS - 16 ==> Needed(size) == if size <= WORDS - 8 then 0 else HEADER_SIZE
  {
  }

  /** The memory when free block p, followed by the one at next, has been divided behind no bytes, and what
      is behind is marked as free. */
  function DividedAtOnce(m: Memory, p: Addr, next: Addr): Memory
    requires p in m && next in m
  {
    var m1 := Mark(m, p, true);
    var m2 := m1[p := m1[p].(prev := p, next := next)];
    var m3 := m2[next := m2[next].(prev := p)];
    Mark(m3[p := m3[p].(next := p)], p, false)
  }

  /** The block that is reached by going back n times. */
  function Back(m: Memory, a: Addr, n: nat): Addr
    decreases n
  {
    if n == 0 || a !in m then a else Back(m, m[a].prev, n - 1)
  }

  /** When nothing at all is taken for large enough, the search for the block in use before the free one
      does not end: the block comes before itself. */
  lemma {:induction false} SearchGoesOn(m: Memory, p: Addr, next: Addr, n: nat)
    requires p in m && next in m && p != next
    ensures var m' := DividedAtOnce(m, p, next); Back(m', p, n) == p && p in m' && !m'[p].taken
  {
    if n > 0 {
      SearchGoesOn(m, p, next, n - 1);
    }
  }

  /** A smallest one of the free blocks that are large enough. */
  ghost predicate BestFit(free: set<Block>, need: nat, e: Block) {
    e in free && e.size >= need && forall f :: f in free && f.size >= need ==> e.size <= f.size
  }

  ghost predicate NoFit(free: set<Block>, need: nat) {
    forall f :: f in free ==> f.size < need
  }

  /** The search for a free block comes to an end: a block is not divided behind nothing at all. */
  ghost predicate SearchEnds(free: set<Block>, size: nat) {
    size == 0 || Needed(size) != 0 ||
    forall e {:trigger BestFit(free, 0, e)} :: BestFit(free, 0, e) ==> e.size < DYN_MIN_SPLIT_SIZE
  }

  /** All headers of a region can be read and written. */
  ghost predicate Present(m: Memory, lo: Addr, hi: Addr) {
    forall a :: lo <= a <= hi && a % 8 == 0 ==> a in m
  }

  /** What an operation does to the blocks of a region. */
  ghost predicate Changed(m: Memory, m': Memory, b: seq<Addr>, b': seq<Addr>) {
    && b != [] && b' != [] && b'[0] == b[0] && b'[|b'| - 1] == b[|b| - 1] && Within(m, m', b[0], b[|b| - 1])
    && Region(m', b')
  }

  /** Memory for a region from lo up to end. */
  ghost predicate RoomForRegion(m: Memory, lo: Addr, end: Addr) {
    0 < lo && lo % 8 == 0 && end % 8 == 0 && lo + 3 * HEADER_SIZE <= end < WORDS && Present(m, lo, end - HEADER_SIZE)
  }

  /** A region with one free block between two guards. */
  lemma NewRegion(m: Memory, m': Memory, g1: Addr, crt: Addr, g2: Addr)
    requires 0 < g1 && g1 % 8 == 0 && g2 % 8 == 0 && crt == g1 + HEADER_SIZE && crt + HEADER_SIZE <= g2 < WORDS
    requires g1 in m && crt in m && g2 in m && Present(m, g1, g2)
    requires m' == m[g1 := Header(crt, 0, true)][crt := Header(g2, g1, false)][g2 := Header(0, crt, true)]
    ensures RegionOf(m', [g1, crt, g2], g1, g2) && Blocks(m', [g1, crt, g2], true) == {Block(g1, HEADER_SIZE)}
    ensures Within(m, m', g1, g2)
  {
    var b := [g1, crt, g2];
    assert BlocksIn(m', b, true, 0, 1) == OneBlock(m', g1, crt, true);
    assert BlocksIn(m', b, true, 0, 2) == BlocksIn(m', b, true, 0, 1) + OneBlock(m', crt, g2, true);
  }

  lemma EndsPresent(m: Memory, lo: Addr, end: Addr)
    requires RoomForRegion(m, lo, end)
    ensures lo in m && lo + HEADER_SIZE in m && end - HEADER_SIZE in m
  {
  }

  lemma InitSteps(m: Memory, g1: Addr, crt: Addr, g2: Addr)
    requires g1 < crt < g2
    ensures var m1 := m[g1 := Header(crt, 0, false)][crt := Header(g2, g1, false)][g2 := Header(0, crt, false)];
      Mark(Mark(Mark(m1, g1, true), g2, true), crt, false) ==
        m[g1 := Header(crt, 0, true)][crt := Header(g2, g1, false)][g2 := Header(0, crt, true)]
  {
  }

  lemma SameRoom(m: Memory, m': Memory, lo: Addr, end: Addr)
    requires RoomForRegion(m, lo, end) && m'.Keys == m.Keys
    ensures RoomForRegion(m', lo, end)
  {
  }

  lemma WithinKeys(m: Memory, m': Memory, lo: Addr, hi: Addr)
    requires Within(m, m', lo, hi)
    ensures m'.Keys == m.Keys
  {
  }

  class Allocator {
    // Where the regions of memory begin, and the last header in them
    const first: seq<Addr>
    const last: seq<Addr>
    var mem: Memory
    // The blocks of the regions
    ghost var lists: seq<seq<Addr>>

    ghost predicate RegionAt(r: nat)
      requires r < |lists| && r < |first| && r < |last|
      reads this
    {
      RegionOf(mem, lists[r], first[r], last[r])
    }

    ghost predicate Valid()
      reads this
    {
      && |first| == |last| == |lists| && (forall r :: 0 <= r < |lists| ==> RegionAt(r))
      && (forall r, s :: 0 <= r < s < |lists| ==> last[r] < first[s] || last[s] < first[r])
    }

    /** The blocks in use, with their headers, in region r; the first guard is one of them. */
    ghost function InUse(r: nat): set<Block>
      requires r < |lists|
      reads this
    {
      Blocks(mem, lists[r], true)
    }

    ghost function FreeIn(r: nat): set<Block>
      requires r < |lists|
      reads this
    {
      Blocks(mem, lists[r], false)
    }

    /** One free block between two guards in each region. Regions begin at first and end behind last; what
        is in the memory before does not matter. */
    constructor (first: seq<Addr>, end: seq<Addr>, mem: Memory)
      requires |first| == |end| && (forall r :: 0 <= r < |first| ==> RoomForRegion(mem, first[r], end[r]))
      requires forall r, s :: 0 <= r < s < |first| ==> end[r] <= first[s] || end[s] <= first[r]
      ensures Valid() && this.first == first && |lists| == |first|
      ensures forall r :: 0 <= r < |first| ==> InUse(r) == {Block(first[r], HEADER_SIZE)}
    {
      this.first := first;
      last := seq(|end|, r requires 0 <= r < |end| => if end[r] >= HEADER_SIZE then end[r] - HEADER_SIZE else 0);
      this.mem := mem;
      lists := [];
      new;
      hide RegionOf, Blocks, Within;
      var i := 0;
      while i < |first|
        invariant i == |lists| <= |first| && this.mem.Keys == mem.Keys
        invariant forall r :: 0 <= r < i ==> RegionAt(r) && InUse(r) == {Block(first[r], HEADER_SIZE)}
      {
        ghost var before := this.mem;
        assert RoomForRegion(mem, first[i], end[i]);
        SameRoom(mem, before, first[i], end[i]);
        forall r | 0 <= r < i
          ensures RegionOf(before, lists[r], first[r], last[r])
          ensures Blocks(before, lists[r], true) == {Block(first[r], HEADER_SIZE)}
        {
          assert RegionAt(r) && InUse(r) == {Block(first[r], HEADER_SIZE)};
        }
        ghost var b := InitRegion(first[i], end[i]);
        forall r | 0 <= r < i
          ensures RegionOf(this.mem, lists[r], first[r], last[r])
          ensures Blocks(this.mem, lists[r], true) == {Block(first[r], HEADER_SIZE)}
        {
          RegionApart(before, this.mem, lists[r], first[r], last[r], first[i], last[i]);
        }
        lists := lists + [b];
        i := i + 1;
      }
    }

    /** Makes one free block between two guards. */
    method InitRegion(g1: Addr, end: Addr) returns (ghost b: seq<Addr>)
      requires RoomForRegion(mem, g1, end)
      modifies this`mem
      ensures RegionOf(mem, b, g1, end - HEADER_SIZE) && Blocks(mem, b, true) == {Block(g1, HEADER_SIZE)}
      ensures Within(old(mem), mem, g1, end - HEADER_SIZE) && mem.Keys == old(mem.Keys)
    {
      hide RegionOf, Blocks, Within, Mark, Present;
      EndsPresent(mem, g1, end);
      var memspace := end - g1;
      var crt := g1 + HEADER_SIZE;
      var g2 := g1 + memspace - HEADER_SIZE;
      mem := mem[g1 := Header(crt, 0, false)];
      mem := mem[crt := Header(g2, g1, false)];
      mem := mem[g2 := Header(0, crt, false)];
      mem := Mark(mem, g1, true);
      mem := Mark(mem, g2, true);
      mem := Mark(mem, crt, false);
      InitSteps(old(mem), g1, crt, g2);
      NewRegion(old(mem), mem, g1, crt, g2);
      WithinKeys(old(mem), mem, g1, g2);
      b := [g1, crt, g2];
    }

    /** Marks a block as free and makes one block of it and of the free ones beside it. */
    method CompactFree(ptr: Addr, ghost b: seq<Addr>, ghost k: nat) returns (ghost b': seq<Addr>)
      requires Linked(mem, b) && Apart(mem, b, k) && 0 < k < |b| - 1 && ptr == b[k]
      modifies this`mem
      ensures Changed(old(mem), mem, b, b') && Blocks(mem, b', true) == old(Others(mem, b, true, k))
      ensures OnlyIn(old(mem), mem, b)
    {
      hide Blocks, Others, Apart, Linked, BlocksIn, Region, Within, OnlyIn;
      Marked(mem, b, k, false);
      mem := Mark(mem, ptr, false);
      ghost var m1 := mem;
      var temp1, temp2 := ptr, ptr;
      ghost var i: nat, j: nat := k, k;
      while !mem[temp1].taken
        invariant i <= k && temp1 == b[i] && temp1 in mem && (forall x :: i < x <= k ==> FreeAt(m1, b, x)) && mem == m1
        decreases i
      {
        GuardTaken(m1, b, i);
        Neighbours(m1, b, i);
        Neighbours(m1, b, i - 1);
        temp1 := mem[temp1].prev;
        i := i - 1;
      }
      Neighbours(m1, b, i);
      Neighbours(m1, b, i + 1);
      temp1 := mem[temp1].next;
      i := i + 1;
      while !mem[temp2].taken
        invariant k <= j < |b| && temp2 == b[j] && temp2 in mem && (forall x :: k <= x < j ==> FreeAt(m1, b, x))
        invariant mem == m1
        decreases |b| - j
      {
        GuardTaken(m1, b, j);
        Neighbours(m1, b, j);
        Neighbours(m1, b, j + 1);
        temp2 := mem[temp2].next;
        j := j + 1;
      }
      b' := Concatenate(temp1, temp2, ptr, b, i, k, j);
      WithinBoth(old(mem), m1, mem, b, k);
      OnlyTwice(old(mem), m1, mem, b, b);
      OnlyMore(old(mem), mem, b + b, b);
    }

    /** Makes one block of the free ones from temp1 up to temp2, unless there is only one. */
    method Concatenate(temp1: Addr, temp2: Addr, ptr: Addr, ghost b: seq<Addr>, ghost i: nat, ghost k: nat,
                       ghost j: nat) returns (ghost b': seq<Addr>)
      requires Linked(mem, b) && Apart(mem, b, k) && FreeRun(mem, b, i, k, j) && temp1 == b[i] && ptr == b[k]
      requires temp2 == b[j]
      modifies this`mem
      ensures Changed(old(mem), mem, b, b') && Blocks(mem, b', true) == old(Others(mem, b, true, k))
      ensures OnlyIn(old(mem), mem, b)
    {
      hide Blocks, Others, Apart, Linked, BlocksIn, Region, Within;
      MergedRegion(mem, b, i, k, j);
      Neighbours(mem, b, j);
      if temp1 != ptr || mem[temp2].prev != ptr {
        mem := mem[temp1 := mem[temp1].(next := temp2)];
        mem := mem[temp2 := mem[temp2].(prev := temp1)];
      } else {
        SamePlace(mem, b, i, k);
        SamePlace(mem, b, j - 1, k);
        MergedOne(mem, b, k);
      }
      b' := Merged(b, i, j);
    }

    /** Looks for the first smallest one of the free blocks that are large enough. */
    method FindBest(need: nat, pstart: Addr, ghost b: seq<Addr>) returns (pblock: Addr, minsize: int, ghost k: nat)
      requires Region(mem, b) && pstart == b[0] && b[|b| - 1] < WORDS
      ensures pblock == 0 ==> NoFit(Blocks(mem, b, false), need)
      ensures pblock != 0 ==> 0 < k < |b| - 1 && pblock == b[k] && FreeAt(mem, b, k) && minsize == SizeOf(b, k)
      ensures pblock != 0 ==> BestFit(Blocks(mem, b, false), need, Block(pblock, minsize))
    {
      hide Blocks, BlocksIn, Linked, Apart, NoneFits, SmallestAt, Region;
      InRegion(mem, b);
      NothingYet(mem, b, need);
      pblock, minsize, k := 0, WORDS - 1, 0;
      FirstTaken(mem, b);
      Neighbours(mem, b, 0);
      Neighbours(mem, b, 1);
      var temp := mem[pstart].next;
      ghost var t: nat := 1;
      ghost var best := Block(0, 0);
      while temp != 0
        invariant 1 <= t <= |b| && (if t < |b| then temp == b[t] && temp != 0 && temp in mem else temp == 0)
        invariant pblock == 0 ==> minsize == WORDS - 1 && NoneFits(mem, b, t, need)
        invariant pblock != 0 ==> k < t && SmallestAt(mem, b, t, need, k) && pblock == b[k] && minsize == SizeOf(b, k)
        decreases |b| - t
      {
        Neighbours(mem, b, t);
        if t < |b| - 1 {
          Neighbours(mem, b, t + 1);
        }
        if !mem[temp].taken {
          GuardTaken(mem, b, t);
          Bounded(mem, b, t);
        }
        OneMore(mem, b, t, need, k);
        if !mem[temp].taken {
          var bsize := if mem[temp].next != 0 then mem[temp].next - temp else 0;
          if need <= bsize && bsize < minsize {
            minsize := bsize;
            pblock := temp;
            k := t;
          }
        }
        temp := mem[temp].next;
        t := t + 1;
      }
      if pblock == 0 {
        NoneInSet(mem, b, need);
      } else {
        SmallestInSet(mem, b, need, k);
      }
    }

    /** Divides a taken block behind its first need bytes, and frees the rest. */
    method Divide(pblock: Addr, need: nat, ghost b: seq<Addr>, ghost k: nat) returns (ghost b': seq<Addr>)
      requires Region(mem, b) && 0 < k < |b| - 1 && pblock == b[k] && !FreeAt(mem, b, k)
      requires Present(mem, b[0], b[|b| - 1])
      requires need % 8 == 0 && HEADER_SIZE <= need && b[k] + need + HEADER_SIZE <= b[k + 1]
      modifies this`mem
      ensures Changed(old(mem), mem, b, b')
      ensures Blocks(mem, b', true) == old(Others(mem, b, true, k)) + {Block(b[k], need)}
      ensures OnlyIn(old(mem), mem, b + b')
    {
      hide Blocks, Others, Apart, Linked, BlocksIn, OnlyIn;
      var temp := pblock + need;
      Neighbours(mem, b, k);
      Neighbours(mem, b, k + 1);
      CutInside(mem, b, k, temp);
      SplitRegion(mem, b, k, temp);
      var next := mem[pblock].next;
      ghost var m0 := mem;
      mem := mem[temp := mem[temp].(prev := pblock)];
      mem := mem[temp := mem[temp].(next := next)];
      mem := mem[next := mem[next].(prev := temp)];
      mem := mem[pblock := mem[pblock].(next := temp)];
      assert mem == SplitMemory(m0, b[k], temp, b[k + 1]);
      SplitEnds(b, k, temp);
      ghost var m1 := mem;
      b' := CompactFree(temp, Split(b, k, temp), k + 1);
      OnlyTwice(m0, m1, mem, Split(b, k, temp), Split(b, k, temp));
      assert Block(b[k], need) in Blocks(mem, b', true);
      BlockClear(mem, b', true, Block(b[k], need));
      OnlyMore(m0, mem, Split(b, k, temp) + Split(b, k, temp), b + b');
    }

    /** Takes a smallest free block that is large enough for size bytes, and gives back what is left of it. */
    method GetFreeBlock(size: nat, pstart: Addr,
                        ghost b: seq<Addr>) returns (p: Addr, ghost b': seq<Addr>, ghost e: Block, ghost n: int)
      requires Region(mem, b) && pstart == b[0] && Present(mem, b[0], b[|b| - 1]) && b[|b| - 1] < WORDS && size < WORDS
      requires SearchEnds(Blocks(mem, b, false), size)
      modifies this`mem
      ensures Changed(old(mem), mem, b, b') && OnlyIn(old(mem), mem, b + b')
      ensures p == 0 ==> mem == old(mem) && b' == b && (size == 0 || NoFit(old(Blocks(mem, b, false)), Needed(size)))
      ensures p != 0 ==> size != 0 && BestFit(old(Blocks(mem, b, false)), Needed(size), e) && p == e.addr + HEADER_SIZE
      ensures p != 0 ==>
        && Needed(size) <= n < Needed(size) + DYN_MIN_SPLIT_SIZE
        && Blocks(mem, b', true) == old(Blocks(mem, b, true)) + {Block(e.addr, n)} && b[0] < e.addr < b[|b| - 1]
    {
      hide Blocks, Others, Apart, Linked, BlocksIn, Needed, Present, Within, NoFit, BestFit;
      b', e, n := b, Block(0, 0), 0;
      FirstTaken(mem, b);
      WithinSelf(mem, b);
      if size == 0 {
        return 0, b', e, n;
      }
      NeededFits(size);
      var need := Needed(size);
      var pblock, minsize;
      ghost var k;
      pblock, minsize, k := FindBest(need, pstart, b);
      if pblock == 0 {
        return 0, b', e, n;
      }
      e := Block(pblock, minsize);
      FitsIn(mem, b, need, e);
      TakeFree(mem, b, k);
      mem := Mark(mem, pblock, true);
      StillPresent(old(mem), mem, b[0], b[|b| - 1]);
      if minsize > need && minsize - need >= DYN_MIN_SPLIT_SIZE {
        n := need;
        b' := Divide(pblock, need, b, k);
        WithinBoth(old(mem), Mark(old(mem), pblock, true), mem, b, k);
      } else {
        n := minsize;
        WithinSelf(mem, b);
        WithinBoth(old(mem), mem, mem, b, k);
      }
      p := pblock + HEADER_SIZE;
    }

    /** A region after an operation on it; the others stay as they are. */
    lemma Replaced(before: Memory, lists0: seq<seq<Addr>>, r: nat)
      requires |first| == |last| == |lists0| == |lists| && r < |lists0| && lists == lists0[r := lists[r]]
      requires forall s :: 0 <= s < |lists0| ==> RegionOf(before, lists0[s], first[s], last[s])
      requires forall s, t :: 0 <= s < t < |lists0| ==> last[s] < first[t] || last[t] < first[s]
      requires Changed(before, mem, lists0[r], lists[r]) && OnlyIn(before, mem, lists0[r] + lists[r])
      ensures Valid()
      ensures forall s, f :: 0 <= s < |lists| && s != r && f in InUse(s) ==> Untouched(before, mem, f)
      ensures forall f :: f in InUse(r) && Clear(lists0[r], f) ==> Untouched(before, mem, f)
      ensures forall f :: f in Blocks(before, lists0[r], true) ==> Clear(lists0[r], f)
      ensures forall s :: 0 <= s < |lists| && s != r ==> InUse(s) == Blocks(before, lists0[s], true)
    {
      hide Blocks, Apart, Linked, BlocksIn, RegionOf, Present, Within, Untouched, Clear, OnlyIn;
      RegionChanged(before, mem, lists0[r], lists[r], first[r], last[r]);
      forall f | f in InUse(r) && Clear(lists0[r], f) ensures Untouched(before, mem, f) {
        BlockClear(mem, lists[r], true, f);
        ClearUntouched(before, mem, lists0[r], lists[r], f);
      }
      RegionIsLinked(before, lists0[r], first[r], last[r]);
      forall f | f in Blocks(before, lists0[r], true) ensures Clear(lists0[r], f) {
        BlockClear(before, lists0[r], true, f);
      }
      forall s | 0 <= s < |lists|
        ensures RegionAt(s)
        ensures s != r ==> InUse(s) == Blocks(before, lists0[s], true)
        ensures s != r ==> forall f :: f in InUse(s) ==> Untouched(before, mem, f)
      {
        if s != r {
          RegionApart(before, mem, lists0[s], first[s], last[s], first[r], last[r]);
        }
      }
    }

    /** The search comes to an end in the first region that has a block. For eight sizes it does not, if that block is
        large enough to be divided. */
    ghost predicate Returns(size: nat)
      reads this
    {
      forall r :: 0 <= r < |lists| && (forall s :: 0 <= s < r ==> NoFit(FreeIn(s), Needed(size))) ==>
        SearchEnds(FreeIn(r), size)
    }

    lemma UsualSizes(size: nat)
      requires size <= WORDS - 16
      ensures Returns(size)
    {
      NeededFits(size);
    }

    /** Takes a block for size bytes; 0 when there is none, or when size is 0. The block is large enough only
        when size is not among the 15 largest. No other block in use is touched. */
    method Malloc(size: nat) returns (ptr: Addr, ghost r: nat, ghost e: Block, ghost n: int)
      requires Valid() && size < WORDS && Returns(size)
      modifies this
      ensures Valid()
      ensures ptr == 0 ==>
        && mem == old(mem) && lists == old(lists)
        && (size == 0 || forall s :: 0 <= s < |lists| ==> NoFit(old(FreeIn(s)), Needed(size)))
      ensures ptr != 0 ==>
        size != 0 && r < |lists| && BestFit(old(FreeIn(r)), Needed(size), e) && ptr == e.addr + HEADER_SIZE
      ensures ptr != 0 ==> forall s :: 0 <= s < r ==> NoFit(old(FreeIn(s)), Needed(size))
      ensures ptr != 0 ==>
        Needed(size) <= n < Needed(size) + DYN_MIN_SPLIT_SIZE && InUse(r) == old(InUse(r)) + {Block(e.addr, n)}
      ensures ptr != 0 ==> (size + HEADER_SIZE <= n <==> size <= WORDS - 16)
      ensures forall s, f :: 0 <= s < |lists| && f in old(InUse(s)) ==> Untouched(old(mem), mem, f)
      ensures forall s :: 0 <= s < |lists| && (ptr == 0 || s != r) ==> InUse(s) == old(InUse(s))
    {
      hide RegionOf, NoFit, BestFit, Needed, Blocks, Untouched, Clear, OnlyIn;
      ptr, r, e, n := 0, 0, Block(0, 0), 0;
      NeededFits(size);
      NothingTouched(mem);
      Regions();
      var i := 0;
      while i < |first|
        invariant i <= |first| && Valid() && mem == old(mem) && lists == old(lists)
        invariant size == 0 || forall s :: 0 <= s < i ==> NoFit(old(FreeIn(s)), Needed(size))
      {
        ghost var b';
        AtRegion(i);
        assert Blocks(mem, lists[i], false) == old(FreeIn(i));
        assert SearchEnds(old(FreeIn(i)), size) by {
          assert old(Returns(size));
        }
        ptr, b', e, n := GetFreeBlock(size, first[i], lists[i]);
        if ptr != 0 {
          r := i;
          lists := lists[i := b'];
          Replaced(old(mem), old(lists), i);
          return;
        }
        i := i + 1;
      }
    }

    lemma Regions()
      requires Valid()
      ensures forall s :: 0 <= s < |lists| ==> RegionOf(mem, lists[s], first[s], last[s])
    {
      forall s | 0 <= s < |lists| ensures RegionOf(mem, lists[s], first[s], last[s]) {
        assert RegionAt(s);
      }
    }

    lemma AtRegion(r: nat)
      requires Valid() && r < |lists|
      ensures Region(mem, lists[r]) && lists[r][0] == first[r] && Present(mem, first[r], last[r])
      ensures lists[r][|lists[r]| - 1] == last[r] < WORDS && 0 < first[r]
    {
      assert RegionAt(r);
    }

    /** Block k of region r is in use, and not a guard. */
    ghost predicate Allocated(ptr: Addr, r: nat, k: nat)
      reads this
    {
      r < |lists| && 0 < k < |lists[r]| - 1 && ptr == lists[r][k] + HEADER_SIZE && !FreeAt(mem, lists[r], k)
    }

    /** Gives back a block. */
    method Free(ptr: Addr, ghost r: nat, ghost k: nat)
      requires Valid() && (ptr == 0 || Allocated(ptr, r, k))
      modifies this
      ensures Valid()
      ensures ptr == 0 ==> mem == old(mem) && lists == old(lists)
      ensures ptr != 0 ==> InUse(r) == old(InUse(r)) - {Block(ptr - HEADER_SIZE, old(SizeOf(lists[r], k)))}
      ensures forall s, f :: 0 <= s < |lists| && f in InUse(s) ==> Untouched(old(mem), mem, f)
      ensures forall s :: 0 <= s < |lists| && (ptr == 0 || s != r) ==> InUse(s) == old(InUse(s))
    {
      hide RegionOf, Blocks, BlocksIn, Others, Untouched, Clear, OnlyIn;
      NothingTouched(mem);
      if ptr == 0 {
        return;
      }
      Regions();
      AtRegion(r);
      TakenAt(mem, lists[r], k);
      ghost var b' := CompactFree(ptr - HEADER_SIZE, lists[r], k);
      OnlyMore(old(mem), mem, lists[r], lists[r] + b');
      lists := lists[r := b'];
      Replaced(old(mem), old(lists), r);
    }

    /** The size of a block without its header. */
    method ActualBlockSize(ptr: Addr, ghost r: nat, ghost k: nat) returns (size: nat)
      requires Valid() && Allocated(ptr, r, k)
      ensures size + HEADER_SIZE == SizeOf(lists[r], k)
    {
      AtRegion(r);
      Neighbours(mem, lists[r], k);
      Neighbours(mem, lists[r], k + 1);
      size := mem[ptr - HEADER_SIZE].next - (ptr - HEADER_SIZE) - HEADER_SIZE;
    }

    /** Gives back what is behind the first size bytes of a block, if it is not too little. */
    method ShrinkBlock(ptr: Addr, size: nat, ghost r: nat, ghost k: nat) returns (ghost n: int)
      requires Valid() && Allocated(ptr, r, k) && size <= WORDS - 16
      modifies this
      ensures Valid() && size + HEADER_SIZE <= Needed(size)
      ensures n == if old(SizeOf(lists[r], k)) < Needed(size) + DYN_MIN_SPLIT_SIZE then old(SizeOf(lists[r], k))
                   else Needed(size)
      ensures InUse(r) == old(InUse(r)) - {Block(ptr - HEADER_SIZE, old(SizeOf(lists[r], k)))}
        + {Block(ptr - HEADER_SIZE, n)}
      ensures forall s :: 0 <= s < |lists| && s != r ==> InUse(s) == old(InUse(s))
      ensures forall s, f :: 0 <= s < |lists| && f in InUse(s) ==> Untouched(old(mem), mem, f)
    {
      hide RegionOf, Blocks, BlocksIn, Others, Needed, Untouched, Clear, OnlyIn;
      NothingTouched(mem);
      NeededFits(size);
      var need := Needed(size);
      Regions();
      AtRegion(r);
      TakenAt(mem, lists[r], k);
      var actual := ActualBlockSize(ptr, r, k);
      var blockSize := actual + HEADER_SIZE;
      n := blockSize;
      if need >= blockSize || blockSize - need < DYN_MIN_SPLIT_SIZE {
        return;
      }
      n := need;
      ghost var b' := Divide(ptr - HEADER_SIZE, need, lists[r], k);
      lists := lists[r := b'];
      Replaced(old(mem), old(lists), r);
      ShorterClear(old(lists[r]), ptr - HEADER_SIZE, blockSize, n);
    }

    /** The block at an address in use is somewhere in the list. */
    lemma Find(ptr: Addr, r: nat, n: int) returns (k: nat)
      requires Valid() && r < |lists| && ptr >= HEADER_SIZE && Block(ptr - HEADER_SIZE, n) in InUse(r)
      requires ptr - HEADER_SIZE != first[r]
      ensures Allocated(ptr, r, k) && SizeOf(lists[r], k) == n
    {
      AtRegion(r);
      var e := Block(ptr - HEADER_SIZE, n);
      BlocksAre(mem, lists[r], true, 0, |lists[r]| - 1, e);
      k :| k < |lists[r]| - 1 && BlockAt(mem, lists[r], true, k, e);
    }

    /** Copies what the block of ptr has behind its header into the block of newptr. */
    method Copy(newptr: Addr, ptr: Addr, n: nat, ghost r: nat, ghost e: Block, ghost r0: nat, ghost e0: Block)
      requires Valid() && r < |lists| && r0 < |lists| && e in InUse(r) && e0 in InUse(r0) && (r != r0 || e != e0)
      requires newptr == e.addr + HEADER_SIZE && ptr == e0.addr + HEADER_SIZE && n % 8 == 0
      requires n + HEADER_SIZE <= e.size && n + HEADER_SIZE <= e0.size
      modifies this`mem
      ensures Valid() && forall s :: 0 <= s < |lists| ==> InUse(s) == old(InUse(s))
      ensures Moved(old(mem), ptr, mem, newptr, n)
      ensures forall s, f :: 0 <= s < |lists| && f in InUse(s) && (s != r || f != e) ==> Untouched(old(mem), mem, f)
    {
      hide RegionOf, Blocks, Untouched, MovedAt, Present;
      ghost var m0 := mem;
      Regions();
      RoomIn(m0, lists[r], first[r], last[r], e);
      RoomIn(m0, lists[r0], first[r0], last[r0], e0);
      if r == r0 {
        RegionIsLinked(m0, lists[r], first[r], last[r]);
        BlocksDisjoint(m0, lists[r], e, e0);
      }
      var i := 0;
      while i < n
        invariant i <= n && i % 8 == 0 && mem.Keys == m0.Keys
        invariant forall a :: a in m0 && !(newptr <= a < newptr + n) ==> mem[a] == m0[a]
        invariant forall d: nat :: d < i ==> MovedAt(m0, ptr, mem, newptr, n, d)
      {
        PresentAt(m0, e, i);
        PresentAt(m0, e0, i);
        ghost var m1 := mem;
        mem := mem[newptr + i := mem[ptr + i]];
        MoveStep(m0, ptr, m1, mem, newptr, n, i);
        i := i + 8;
      }
      forall d: nat ensures MovedAt(m0, ptr, mem, newptr, n, d) {
        NothingMore(m0, ptr, mem, newptr, n, d);
      }
      forall s | 0 <= s < |lists|
        ensures RegionAt(s) && InUse(s) == old(InUse(s))
        ensures forall f :: f in InUse(s) && (s != r || f != e) ==> Untouched(m0, mem, f)
      {
        InsideKept(m0, mem, lists[s], first[s], last[s], e);
      }
    }

    /** Takes a block for size bytes, which are more than the block of ptr has, copies what that has and frees it. */
    method MoveBlock(ptr: Addr, size: nat, ghost r: nat,
                     ghost n0: int) returns (newptr: Addr, ghost r': nat, ghost e: Block, ghost n: int)
      requires Valid() && r < |lists| && HEADER_SIZE <= ptr && Block(ptr - HEADER_SIZE, n0) in InUse(r)
      requires ptr - HEADER_SIZE != first[r]
      requires n0 < size + HEADER_SIZE && size <= WORDS - 16
      modifies this
      ensures Valid() && (newptr == 0 ==> mem == old(mem) && lists == old(lists))
      ensures newptr == 0 ==> size == 0 || forall s :: 0 <= s < |lists| ==> NoFit(old(FreeIn(s)), Needed(size))
      ensures newptr != 0 ==> n < Needed(size) + DYN_MIN_SPLIT_SIZE
      ensures newptr != 0 ==> r' < |lists| && e.addr + HEADER_SIZE == newptr && n >= size + HEADER_SIZE && size != 0
      ensures newptr != 0 ==> forall s :: 0 <= s < |lists| ==>
        InUse(s) == old(InUse(s)) + (if s == r' then {Block(e.addr, n)} else {})
          - (if s == r then {Block(ptr - HEADER_SIZE, n0)} else {})
      ensures newptr != 0 ==> Moved(old(mem), ptr, mem, newptr, n0 - HEADER_SIZE)
      ensures forall s, f :: 0 <= s < |lists| && f in InUse(s) && !(newptr != 0 && s == r' && f == Block(e.addr, n)) ==>
        Untouched(old(mem), mem, f)
    {
      hide RegionOf, Blocks, BlocksIn, Needed, BestFit, NoFit, Untouched, Moved;
      NeededFits(size);
      NothingTouched(mem);
      ghost var e0, m0 := Block(ptr - HEADER_SIZE, n0), mem;
      UsualSizes(size);
      newptr, r', e, n := Malloc(size);
      if newptr == 0 {
        return;
      }
      ghost var k := Find(ptr, r, n0);
      var copied := ActualBlockSize(ptr, r, k);
      ghost var e1, m1 := Block(e.addr, n), mem;
      SizesOfEight(r, e0);
      Copy(newptr, ptr, copied, r', e1, r, e0);
      ghost var m2 := mem;
      label Copied:
      k := Find(ptr, r, n0);
      Free(ptr, r, k);
      MovedThrough(m0, m1, e0, m2, mem, e1, ptr, newptr, copied);
      forall s, f | 0 <= s < |lists| && f in InUse(s) && !(s == r' && f == e1) ensures Untouched(m0, mem, f) {
        assert f in old(InUse(s)) && f in old@Copied(InUse(s));
        UntouchedThrough(m0, m1, m2, mem, f);
      }
    }

    lemma SizesOfEight(r: nat, e: Block)
      requires Valid() && r < |lists| && e in InUse(r)
      ensures e.size % 8 == 0 && HEADER_SIZE <= e.size
    {
      hide RegionOf, Blocks;
      Regions();
      RoomIn(mem, lists[r], first[r], last[r], e);
    }

    /** Makes a block larger or smaller. What it has behind its header is kept, as far as the new size allows,
        and no other block in use is touched. When it is too small and no free block is large enough, it stays
        as it is. For sizes where Malloc takes too small a block, the source would copy more than it has room
        for. */
    method Realloc(ptr: Addr, size: nat, ghost r: nat,
                   ghost k: nat) returns (newptr: Addr, ghost r': nat, ghost e: Block)
      requires Valid() && (ptr == 0 || Allocated(ptr, r, k)) && size <= WORDS - 16
      modifies this
      ensures Valid()
      ensures newptr != 0 ==>
        r' < |lists| && e.addr + HEADER_SIZE == newptr && e.size >= size + HEADER_SIZE && size != 0
      ensures newptr == 0 && !(ptr != 0 && size == 0) ==> mem == old(mem) && lists == old(lists)
      ensures ptr != 0 && size == 0 ==> newptr == 0
      ensures newptr == 0 && size != 0 ==>
        && (ptr != 0 ==> old(SizeOf(lists[r], k)) < size + HEADER_SIZE)
        && forall s :: 0 <= s < |lists| ==> NoFit(old(FreeIn(s)), Needed(size))
      ensures newptr != 0 ==> e.size < Needed(size) + DYN_MIN_SPLIT_SIZE
      ensures ptr != 0 && size != 0 && size + HEADER_SIZE <= old(SizeOf(lists[r], k)) ==> newptr == ptr
      ensures var size0 := if ptr != 0 then old(SizeOf(lists[r], k)) else 0;
        var moved := ptr != 0 && newptr != 0 && size0 < size + HEADER_SIZE;
        var more := if newptr != 0 then {e} else {};
        var gone := if ptr != 0 && (newptr != 0 || size == 0) then {Block(ptr - HEADER_SIZE, size0)} else {};
        forall s :: 0 <= s < |lists| ==>
          InUse(s) == if moved then old(InUse(s)) + (if s == r' then more else {}) - (if s == r then gone else {})
                      else old(InUse(s)) - (if s == r then gone else {}) + (if s == r' then more else {})
      ensures ptr != 0 && newptr != 0 ==>
        var size0 := old(SizeOf(lists[r], k));
        Moved(old(mem), ptr, mem, newptr, (if size0 < e.size then size0 else e.size) - HEADER_SIZE)
      ensures forall s, f :: 0 <= s < |lists| && f in InUse(s) && !(newptr != 0 && s == r' && f == e) ==>
        Untouched(old(mem), mem, f)
    {
      hide RegionOf, Blocks, BlocksIn, Needed, BestFit, NoFit, Untouched, Moved;
      r', e := r, Block(0, 0);
      ghost var n;
      NeededFits(size);
      NothingTouched(mem);
      if ptr == 0 {
        UsualSizes(size);
        newptr, r', e, n := Malloc(size);
        e := Block(e.addr, n);
        return;
      }
      Regions();
      AtRegion(r);
      TakenAt(mem, lists[r], k);
      Neighbours(mem, lists[r], k);
      Ascending(mem, lists[r]);
      ghost var n0 := SizeOf(lists[r], k);
      ghost var e0 := Block(ptr - HEADER_SIZE, n0);
      if size == 0 {
        Free(ptr, r, k);
        return 0, r', e;
      }
      var actual := ActualBlockSize(ptr, r, k);
      if actual == size {
        e := e0;
        MovedInPlace(mem, mem, ptr, e0);
        return ptr, r', e;
      }
      if size < actual {
        n := ShrinkBlock(ptr, size, r, k);
        e := Block(ptr - HEADER_SIZE, n);
        MovedInPlace(old(mem), mem, ptr, e);
        return ptr, r', e;
      }
      label Moving:
      newptr, r', e, n := MoveBlock(ptr, size, r, n0);
      assert forall s :: 0 <= s < |old(lists)| ==> old(FreeIn(s)) == old@Moving(FreeIn(s));
      e := Block(e.addr, n);
    }

  }

  /** A block in use among the others of its list. */
  lemma TakenAt(m: Memory, b: seq<Addr>, k: nat)
    requires Region(m, b) && 0 < k < |b| - 1 && !FreeAt(m, b, k)
    ensures var e := Block(b[k], SizeOf(b, k));
      Linked(m, b) && Apart(m, b, k) && Others(m, b, true, k) == Blocks(m, b, true) - {e} && e in Blocks(m, b, true)
  {
    hide Blocks, BlocksIn, Others;
    BlocksAround(m, b, true, k);
    InMemory(m, b);
  }

  ghost predicate RegionOf(m: Memory, b: seq<Addr>, lo: Addr, hi: Addr) {
    Region(m, b) && b[0] == lo && b[|b| - 1] == hi < WORDS && Present(m, lo, hi)
  }

  lemma RegionChanged(m: Memory, m': Memory, b: seq<Addr>, b': seq<Addr>, lo: Addr, hi: Addr)
    requires RegionOf(m, b, lo, hi) && Changed(m, m', b, b')
    ensures RegionOf(m', b', lo, hi) && Within(m, m', lo, hi)
  {
  }

  /** A region stays as it is when there are changes in another one. */
  lemma RegionApart(m: Memory, m': Memory, b: seq<Addr>, lo: Addr, hi: Addr, lo0: Addr, hi0: Addr)
    requires RegionOf(m, b, lo, hi) && (hi < lo0 || hi0 < lo) && Within(m, m', lo0, hi0)
    ensures RegionOf(m', b, lo, hi) && Blocks(m', b, true) == Blocks(m, b, true)
    ensures forall f :: f in Blocks(m, b, true) ==> Untouched(m, m', f)
  {
    hide Blocks, BlocksIn, Apart;
    Ascending(m, b);
    RegionKept(m, m', b);
    forall f | f in Blocks(m, b, true) ensures Untouched(m, m', f) {
      BlockClear(m, b, true, f);
    }
  }

  /** The first n bytes from address from on are now found from address to on. */
  ghost predicate Moved(m: Memory, from: Addr, m': Memory, to: Addr, n: int) {
    forall d: nat :: MovedAt(m, from, m', to, n, d)
  }

  ghost predicate MovedAt(m: Memory, from: Addr, m': Memory, to: Addr, n: int, d: nat) {
    d < n && d % 8 == 0 && from + d in m ==> to + d in m' && m'[to + d] == m[from + d]
  }

  lemma MovedInPlace(m: Memory, m': Memory, ptr: Addr, e: Block)
    requires Untouched(m, m', e) && e.addr + HEADER_SIZE == ptr
    ensures Moved(m, ptr, m', ptr, e.size - HEADER_SIZE)
  {
    var n := e.size - HEADER_SIZE;
    forall d: nat ensures MovedAt(m, ptr, m', ptr, n, d) {
    }
  }

  /** What was copied is what was there before, and stays. */
  lemma MovedThrough(m: Memory, m1: Memory, e0: Block, m2: Memory, m': Memory, e1: Block, from: Addr, to: Addr, n: nat)
    requires Untouched(m, m1, e0) && Moved(m1, from, m2, to, n) && Untouched(m2, m', e1)
    requires from == e0.addr + HEADER_SIZE && to == e1.addr + HEADER_SIZE && n + HEADER_SIZE <= e0.size
    requires n + HEADER_SIZE <= e1.size
    ensures Moved(m, from, m', to, n)
  {
    forall d: nat ensures MovedAt(m, from, m', to, n, d) {
      assert MovedAt(m1, from, m2, to, n, d);
    }
  }

  lemma UntouchedThrough(m: Memory, m1: Memory, m2: Memory, m': Memory, f: Block)
    requires Untouched(m, m1, f) && Untouched(m1, m2, f) && Untouched(m2, m', f)
    ensures Untouched(m, m', f)
  {
  }

  lemma NothingMore(m: Memory, from: Addr, m': Memory, to: Addr, n: nat, d: nat)
    requires d < n ==> MovedAt(m, from, m', to, n, d)
    ensures MovedAt(m, from, m', to, n, d)
  {
  }

  lemma MoveStep(m: Memory, from: Addr, m1: Memory, m': Memory, to: Addr, n: nat, i: nat)
    requires i % 8 == 0 && from + i in m && from + i in m1 && m1[from + i] == m[from + i]
    requires m' == m1[to + i := m1[from + i]]
    requires forall d: nat :: d < i ==> MovedAt(m, from, m1, to, n, d)
    ensures forall d: nat :: d < i + 8 ==> MovedAt(m, from, m', to, n, d)
  {
    forall d: nat | d < i + 8 ensures MovedAt(m, from, m', to, n, d) {
      if d < i {
        assert MovedAt(m, from, m1, to, n, d);
      }
    }
  }

  /** All of a block can be read and written. */
  lemma RoomIn(m: Memory, b: seq<Addr>, lo: Addr, hi: Addr, e: Block)
    requires RegionOf(m, b, lo, hi) && e in Blocks(m, b, true)
    ensures lo <= e.addr < e.addr + e.size <= hi && e.addr % 8 == 0 && e.size % 8 == 0 && HEADER_SIZE <= e.size
    ensures Present(m, e.addr, e.addr + e.size)
  {
    hide Apart, Blocks;
    BlockClear(m, b, true, e);
    BlocksOfEight(m, b, e);
  }

  lemma PresentAt(m: Memory, e: Block, i: nat)
    requires e.size >= 0 && Present(m, e.addr, e.addr + e.size) && e.addr % 8 == 0 && i % 8 == 0
    requires HEADER_SIZE + i <= e.size
    ensures e.addr + HEADER_SIZE + i in m
  {
  }

  lemma BlocksOfEight(m: Memory, b: seq<Addr>, e: Block)
    requires Linked(m, b) && e in Blocks(m, b, true)
    ensures e.addr % 8 == 0 && e.size % 8 == 0 && HEADER_SIZE <= e.size
  {
    BlocksAre(m, b, true, 0, |b| - 1, e);
    var i :| 0 <= i < |b| - 1 && BlockAt(m, b, true, i, e);
    Ascending(m, b);
    Neighbours(m, b, i);
  }

  /** A region when there are changes inside of one of the blocks in use, or in no block of it. */
  lemma InsideKept(m: Memory, m': Memory, b: seq<Addr>, lo: Addr, hi: Addr, e: Block)
    requires RegionOf(m, b, lo, hi) && m'.Keys == m.Keys
    requires forall a :: a in m && !(e.addr < a < e.addr + e.size) ==> m'[a] == m[a]
    requires e in Blocks(m, b, true) || e.addr + e.size <= lo || hi <= e.addr
    ensures RegionOf(m', b, lo, hi) && Blocks(m', b, true) == Blocks(m, b, true)
    ensures forall f :: f in Blocks(m, b, true) && (f != e || e.addr + e.size <= lo || hi <= e.addr) ==>
      Untouched(m, m', f)
  {
    hide Apart, Blocks, BlocksIn;
    RegionIsLinked(m, b, lo, hi);
    Ascending(m, b);
    if e in Blocks(m, b, true) {
      BlockClear(m, b, true, e);
    }
    forall i | 0 <= i < |b| ensures !(e.addr < b[i] < e.addr + e.size) {
      assert lo <= b[i] <= hi && b[i] in b;
    }
    RegionKept(m, m', b);
    forall f | f in Blocks(m, b, true) && (f != e || e.addr + e.size <= lo || hi <= e.addr)
      ensures Untouched(m, m', f)
    {
      BlockClear(m, b, true, f);
      if e in Blocks(m, b, true) && f != e {
        BlocksDisjoint(m, b, e, f);
      }
    }
  }

  /** Different blocks do not overlap. */
  lemma BlocksDisjoint(m: Memory, b: seq<Addr>, e: Block, f: Block)
    requires Linked(m, b) && e in Blocks(m, b, true) && f in Blocks(m, b, true) && e != f
    ensures e.addr + e.size <= f.addr || f.addr + f.size <= e.addr
  {
    BlocksAre(m, b, true, 0, |b| - 1, e);
    BlocksAre(m, b, true, 0, |b| - 1, f);
    var i :| 0 <= i < |b| - 1 && BlockAt(m, b, true, i, e);
    var j :| 0 <= j < |b| - 1 && BlockAt(m, b, true, j, f);
    Ascending(m, b);
  }

  lemma NothingTouched(m: Memory)
    ensures forall f :: Untouched(m, m, f)
  {
  }

  lemma ShorterClear(b: seq<Addr>, a: Addr, size: int, n: int)
    requires Clear(b, Block(a, size)) && n <= size
    ensures Clear(b, Block(a, n))
  {
  }

  lemma RegionIsLinked(m: Memory, b: seq<Addr>, lo: Addr, hi: Addr)
    requires RegionOf(m, b, lo, hi)
    ensures Linked(m, b)
  {
  }

  lemma FitsIn(m: Memory, b: seq<Addr>, need: nat, e: Block)
    requires b != [] && BestFit(Blocks(m, b, false), need, e)
    ensures e.size >= need
  {
  }

  lemma StillPresent(m: Memory, m': Memory, lo: Addr, hi: Addr)
    requires Present(m, lo, hi) && m.Keys <= m'.Keys
    ensures Present(m', lo, hi)
  {
  }

  lemma CutInside(m: Memory, b: seq<Addr>, k: nat, a: Addr)
    requires Linked(m, b) && 0 < k < |b| - 1 && Present(m, b[0], b[|b| - 1]) && (a - b[k]) % 8 == 0
    requires b[k] <= a <= b[k + 1]
    ensures a in m && a % 8 == 0
  {
    Ascending(m, b);
  }

  lemma SplitEnds(b: seq<Addr>, k: nat, a: Addr)
    requires 0 < k < |b| - 1
    ensures var b' := Split(b, k, a); b'[0] == b[0] && b'[|b'| - 1] == b[|b| - 1] && b'[k + 1] == a && k + 1 < |b'| - 1
  {
  }

  /** A free block is marked as taken. */
  lemma TakeFree(m: Memory, b: seq<Addr>, k: nat)
    requires Region(m, b) && 0 < k < |b| - 1 && FreeAt(m, b, k)
    ensures b[k] in m && b[0] < b[k] < b[|b| - 1]
    ensures var m' := Mark(m, b[k], true);
      && Region(m', b) && !FreeAt(m', b, k) && Within(m, m', b[k], b[k]) && m'.Keys == m.Keys
      && Others(m', b, true, k) == Blocks(m, b, true)
      && Blocks(m', b, true) == Blocks(m, b, true) + {Block(b[k], SizeOf(b, k))}
  {
    hide BlocksIn, Apart, Blocks, Others;
    Marked(m, b, k, true);
    BlocksAround(m, b, true, k);
    BlocksAround(Mark(m, b[k], true), b, true, k);
    Ascending(m, b);
  }

  ghost predicate NoneFits(m: Memory, b: seq<Addr>, t: nat, need: nat) {
    forall x :: 0 <= x < t && x + 1 < |b| && FreeAt(m, b, x) ==> SizeOf(b, x) < need
  }

  ghost predicate SmallestAt(m: Memory, b: seq<Addr>, t: nat, need: nat, k: nat) {
    && 0 < k && k + 1 < |b| && FreeAt(m, b, k) && SizeOf(b, k) >= need
    && forall x :: 0 <= x < t && x + 1 < |b| && FreeAt(m, b, x) && SizeOf(b, x) >= need ==> SizeOf(b, k) <= SizeOf(b, x)
  }

  lemma InRegion(m: Memory, b: seq<Addr>)
    requires Region(m, b)
    ensures Linked(m, b)
  {
  }

  lemma NothingYet(m: Memory, b: seq<Addr>, need: nat)
    requires Linked(m, b)
    ensures NoneFits(m, b, 1, need)
  {
  }

  /** Block t is looked at, after those before it, the best of which is k. */
  lemma OneMore(m: Memory, b: seq<Addr>, t: nat, need: nat, k: nat)
    requires 0 < t < |b| && (FreeAt(m, b, t) ==> t + 1 < |b|)
    ensures NoneFits(m, b, t, need) ==>
      if FreeAt(m, b, t) && SizeOf(b, t) >= need then SmallestAt(m, b, t + 1, need, t) else NoneFits(m, b, t + 1, need)
    ensures SmallestAt(m, b, t, need, k) ==>
      if FreeAt(m, b, t) && need <= SizeOf(b, t) < SizeOf(b, k)
      then SmallestAt(m, b, t + 1, need, t)
      else SmallestAt(m, b, t + 1, need, k)
  {
  }

  lemma FirstTaken(m: Memory, b: seq<Addr>)
    requires Linked(m, b)
    ensures !FreeAt(m, b, 0) && |b| >= 2
  {
  }

  lemma Bounded(m: Memory, b: seq<Addr>, t: nat)
    requires Linked(m, b) && t + 1 < |b| && b[|b| - 1] < WORDS
    ensures SizeOf(b, t) < WORDS - 1 && b[t] + HEADER_SIZE <= b[t + 1]
  {
    Ascending(m, b);
    assert b[t] > 0 && b[t] % 8 == 0;
  }

  lemma NoneInSet(m: Memory, b: seq<Addr>, need: nat)
    requires b != [] && NoneFits(m, b, |b|, need)
    ensures NoFit(Blocks(m, b, false), need)
  {
    forall f | f in Blocks(m, b, false) ensures f.size < need {
      BlocksAre(m, b, false, 0, |b| - 1, f);
      var x: nat :| x < |b| - 1 && BlockAt(m, b, false, x, f);
      assert FreeAt(m, b, x);
    }
  }

  lemma SmallestInSet(m: Memory, b: seq<Addr>, need: nat, k: nat)
    requires b != [] && SmallestAt(m, b, |b|, need, k)
    ensures 0 < k < |b| - 1 && FreeAt(m, b, k) && BestFit(Blocks(m, b, false), need, Block(b[k], SizeOf(b, k)))
  {
    var e := Block(b[k], SizeOf(b, k));
    assert BlockAt(m, b, false, k, e);
    BlocksAre(m, b, false, 0, |b| - 1, e);
    forall f | f in Blocks(m, b, false) && f.size >= need ensures e.size <= f.size {
      BlocksAre(m, b, false, 0, |b| - 1, f);
      var x: nat :| x < |b| - 1 && BlockAt(m, b, false, x, f);
      assert FreeAt(m, b, x);
    }
  }
}
