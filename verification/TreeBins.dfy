/** The 32 tree bins: searching them for the best fit, adding and removing chunks. */
module TreeBins {
  import opened Rings
  import opened Powers
  import opened BinBits
  import opened TreeIndex
  import opened SizeTrie

  /** Tree bin i is the trie t, of sizes that belong to bin i. */
  ghost predicate Bin(m: Heap, t: Trie, at: Addr, i: nat) {
    && Shape(m, t, at, Root, i) && Sorted(t, BinLow(i), BinWidth(i))
    && (forall s :: s in Sizes(t) ==> 0x100 <= s < WORD && ComputeTreeIndex(s) == i)
  }

  /** All tree bins; the map tells which are not empty. */
  ghost predicate Bins(m: Heap, bins: seq<Addr>, bits: bv32, tries: seq<Trie>) {
    && |bins| == 32 && |tries| == 32
    && (forall i :: 0 <= i < 32 ==> Bin(m, tries[i], bins[i], i))
    && (forall i :: 0 <= i < 32 ==> (Marked(bits, i) <==> tries[i].Fork?))
    && (forall i, j :: 0 <= i < j < 32 ==> Nodes(tries[i]) !! Nodes(tries[j]))
  }

  /** Where the search for size s ends in the trie of its bin. */
  method FindSpot(m: Heap, root: Addr, s: nat, i: nat, ghost t: Trie) returns (p: Addr, right: bool)
    requires i < 32 && Shape(m, t, root, Root, i) && Sorted(t, BinLow(i), BinWidth(i)) && t.Fork?
    requires BinLow(i) <= s < BinLow(i) + Pow2(BinWidth(i))
    ensures p == Spot(t, s, BinLow(i), BinWidth(i)) && p in m
    ensures m[p].data.size != s ==> right == Side(t, s, BinLow(i), BinWidth(i))
  {
    hide Shape, BinLow, BinWidth, Pow2, Ring, Elems, LeftShiftForIndex, Sorted, Spot, Side, Key;
    FirstKey(s, i);
    p, right := root, false;
    var key := Shl32(s, LeftShiftForIndex(i));
    ghost var u: Trie, lo: nat, k: nat, parent: Parent := t, BinLow(i), BinWidth(i), Root;
    while true
      invariant u.Fork? && Shape(m, u, p, parent, i) && Sorted(u, lo, k) && lo <= s < lo + Pow2(k)
      invariant k <= 32 && key == Key(s, lo, k)
      invariant Spot(u, s, lo, k) == Spot(t, s, BinLow(i), BinWidth(i))
      invariant Side(u, s, lo, k) == Side(t, s, BinLow(i), BinWidth(i))
      decreases u
    {
      ForkFacts(m, u, p, parent, i);
      OneStep(u, s, lo, k);
      if m[p].data.size == s {
        return;
      }
      NextKey(s, lo, k);
      right := key / 0x8000_0000 % 2 == 1;
      key := Shl32(key, 1);
      var c := if right then m[p].data.child1 else m[p].data.child0;
      ghost var v := if right then u.right else u.left;
      ShapeNodes(m, v, c, Under(p), i);
      if c == 0 {
        return;
      }
      parent := Under(p);
      u, lo, k, p := v, if right then lo + Pow2(k - 1) else lo, k - 1, c;
    }
  }

  /** The search for size s decides at a node. */
  lemma OneStep(t: Trie, s: nat, lo: nat, k: nat)
    requires t.Fork? && Sorted(t, lo, k) && lo <= s < lo + Pow2(k)
    ensures s == t.size ==> Spot(t, s, lo, k) == (if t.ring == [] then 0 else t.ring[0])
    ensures s != t.size ==> 0 < k
    ensures s != t.size ==>
      var right := s >= lo + Pow2(k - 1);
      var lo', c := if right then lo + Pow2(k - 1) else lo, if right then t.right else t.left;
      && Sorted(c, lo', k - 1)
      && (c.Nil? ==> Spot(t, s, lo, k) == (if t.ring == [] then 0 else t.ring[0]) && Side(t, s, lo, k) == right)
      && (c.Fork? ==> Spot(t, s, lo, k) == Spot(c, s, lo', k - 1) && Side(t, s, lo, k) == Side(c, s, lo', k - 1))
  {
    assert Pow2(0) == 1;
  }

  lemma {:induction false} SubShape(m: Heap, t: Trie, at: Addr, parent: Parent, i: nat, x: Addr) returns (above: Parent)
    requires Shape(m, t, at, parent, i) && x in Nodes(t)
    ensures SubOf(t, x).ring != [] && Shape(m, SubOf(t, x), SubOf(t, x).ring[0], above, i)
  {
    hide Ring, Elems;
    ForkFacts(m, t, at, parent, i);
    if x in t.ring {
      above := parent;
    } else if x in Nodes(t.left) {
      above := SubShape(m, t.left, m[at].data.child0, Under(at), i, x);
    } else {
      InRing(t.ring, x);
      above := SubShape(m, t.right, m[at].data.child1, Under(at), i, x);
    }
  }

  /** The chunk that takes the place of x when it is unlinked: the chunk before it in its ring, or
      else the rightmost leaf below it, which hangs from p. */
  method FindReplacement(m: Heap, x: Addr, ghost t: Trie, ghost at: Addr,
                         ghost i: nat) returns (r: Addr, p: Addr, right: bool)
    requires Shape(m, t, at, Root, i) && x in Nodes(t) && x in m
    ensures Replacement(m, t, x, r, p, right) && p in m
  {
    hide Shape, Ring, Elems, LeafOf, LeafUp, LeafSide, SubOf;
    ghost var u := SubOf(t, x);
    ghost var above := SubShape(m, t, at, Root, i, x);
    ForkFacts(m, u, u.ring[0], above, i);
    AloneInRing(m, u, u.ring[0], above, i, x);
    p, right := x, true;
    if m[x].back != x {
      r := m[x].back;
      return;
    }
    r := m[x].data.child1;
    ghost var c := u.right;
    ShapeNodes(m, u.right, r, Under(x), i);
    ShapeNodes(m, u.left, m[x].data.child0, Under(x), i);
    if r == 0 {
      right := false;
      r := m[x].data.child0;
      c := u.left;
    }
    if r == 0 {
      return;
    }
    LeafStep(u, c, right);
    while true
      invariant c.Fork? && Shape(m, c, r, Under(p), i) && p in m && !u.Leaf()
      invariant LeafOf(u) == LeafOf(c)
      invariant if c.Leaf() then LeafUp(u) == p && LeafSide(u) == right
                else LeafUp(u) == LeafUp(c) && LeafSide(u) == LeafSide(c)
      decreases c
    {
      ForkFacts(m, c, r, Under(p), i);
      ShapeNodes(m, c.right, m[r].data.child1, Under(r), i);
      ShapeNodes(m, c.left, m[r].data.child0, Under(r), i);
      if m[r].data.child1 != 0 {
        LeafStep(c, c.right, true);
        p, right, r, c := r, true, m[r].data.child1, c.right;
      } else if m[r].data.child0 != 0 {
        LeafStep(c, c.left, false);
        p, right, r, c := r, false, m[r].data.child0, c.left;
      } else {
        LeafItself(c);
        return;
      }
    }
  }

  lemma AloneInRing(m: Heap, u: Trie, at: Addr, parent: Parent, i: nat, x: Addr)
    requires u.Fork? && Shape(m, u, at, parent, i) && x in u.ring
    ensures x in m && x in Elems(u.ring) && (m[x].back == x <==> |u.ring| == 1) && (|u.ring| == 1 ==> x == at)
  {
    hide Elems;
    InRing(u.ring, x);
    if |u.ring| > 1 {
      RingUnlinked(m, u.ring, u.size, i, x);
    } else {
      OnlyOne(m, u, at, parent, i);
    }
  }

  lemma LeafItself(t: Trie)
    requires t.Leaf()
    ensures LeafOf(t) == t
  {
  }

  lemma LeafStep(t: Trie, c: Trie, right: bool)
    requires t.Fork? && t.ring != [] && c.Fork? && (if right then c == t.right else c == t.left && t.right.Nil?)
    ensures LeafOf(t) == LeafOf(c)
    ensures c.Leaf() ==> LeafUp(t) == t.ring[0] && LeafSide(t) == right
    ensures !c.Leaf() ==> LeafUp(t) == LeafUp(c) && LeafSide(t) == LeafSide(c)
  {
  }

  /** The size s lies in w or beyond all of it. */
  ghost predicate Beyond(w: Trie, s: nat) {
    w.Fork? && (s in Sizes(w) || forall s' :: s' in Sizes(w) ==> s' < s)
  }

  /** Of the sizes in t that fit nb, none is better than a surplus of rsize, but for those in u and
      those that lie in w or beyond. */
  ghost predicate Open(t: Trie, u: Trie, w: Trie, nb: nat, rsize: nat) {
    forall s :: s in Sizes(t) && nb <= s ==> rsize <= s - nb || s in Sizes(u) || Beyond(w, s)
  }

  ghost predicate AtLeast(t: Trie, bound: nat) {
    forall s :: s in Sizes(t) ==> bound <= s
  }

  /** The search goes down one step; what it passes on the right is the next best place to look. */
  lemma SearchStep(t: Trie, u: Trie, w: Trie, nb: nat, rsize: nat, lo: nat, k: nat)
    requires Open(t, u, w, nb, rsize) && u.Fork? && Sorted(u, lo, k) && lo <= nb < lo + Pow2(k)
    requires AtLeast(w, lo + Pow2(k)) && u.size != nb && (nb <= u.size ==> rsize <= u.size - nb)
    ensures 0 < k
    ensures var right := nb >= lo + Pow2(k - 1);
      var lo', c := if right then lo + Pow2(k - 1) else lo, if right then u.right else u.left;
      var w' := if !right && u.right.Fork? then u.right else w;
      Sorted(c, lo', k - 1) && Open(t, c, w', nb, rsize) && AtLeast(w', lo' + Pow2(k - 1))
  {
    hide Pow2, Sorted;
    OneStep(u, nb, lo, k);
    SortedParts(u, lo, k);
    Halved(k);
    SizesInRange(u.left, lo, k - 1);
    SizesInRange(u.right, lo + Pow2(k - 1), k - 1);
    var right := nb >= lo + Pow2(k - 1);
    var c := if right then u.right else u.left;
    var w' := if !right && u.right.Fork? then u.right else w;
    assert w'.Fork? ==> w'.size in Sizes(w');
    assert w.Fork? ==> w.size in Sizes(w);
    forall s | s in Sizes(t) && nb <= s ensures rsize <= s - nb || s in Sizes(c) || Beyond(w', s) {
      if s in Sizes(u) {
        assert s == u.size || s in Sizes(u.left) || s in Sizes(u.right);
      }
    }
  }

  lemma SortedParts(t: Trie, lo: nat, k: nat)
    requires t.Fork? && Sorted(t, lo, k) && 0 < k
    ensures Sorted(t.left, lo, k - 1) && Sorted(t.right, lo + Pow2(k - 1), k - 1)
  {
  }

  lemma Halved(k: nat)
    ensures 0 < k ==> Pow2(k) == 2 * Pow2(k - 1)
  {
  }

  /** The better of v with surplus rsize and the chunk t of size s, by comparing machine words. */
  lemma Surplus(s: nat, nb: nat, rsize: nat)
    requires s < WORD && nb < WORD && rsize <= WORD - nb
    ensures Sub32(s, nb) < rsize <==> nb <= s && s - nb < rsize
    ensures nb <= s ==> Sub32(s, nb) == s - nb
    ensures 0 < nb ==> Sub32(0, nb) == WORD - nb
  {
  }

  /** The chunk v has the surplus rsize; or there is none yet, and the surplus is that of size 0. */
  ghost predicate Choice(m: Heap, nodes: set<Addr>, nb: nat, v: Addr, rsize: nat) {
    if v == 0 then rsize == WORD - nb else v in nodes && v in m && m[v].data.size == nb + rsize
  }

  /** The subtrie u of t at address at. */
  ghost predicate Within(m: Heap, t: Trie, u: Trie, at: Addr, i: nat, lo: nat, k: nat) {
    && (exists parent :: Shape(m, u, at, parent, i)) && Sorted(u, lo, k)
    && Nodes(u) <= Nodes(t) && Sizes(u) <= Sizes(t)
  }

  lemma WithinChildren(m: Heap, t: Trie, u: Trie, at: Addr, i: nat, lo: nat, k: nat)
    requires Within(m, t, u, at, i, lo, k) && u.Fork? && 0 < k
    ensures at in m && at != 0 && at in Nodes(t) && m[at].data.size == u.size && u.size in Sizes(t)
    ensures Within(m, t, u.left, m[at].data.child0, i, lo, k - 1)
    ensures Within(m, t, u.right, m[at].data.child1, i, lo + Pow2(k - 1), k - 1)
    ensures (m[at].data.child0 == 0 <==> u.left.Nil?) && (m[at].data.child1 == 0 <==> u.right.Nil?)
    ensures m[at].data.child0 != 0 ==> m[at].data.child0 != m[at].data.child1
  {
    hide Ring, Elems;
    var parent :| Shape(m, u, at, parent, i);
    ForkFacts(m, u, at, parent, i);
    ShapeNodes(m, u.left, m[at].data.child0, Under(at), i);
    ShapeNodes(m, u.right, m[at].data.child1, Under(at), i);
  }

  lemma WithinNode(m: Heap, t: Trie, u: Trie, at: Addr, i: nat, lo: nat, k: nat)
    requires Within(m, t, u, at, i, lo, k)
    ensures (at == 0 <==> u.Nil?) && Sorted(u, lo, k)
    ensures u.Fork? ==> at in m && at in Nodes(t) && m[at].data.size == u.size && u.size in Sizes(t)
    ensures u.Fork? && k == 0 ==> u.size == lo
  {
    var parent :| Shape(m, u, at, parent, i);
    assert Pow2(0) == 1;
    ShapeNodes(m, u, at, parent, i);
    if u.Fork? {
      ForkFacts(m, u, at, parent, i);
    }
  }

  /** The search of one bin for a chunk that fits nb, along the path to size nb. It ends with a
      chunk, and a subtrie where better ones can be. */
  method SearchBin(m: Heap, root: Addr, nb: nat, i: nat, ghost t: Trie)
      returns (v: Addr, rsize: nat, rest: Addr, ghost w: Trie, ghost low: nat, ghost width: nat)
    requires i < 32 && Bin(m, t, root, i) && t.Fork? && 0x100 <= nb < WORD && ComputeTreeIndex(nb) == i
    ensures rsize <= WORD - nb && Choice(m, Nodes(t), nb, v, rsize)
    ensures Within(m, t, w, rest, i, low, width) && Open(t, Nil, w, nb, rsize) && (rsize == 0 || AtLeast(w, nb))
  {
    hide Shape, BinLow, BinWidth, Pow2, LeftShiftForIndex, Sorted, Key, Within, Open, AtLeast, ComputeTreeIndex;
    IndexRange(nb);
    FirstKey(nb, i);
    Surplus(0, nb, 0);
    SearchBegins(m, root, nb, i, t);
    var p: Addr, rst: Addr := root, 0;
    var key := Shl32(nb, LeftShiftForIndex(i));
    v, rsize := 0, Sub32(0, nb);
    ghost var u: Trie, lo: nat, k: nat := t, BinLow(i), BinWidth(i);
    w, low, width := Nil, 0, 0;
    while true
      invariant u.Fork? && Within(m, t, u, p, i, lo, k) && lo <= nb < lo + Pow2(k)
      invariant k <= 32 && key == Key(nb, lo, k) && 0 < rsize <= WORD - nb && Choice(m, Nodes(t), nb, v, rsize)
      invariant Within(m, t, w, rst, i, low, width) && Open(t, u, w, nb, rsize) && AtLeast(w, lo + Pow2(k))
      decreases u
    {
      WithinNode(m, t, u, p, i, lo, k);
      Surplus(m[p].data.size, nb, rsize);
      var trem := Sub32(m[p].data.size, nb);
      if trem < rsize {
        OpenCloser(t, u, w, nb, rsize, trem);
        v, rsize := p, trem;
        if rsize == 0 {
          Exact(t, u, nb);
          rest, w, low, width := p, u, lo, k;
          return;
        }
      }
      NotExact(u, nb, rsize);
      SearchStep(t, u, w, nb, rsize, lo, k);
      WithinChildren(m, t, u, p, i, lo, k);
      NextKey(nb, lo, k);
      var right := key / 0x8000_0000 % 2 == 1;
      var rt := m[p].data.child1;
      p := if right then m[p].data.child1 else m[p].data.child0;
      if rt != 0 && rt != p {
        rst, w, low, width := rt, u.right, lo + Pow2(k - 1), k - 1;
      }
      u, lo, k := if right then u.right else u.left, if right then lo + Pow2(k - 1) else lo, k - 1;
      if p == 0 {
        NothingLeft(t, u, w, nb, rsize, lo + Pow2(k));
        rest := rst;
        return;
      }
      key := Shl32(key, 1);
    }
  }

  lemma SearchBegins(m: Heap, root: Addr, nb: nat, i: nat, t: Trie)
    requires Bin(m, t, root, i) && nb < WORD
    ensures Within(m, t, t, root, i, BinLow(i), BinWidth(i)) && Within(m, t, Nil, 0, i, 0, 0)
    ensures Open(t, t, Nil, nb, WORD - nb) && AtLeast(Nil, BinLow(i) + Pow2(BinWidth(i)))
    ensures forall s :: s in Sizes(t) ==> s < WORD
  {
    assert Shape(m, Nil, 0, Root, i);
  }

  lemma OpenCloser(t: Trie, u: Trie, w: Trie, nb: nat, rsize: nat, rsize': nat)
    requires Open(t, u, w, nb, rsize) && rsize' <= rsize
    ensures Open(t, u, w, nb, rsize')
  {
  }

  lemma Exact(t: Trie, u: Trie, nb: nat)
    ensures Open(t, Nil, u, nb, 0)
  {
  }

  lemma NotExact(u: Trie, nb: nat, rsize: nat)
    requires u.Fork? && 0 < rsize && (nb <= u.size ==> rsize <= u.size - nb)
    ensures u.size != nb
  {
  }

  lemma NothingLeft(t: Trie, u: Trie, w: Trie, nb: nat, rsize: nat, bound: nat)
    requires Open(t, u, w, nb, rsize) && u.Nil? && AtLeast(w, bound) && nb <= bound
    ensures Open(t, Nil, w, nb, rsize) && AtLeast(w, nb)
  {
  }

  /** Of the sizes in t that fit nb, none is better than a surplus of rsize, but when u holds a size
      that is at least as good. */
  ghost predicate Narrowed(t: Trie, u: Trie, nb: nat, rsize: nat) {
    forall s :: s in Sizes(t) && nb <= s ==> rsize <= s - nb || exists s' :: s' in Sizes(u) && s' <= s
  }

  /** Going down to the left, or to the right where there is no left, narrows the search. */
  lemma NarrowStep(t: Trie, u: Trie, nb: nat, rsize: nat, lo: nat, k: nat)
    requires u.Fork? && Sorted(u, lo, k) && Narrowed(t, u, nb, rsize)
    requires rsize == 0 || (nb <= u.size && rsize <= u.size - nb)
    ensures Narrowed(t, if u.left.Fork? then u.left else u.right, nb, rsize)
  {
    if k > 0 {
      SizesInRange(u.left, lo, k - 1);
      SizesInRange(u.right, lo + Pow2(k - 1), k - 1);
    }
    var c := if u.left.Fork? then u.left else u.right;
    forall s | s in Sizes(t) && nb <= s && !(rsize <= s - nb) ensures exists s' :: s' in Sizes(c) && s' <= s {
      var s' :| s' in Sizes(u) && s' <= s;
      if u.left.Fork? {
        assert u.left.size in Sizes(u.left);
      }
    }
  }

  lemma NarrowStart(t: Trie, nb: nat, rsize: nat)
    ensures Narrowed(t, t, nb, rsize)
  {
  }

  lemma NarrowCloser(t: Trie, u: Trie, nb: nat, rsize: nat, rsize': nat)
    requires Narrowed(t, u, nb, rsize) && rsize' <= rsize
    ensures Narrowed(t, u, nb, rsize')
  {
  }

  lemma NarrowEnd(t: Trie, nb: nat, rsize: nat)
    requires Narrowed(t, Nil, nb, rsize)
    ensures forall s :: s in Sizes(t) && nb <= s ==> rsize <= s - nb
  {
  }

  function LeftmostChild(m: Heap, t: Addr): Addr
    requires t in m
  {
    if m[t].data.child0 != 0 then m[t].data.child0 else m[t].data.child1
  }

  lemma WithinLeftmost(m: Heap, t: Trie, u: Trie, at: Addr, i: nat, lo: nat, k: nat) returns (lo': nat, k': nat)
    requires Within(m, t, u, at, i, lo, k) && u.Fork?
    ensures at in m && Within(m, t, if u.left.Fork? then u.left else u.right, LeftmostChild(m, at), i, lo', k')
  {
    hide Shape, Ring, Elems;
    if k == 0 {
      var parent :| Shape(m, u, at, parent, i);
      ForkFacts(m, u, at, parent, i);
      ShapeNodes(m, u.left, m[at].data.child0, Under(at), i);
      ShapeNodes(m, u.right, m[at].data.child1, Under(at), i);
      lo', k' := lo, k;
    } else {
      WithinChildren(m, t, u, at, i, lo, k);
      lo', k' := if u.left.Fork? then lo else lo + Pow2(k - 1), k - 1;
    }
  }

  /** The smallest chunk of a subtrie of chunks that all fit nb, when that is better than v0. */
  method SmallestOf(m: Heap, at: Addr, nb: nat, v0: Addr, rsize0: nat, ghost t: Trie, ghost w: Trie,
                    ghost i: nat, ghost low: nat, ghost width: nat) returns (v: Addr, rsize: nat)
    requires Within(m, t, w, at, i, low, width) && nb < WORD && (forall s :: s in Sizes(t) ==> s < WORD)
    requires rsize0 <= WORD - nb && Choice(m, Nodes(t), nb, v0, rsize0) && (rsize0 == 0 || AtLeast(w, nb))
    ensures rsize <= rsize0 && Choice(m, Nodes(t), nb, v, rsize)
    ensures forall s :: s in Sizes(w) && nb <= s ==> rsize <= s - nb
  {
    hide Within, Sorted, Narrowed, LeftmostChild, Nodes;
    v, rsize := v0, rsize0;
    var p := at;
    ghost var u: Trie, lo: nat, k: nat := w, low, width;
    NarrowStart(w, nb, rsize);
    WithinNode(m, t, w, at, i, low, width);
    while p != 0
      invariant Within(m, t, u, p, i, lo, k) && Sizes(u) <= Sizes(w) && (p == 0 <==> u.Nil?)
      invariant rsize <= rsize0 && Choice(m, Nodes(t), nb, v, rsize) && Narrowed(w, u, nb, rsize)
      decreases u
    {
      WithinNode(m, t, u, p, i, lo, k);
      Surplus(m[p].data.size, nb, rsize);
      var trem := Sub32(m[p].data.size, nb);
      if trem < rsize {
        NarrowCloser(w, u, nb, rsize, trem);
        v, rsize := p, trem;
      }
      NarrowStep(w, u, nb, rsize, lo, k);
      ghost var lo', k' := WithinLeftmost(m, t, u, p, i, lo, k);
      p := LeftmostChild(m, p);
      u, lo, k := if u.left.Fork? then u.left else u.right, lo', k';
      WithinNode(m, t, u, p, i, lo, k);
    }
    NarrowEnd(w, nb, rsize);
  }

  /** All chunks of the tree bins. */
  ghost function Binned(tries: seq<Trie>): set<Addr> {
    set i, x | 0 <= i < |tries| && x in Nodes(tries[i]) :: x
  }

  /** The chunk v is one of the smallest that fit nb, with surplus rsize; v is 0 when none fits. */
  ghost predicate BestFit(m: Heap, tries: seq<Trie>, nb: nat, v: Addr, rsize: nat) {
    && Choice(m, Binned(tries), nb, v, rsize)
    && (forall i, s :: 0 <= i < |tries| && s in Sizes(tries[i]) && nb <= s ==> v != 0 && rsize <= s - nb)
  }

  lemma BinOf(m: Heap, bins: seq<Addr>, bits: bv32, tries: seq<Trie>, i: nat)
    requires Bins(m, bins, bits, tries) && i < 32
    ensures Bin(m, tries[i], bins[i], i) && (Marked(bits, i) <==> tries[i].Fork?) && (bins[i] == 0 <==> tries[i].Nil?)
    ensures forall s :: s in Sizes(tries[i]) ==> 0x100 <= s < WORD && ComputeTreeIndex(s) == i
  {
    ShapeNodes(m, tries[i], bins[i], Root, i);
  }

  /** No chunk of bins below i is large enough. */
  ghost predicate NoneBelow(tries: seq<Trie>, nb: nat, i: nat) {
    forall j, s :: 0 <= j < i && j < |tries| && s in Sizes(tries[j]) ==> s < nb
  }

  /** The best fit of the first bin that holds a fit is the best of all. */
  lemma BestInBin(m: Heap, bins: seq<Addr>, bits: bv32, tries: seq<Trie>, nb: nat, i: nat, v: Addr, rsize: nat,
                  fit: nat)
    requires Bins(m, bins, bits, tries) && i < 32 && NoneBelow(tries, nb, i) && nb < WORD
    requires Choice(m, Nodes(tries[i]), nb, v, rsize) && fit in Sizes(tries[i]) && nb <= fit
    requires forall s :: s in Sizes(tries[i]) && nb <= s ==> rsize <= s - nb
    ensures BestFit(m, tries, nb, v, rsize)
  {
    hide Bins, Bin, ComputeTreeIndex;
    BinCount(m, bins, bits, tries);
    BinOf(m, bins, bits, tries, i);
    assert v != 0;
    assert v in Binned(tries);
    SizeInBin(m, bins, bits, tries, i, v);
    forall j, s | 0 <= j < |tries| && s in Sizes(tries[j]) && nb <= s ensures rsize <= s - nb {
      BinOf(m, bins, bits, tries, j);
      if i < j {
        BinsInOrder(m[v].data.size, s);
      }
    }
  }

  lemma BinCount(m: Heap, bins: seq<Addr>, bits: bv32, tries: seq<Trie>)
    requires Bins(m, bins, bits, tries)
    ensures |tries| == 32 && |bins| == 32
  {
  }

  lemma SizeInBin(m: Heap, bins: seq<Addr>, bits: bv32, tries: seq<Trie>, i: nat, x: Addr)
    requires Bins(m, bins, bits, tries) && i < 32 && x in Nodes(tries[i])
    ensures x in m && m[x].data.size in Sizes(tries[i]) && m[x].data.index == i
  {
    SizeOfNode(m, tries[i], bins[i], Root, i);
  }

  lemma NoneFits(m: Heap, bins: seq<Addr>, bits: bv32, tries: seq<Trie>, nb: nat)
    requires Bins(m, bins, bits, tries) && NoneBelow(tries, nb, 32) && nb < WORD
    ensures BestFit(m, tries, nb, 0, WORD - nb)
  {
  }

  lemma LowerBins(m: Heap, bins: seq<Addr>, bits: bv32, tries: seq<Trie>, nb: nat)
    requires Bins(m, bins, bits, tries) && 0x100 <= nb < WORD
    ensures NoneBelow(tries, nb, ComputeTreeIndex(nb))
  {
    hide Bin, ComputeTreeIndex;
    forall j, s | 0 <= j < ComputeTreeIndex(nb) && j < |tries| && s in Sizes(tries[j]) ensures s < nb {
      BinOf(m, bins, bits, tries, j);
      BinsInOrder(s, nb);
    }
  }

  /** The bits of the map that lie behind bit idx: none, or the lowest of them is bit i. */
  lemma NextBin(bits: bv32, idx: nat) returns (i: nat)
    requires idx < 32
    ensures Both(LeftBits(BitOf(idx)), bits) == 0 ==> i == 32 && forall j :: idx < j < 32 ==> !Marked(bits, j)
    ensures Both(LeftBits(BitOf(idx)), bits) != 0 ==> idx < i < 32 && Marked(bits, i)
    ensures Both(LeftBits(BitOf(idx)), bits) != 0 ==>
      BitToIndex(LeastBit(Both(LeftBits(BitOf(idx)), bits))) as nat == i && forall j :: idx < j < i ==> !Marked(bits, j)
  {
    hide Both, LeftBits, BitOf, LeastBit, BitToIndex, Marked;
    var left := Both(LeftBits(BitOf(idx)), bits);
    forall j ensures Marked(left, j) <==> idx < j && Marked(bits, j) {
      LeftOfBit(bits, idx, j);
    }
    if left == 0 {
      i := 32;
      forall j | idx < j < 32 ensures !Marked(bits, j) {
        MarkedNone(j);
      }
    } else {
      FitsBelow(left, 32);
      i := LeastBitOf(left, 32);
      IndexOfBit(i);
    }
  }

  lemma EmptyBins(m: Heap, bins: seq<Addr>, bits: bv32, tries: seq<Trie>, nb: nat, idx: nat, i: nat)
    requires Bins(m, bins, bits, tries) && idx < i <= 32 && NoneBelow(tries, nb, idx)
    requires forall s :: s in Sizes(tries[idx]) ==> s < nb
    requires forall j :: idx < j < i ==> !Marked(bits, j)
    ensures NoneBelow(tries, nb, i)
  {
  }

  /** The search of the bin of the size itself. Nothing is found if and only if nothing there fits. */
  method SearchSame(m: Heap, bins: seq<Addr>, bits: bv32, nb: nat, ghost tries: seq<Trie>) returns (v: Addr, rsize: nat)
    requires Bins(m, bins, bits, tries) && 0x100 <= nb < WORD
    ensures ComputeTreeIndex(nb) < 32 && rsize <= WORD - nb
    ensures v != 0 ==> BestFit(m, tries, nb, v, rsize)
    ensures v == 0 ==> rsize == WORD - nb && forall s :: s in Sizes(tries[ComputeTreeIndex(nb)]) ==> s < nb
  {
    hide Bins, Bin, BestFit, NoneBelow, ComputeTreeIndex, Within, Choice, Open;
    BinCount(m, bins, bits, tries);
    IndexRange(nb);
    Surplus(0, nb, 0);
    LowerBins(m, bins, bits, tries, nb);
    var idx := ComputeTreeIndex(nb);
    BinOf(m, bins, bits, tries, idx);
    v, rsize := 0, Sub32(0, nb);
    var t := bins[idx];
    if t != 0 {
      ghost var w, low, width;
      v, rsize, t, w, low, width := SearchBin(m, t, nb, idx, tries[idx]);
      ghost var r1 := rsize;
      if t != 0 || v != 0 {
        ghost var fit := SomethingFits(m, tries[idx], bins[idx], w, t, nb, v, rsize, idx, low, width);
        v, rsize := SmallestOf(m, t, nb, v, rsize, tries[idx], w, idx, low, width);
        OpenEnds(tries[idx], w, nb, r1, rsize);
        BestInBin(m, bins, bits, tries, nb, idx, v, rsize, fit);
        BestIsSome(m, tries, nb, v, rsize, idx, fit);
        return;
      }
      NothingFits(m, tries[idx], w, t, nb, rsize, idx, low, width);
    }
  }

  /** The search of all tree bins for the best fit of a large request. */
  method SearchLarge(m: Heap, bins: seq<Addr>, bits: bv32, nb: nat,
                     ghost tries: seq<Trie>) returns (v: Addr, rsize: nat)
    requires Bins(m, bins, bits, tries) && 0x100 <= nb < WORD
    ensures BestFit(m, tries, nb, v, rsize) && rsize <= WORD - nb
  {
    hide Bins, Bin, BestFit, NoneBelow, ComputeTreeIndex, Both, LeftBits, BitOf, LeastBit, BitToIndex, Marked, Within,
         Choice, Open;
    v, rsize := SearchSame(m, bins, bits, nb, tries);
    if v != 0 {
      return;
    }
    BinCount(m, bins, bits, tries);
    LowerBins(m, bins, bits, tries, nb);
    var idx := ComputeTreeIndex(nb);
    var leftbits := Both(LeftBits(BitOf(idx)), bits);
    ghost var next := NextBin(bits, idx);
    EmptyBins(m, bins, bits, tries, nb, idx, next);
    if leftbits != 0 {
      var i := BitToIndex(LeastBit(leftbits)) as nat;
      BinOf(m, bins, bits, tries, i);
      ghost var fit := AllFitNext(tries[i], nb, idx, i);
      WholeBin(m, tries[i], bins[i], nb, i);
      v, rsize := SmallestOf(m, bins[i], nb, v, rsize, tries[i], tries[i], i, BinLow(i), BinWidth(i));
      BestInBin(m, bins, bits, tries, nb, i, v, rsize, fit);
    } else {
      NoneFits(m, bins, bits, tries, nb);
    }
  }

  lemma BestIsSome(m: Heap, tries: seq<Trie>, nb: nat, v: Addr, rsize: nat, i: nat, fit: nat)
    requires BestFit(m, tries, nb, v, rsize) && i < |tries| && fit in Sizes(tries[i]) && nb <= fit && i < 32
    ensures v != 0
  {
  }

  lemma WholeBin(m: Heap, t: Trie, at: Addr, nb: nat, i: nat)
    requires Bin(m, t, at, i)
    ensures Within(m, t, t, at, i, BinLow(i), BinWidth(i)) && (nb < WORD ==> Choice(m, Nodes(t), nb, 0, WORD - nb))
  {
  }

  /** All sizes of a higher bin fit. */
  lemma AllFitNext(t: Trie, nb: nat, idx: nat, i: nat) returns (fit: nat)
    requires t.Fork? && 0x100 <= nb < WORD && idx == ComputeTreeIndex(nb) < i
    requires forall s :: s in Sizes(t) ==> 0x100 <= s < WORD && ComputeTreeIndex(s) == i
    ensures AtLeast(t, nb) && fit in Sizes(t) && nb <= fit
  {
    hide ComputeTreeIndex;
    fit := t.size;
    forall s | s in Sizes(t) ensures nb <= s {
      BinsInOrder(nb, s);
    }
    assert fit in Sizes(t);
  }

  lemma SomethingFits(m: Heap, t: Trie, root: Addr, w: Trie, at: Addr, nb: nat, v: Addr, rsize: nat, i: nat, low: nat,
                      width: nat) returns (fit: nat)
    requires Bin(m, t, root, i) && Choice(m, Nodes(t), nb, v, rsize) && Within(m, t, w, at, i, low, width)
    requires (rsize == 0 || AtLeast(w, nb)) && (v != 0 || at != 0) && nb < WORD
    ensures fit in Sizes(t) && nb <= fit
  {
    WithinNode(m, t, w, at, i, low, width);
    SizeOfNode(m, t, root, Root, i);
    fit := if v != 0 then m[v].data.size else w.size;
  }

  /** Beyond everything in w there is nothing better than what w holds. */
  lemma OpenEnds(t: Trie, w: Trie, nb: nat, rsize: nat, rsize': nat)
    requires Open(t, Nil, w, nb, rsize) && rsize' <= rsize && (rsize == 0 || AtLeast(w, nb))
    requires forall s :: s in Sizes(w) && nb <= s ==> rsize' <= s - nb
    ensures forall s :: s in Sizes(t) && nb <= s ==> rsize' <= s - nb
  {
    if w.Fork? {
      assert w.size in Sizes(w);
    }
  }

  lemma NothingFits(m: Heap, t: Trie, w: Trie, at: Addr, nb: nat, rsize: nat, i: nat, low: nat, width: nat)
    requires Within(m, t, w, at, i, low, width) && at == 0 && Open(t, Nil, w, nb, rsize)
    requires Choice(m, Nodes(t), nb, 0, rsize)
    requires forall s :: s in Sizes(t) ==> s < WORD
    ensures rsize == WORD - nb
    ensures forall s :: s in Sizes(t) ==> s < nb
  {
    WithinNode(m, t, w, at, i, low, width);
  }

  /** The search of all tree bins for the best fit of a small request: every chunk there fits, so
      the smallest chunk of the first bin that is not empty is the best. */
  method SearchSmall(m: Heap, bins: seq<Addr>, bits: bv32, nb: nat,
                     ghost tries: seq<Trie>) returns (v: Addr, rsize: nat)
    requires Bins(m, bins, bits, tries) && nb <= 0x100 && bits != 0
    ensures BestFit(m, tries, nb, v, rsize) && v != 0
  {
    hide Bins, Bin, NoneBelow, ComputeTreeIndex, LeastBit, BitToIndex, Marked, Within, Choice, Sorted, Narrowed, Pow2,
         LeftmostChild;
    BinCount(m, bins, bits, tries);
    ghost var first := FirstBin(bits);
    var i := BitToIndex(LeastBit(bits)) as nat;
    BinOf(m, bins, bits, tries, i);
    FirstOfAll(m, bins, bits, tries, nb, i);
    WholeBin(m, tries[i], bins[i], nb, i);
    WithinNode(m, tries[i], tries[i], bins[i], i, BinLow(i), BinWidth(i));
    var t := bins[i];
    v, rsize := t, m[t].data.size - nb;
    ghost var u := if tries[i].left.Fork? then tries[i].left else tries[i].right;
    NarrowStart(tries[i], nb, rsize);
    NarrowStep(tries[i], tries[i], nb, rsize, BinLow(i), BinWidth(i));
    ghost var lo, k := WithinLeftmost(m, tries[i], tries[i], t, i, BinLow(i), BinWidth(i));
    ghost var r0 := rsize;
    RootIsChoice(m, tries[i], nb, t);
    BelowRoot(m, tries[i], u, LeftmostChild(m, t), nb, i, lo, k);
    v, rsize := SmallestOf(m, LeftmostChild(m, t), nb, v, rsize, tries[i], u, i, lo, k);
    NarrowedSmallest(tries[i], u, nb, r0, rsize);
    BestInBin(m, bins, bits, tries, nb, i, v, rsize, tries[i].size);
    assert tries[i].size in Sizes(tries[i]);
    BestIsSome(m, tries, nb, v, rsize, i, tries[i].size);
  }

  lemma FirstBin(bits: bv32) returns (i: nat)
    requires bits != 0
    ensures i < 32 && BitToIndex(LeastBit(bits)) as nat == i && Marked(bits, i)
    ensures forall j :: 0 <= j < i ==> !Marked(bits, j)
  {
    hide BitOf, LeastBit, BitToIndex, Marked, Fits;
    FitsBelow(bits, 32);
    i := LeastBitOf(bits, 32);
    IndexOfBit(i);
  }

  lemma FirstOfAll(m: Heap, bins: seq<Addr>, bits: bv32, tries: seq<Trie>, nb: nat, i: nat)
    requires Bins(m, bins, bits, tries) && i < 32 && forall j :: 0 <= j < i ==> !Marked(bits, j)
    ensures NoneBelow(tries, nb, i)
  {
    hide Bin;
    forall j | 0 <= j < i ensures tries[j] == Nil {
      BinOf(m, bins, bits, tries, j);
    }
  }

  lemma RootIsChoice(m: Heap, t: Trie, nb: nat, at: Addr)
    requires at in m && at in Nodes(t) && nb <= m[at].data.size && at != 0
    ensures Choice(m, Nodes(t), nb, at, m[at].data.size - nb)
  {
  }

  lemma BelowRoot(m: Heap, t: Trie, u: Trie, at: Addr, nb: nat, i: nat, lo: nat, k: nat)
    requires Within(m, t, u, at, i, lo, k) && nb <= 0x100 && forall s :: s in Sizes(t) ==> 0x100 <= s
    ensures AtLeast(u, nb)
  {
  }

  lemma NarrowedSmallest(t: Trie, u: Trie, nb: nat, rsize: nat, rsize': nat)
    requires Narrowed(t, u, nb, rsize) && rsize' <= rsize && AtLeast(u, nb)
    requires forall s :: s in Sizes(u) && nb <= s ==> rsize' <= s - nb
    ensures forall s :: s in Sizes(t) && nb <= s ==> rsize' <= s - nb
  {
  }

  /** The sizes and flags of all chunks are as they were. */
  ghost predicate SameHeaders(m: Heap, m': Heap) {
    && m'.Keys == m.Keys
    && forall y :: y in m ==>
      && m'[y].data.size == m[y].data.size && m'[y].data.prevFoot == m[y].data.prevFoot
      && m'[y].data.pinuse == m[y].data.pinuse && m'[y].data.cinuse == m[y].data.cinuse
  }

  /** One bin changes, the others stay. */
  lemma BinReplaced(m: Heap, m': Heap, bins: seq<Addr>, bits: bv32, bits': bv32, tries: seq<Trie>, i: nat, t: Trie,
                    at: Addr)
    requires Bins(m, bins, bits, tries) && i < 32 && Bin(m', t, at, i)
    requires forall y :: y in Binned(tries) && y !in Nodes(tries[i]) && y in m ==> y in m' && SameNode(m[y], m'[y])
    requires Nodes(t) !! Binned(tries) - Nodes(tries[i])
    requires forall j :: 0 <= j < 32 ==> (Marked(bits', j) <==> if j == i then t.Fork? else Marked(bits, j))
    ensures Bins(m', bins[i := at], bits', tries[i := t])
    ensures Binned(tries[i := t]) == Binned(tries) - Nodes(tries[i]) + Nodes(t)
  {
    hide Bin, Marked, SameNode;
    BinCount(m, bins, bits, tries);
    forall j | 0 <= j < 32 && j != i ensures Bin(m', tries[j], bins[j], j) && Nodes(tries[j]) !! Nodes(t) {
      NodesApart(m, bins, bits, tries, i, j);
      BinFrame(m, m', tries[j], bins[j], j);
    }
    BinnedAfter(tries, i, t);
  }

  lemma NodesApart(m: Heap, bins: seq<Addr>, bits: bv32, tries: seq<Trie>, i: nat, j: nat)
    requires Bins(m, bins, bits, tries) && i < 32 && j < 32 && i != j
    ensures Nodes(tries[i]) !! Nodes(tries[j]) && Nodes(tries[j]) <= Binned(tries) && Nodes(tries[j]) <= m.Keys
    ensures 0 !in Nodes(tries[j])
  {
    forall x | x in Nodes(tries[j]) ensures x in Binned(tries) {
    }
    ShapeNodes(m, tries[j], bins[j], Root, j);
  }

  lemma BinFrame(m: Heap, m': Heap, t: Trie, at: Addr, i: nat)
    requires Bin(m, t, at, i)
    requires forall y :: y in Nodes(t) ==> y in m && y in m' && SameNode(m[y], m'[y])
    ensures Bin(m', t, at, i)
  {
    ShapeFrame(m, m', t, at, Root, i);
  }

  lemma BinnedAfter(tries: seq<Trie>, i: nat, t: Trie)
    requires i < |tries| && forall j :: 0 <= j < |tries| && j != i ==> Nodes(tries[j]) !! Nodes(tries[i])
    ensures Binned(tries[i := t]) == Binned(tries) - Nodes(tries[i]) + Nodes(t)
  {
    var tries' := tries[i := t];
    forall x | x in Binned(tries) - Nodes(tries[i]) ensures x in Binned(tries') {
      var j :| 0 <= j < |tries| && x in Nodes(tries[j]);
      assert x in Nodes(tries'[j]);
    }
    forall x | x in Nodes(t) ensures x in Binned(tries') {
      assert x in Nodes(tries'[i]);
    }
    forall x | x in Binned(tries') ensures x in Binned(tries) - Nodes(tries[i]) + Nodes(t) {
      var j :| 0 <= j < |tries'| && x in Nodes(tries'[j]);
      if j != i {
        assert x in Nodes(tries[j]);
      }
    }
  }

  /** The chunk x made ready for bin i. */
  function Prepared(m: Heap, x: Addr, i: nat): Heap
    requires x in m
  {
    m[x := m[x].(data := m[x].data.(index := i, child0 := 0, child1 := 0))]
  }

  /** The chunk x as the only one of its bin. */
  function AsRoot(m: Heap, x: Addr): Heap
    requires x in m
  {
    m[x := m[x].(forw := x, back := x, data := m[x].data.(parent := Root))]
  }

  /** The chunk x of size s can go into bin i. */
  ghost predicate Insertable(m: Heap, tries: seq<Trie>, i: nat, x: Addr, s: nat) {
    && i < 32 && x in m && x != 0 && x !in Binned(tries) && m[x].data.size == s && 0x100 <= s < WORD
    && i == ComputeTreeIndex(s) && BinLow(i) <= s < BinLow(i) + Pow2(BinWidth(i))
  }

  lemma InsertFirst(m: Heap, bins: seq<Addr>, bits: bv32, tries: seq<Trie>, i: nat, x: Addr, s: nat)
    requires Bins(m, bins, bits, tries) && Insertable(m, tries, i, x, s) && !Marked(bits, i)
    ensures var m' := AsRoot(Prepared(m, x, i), x); var t := Put(tries[i], x, s, BinLow(i), BinWidth(i));
      && Bins(m', bins[i := x], Mark(bits, BitOf(i)), tries[i := t]) && Binned(tries[i := t]) == Binned(tries) + {x}
      && SameHeaders(m, m') && forall y :: y in m && y != x ==> m'[y] == m[y]
  {
    hide Bins, Binned, Marked, BinLow, BinWidth, ComputeTreeIndex, Mark, BitOf, Shape;
    BinCount(m, bins, bits, tries);
    BinOf(m, bins, bits, tries, i);
    var m' := AsRoot(Prepared(m, x, i), x);
    var t := Put(tries[i], x, s, BinLow(i), BinWidth(i));
    AttachedRing(m', x, s, i);
    ElemsOfFew(x);
    PutSorted(tries[i], x, s, BinLow(i), BinWidth(i));
    assert t == Fork([x], s, Nil, Nil) && Bin(m', t, x, i);
    forall j ensures Marked(Mark(bits, BitOf(i)), j) <==> j == i || Marked(bits, j) {
      MarkedAfter(bits, i, j);
    }
    BinReplaced(m, m', bins, bits, Mark(bits, BitOf(i)), tries, i, t, x);
  }

  /** A bin that is not empty, as the search for the place of x finds it. */
  lemma PreparedBin(m: Heap, bins: seq<Addr>, bits: bv32, tries: seq<Trie>, i: nat, x: Addr, s: nat)
    requires Bins(m, bins, bits, tries) && Insertable(m, tries, i, x, s)
    ensures Bin(Prepared(m, x, i), tries[i], bins[i], i) && (Marked(bits, i) <==> tries[i].Fork?)
    ensures x !in Nodes(tries[i]) && Nodes(tries[i]) <= Binned(tries)
  {
    hide Bin;
    forall y | y in Nodes(tries[i]) ensures y in Binned(tries) {
    }
    ShapeNodesOfBin(m, tries[i], bins[i], i);
    BinFrame(m, Prepared(m, x, i), tries[i], bins[i], i);
  }

  lemma ShapeNodesOfBin(m: Heap, t: Trie, at: Addr, i: nat)
    requires Bin(m, t, at, i)
    ensures Nodes(t) <= m.Keys && 0 !in Nodes(t) && (t.Fork? ==> at in Nodes(t))
  {
    ShapeNodes(m, t, at, Root, i);
  }

  lemma InsertMore(m: Heap, bins: seq<Addr>, bits: bv32, tries: seq<Trie>, i: nat, x: Addr, s: nat, p: Addr,
                   right: bool)
    requires Bins(m, bins, bits, tries) && Insertable(m, tries, i, x, s) && tries[i].Fork?
    requires p == Spot(tries[i], s, BinLow(i), BinWidth(i)) && p in m
    requires m[p].data.size != s ==> right == Side(tries[i], s, BinLow(i), BinWidth(i))
    ensures var m1 := Prepared(m, x, i); var t := Put(tries[i], x, s, BinLow(i), BinWidth(i));
      && m1[p].forw in m1
      && var m' := AddedAt(m1, p, right, x, s);
      && Bins(m', bins, bits, tries[i := t]) && Binned(tries[i := t]) == Binned(tries) + {x}
      && SameHeaders(m, m') && forall y :: y in m && y !in Binned(tries) && y != x ==> m'[y] == m[y]
  {
    hide Bins, Binned, Marked, BinLow, BinWidth, ComputeTreeIndex, Shape, Sorted, AddedAt, SameHeaders, Put, Spot, Side;
    BinCount(m, bins, bits, tries);
    var m1 := Prepared(m, x, i);
    PreparedBin(m, bins, bits, tries, i, x, s);
    AddedShape(m1, tries[i], bins[i], Root, i, x, s, BinLow(i), BinWidth(i));
    PutSorted(tries[i], x, s, BinLow(i), BinWidth(i));
    var t := Put(tries[i], x, s, BinLow(i), BinWidth(i));
    var m' := AddedAt(m1, p, right, x, s);
    AddedAnySide(m1, p, right, Side(tries[i], s, BinLow(i), BinWidth(i)), x, s);
    AddEffects(m1, p, right, x, s);
    AddHeaders(m, i, p, right, x, s);
    PutFork(tries[i], x, s, BinLow(i), BinWidth(i));
    assert bins[i := bins[i]] == bins;
    BinReplaced(m, m', bins, bits, bits, tries, i, t, bins[i]);
  }

  lemma PutFork(t: Trie, x: Addr, s: nat, lo: nat, k: nat)
    ensures Put(t, x, s, lo, k).Fork?
  {
  }

  lemma AddedAnySide(m: Heap, p: Addr, right: bool, right': bool, x: Addr, s: nat)
    requires p in m && x in m && m[p].forw in m && (m[p].data.size != s ==> right == right')
    ensures AddedAt(m, p, right, x, s) == AddedAt(m, p, right', x, s)
  {
  }

  lemma AddHeaders(m: Heap, i: nat, p: Addr, right: bool, x: Addr, s: nat)
    requires p in m && x in m && Prepared(m, x, i)[p].forw in m && p != x
    ensures SameHeaders(m, AddedAt(Prepared(m, x, i), p, right, x, s))
  {
  }

  /** A chunk goes into the tree bin for its size. */
  method InsertLargeChunk(m: Heap, bins: seq<Addr>, bits: bv32, x: Addr, s: nat, ghost tries: seq<Trie>)
      returns (m': Heap, bins': seq<Addr>, bits': bv32, ghost tries': seq<Trie>)
    requires Bins(m, bins, bits, tries) && x in m && x != 0 && x !in Binned(tries)
    requires m[x].data.size == s && 0x100 <= s < WORD
    ensures Bins(m', bins', bits', tries') && Binned(tries') == Binned(tries) + {x}
    ensures SameHeaders(m, m') && forall y :: y in m && y !in Binned(tries) && y != x ==> m'[y] == m[y]
  {
    hide Bins, Binned, Shape, Sorted, ComputeTreeIndex, Marked, Mark, BitOf, SameHeaders, BinLow, BinWidth, Put, Spot,
         Side;
    IndexRange(s);
    BinCount(m, bins, bits, tries);
    var i := ComputeTreeIndex(s);
    PreparedBin(m, bins, bits, tries, i, x, s);
    var m1 := Prepared(m, x, i);
    tries' := tries[i := Put(tries[i], x, s, BinLow(i), BinWidth(i))];
    if !Marked(bits, i) {
      InsertFirst(m, bins, bits, tries, i, x, s);
      bits', bins' := Mark(bits, BitOf(i)), bins[i := x];
      m' := AsRoot(m1, x);
    } else {
      var p, right := FindSpot(m1, bins[i], s, i, tries[i]);
      InsertMore(m, bins, bits, tries, i, x, s, p, right);
      bits', bins' := bits, bins;
      m' := AddedAt(m1, p, right, x, s);
    }
  }

  lemma SameHeadersTwice(m: Heap, m': Heap, m'': Heap)
    requires SameHeaders(m, m') && SameHeaders(m', m'')
    ensures SameHeaders(m, m'')
  {
  }

  lemma SetHeaders(m: Heap, x: Addr, parent: Parent, right: bool, c: Addr)
    requires x in m
    ensures SameHeaders(m, SetParent(m, x, parent)) && SameHeaders(m, SetChild(m, x, right, c))
  {
  }

  lemma RelinkHeaders(m: Heap, x: Addr, r: Addr)
    requires x in m && (r != 0 ==> r in m)
    requires m[x].data.parent.Under? ==> m[x].data.parent.node in m
    requires {m[x].data.child0, m[x].data.child1} <= m.Keys + {0}
    ensures SameHeaders(m, Relink(m, x, r))
  {
    hide SameHeaders, SetParent, SetChild;
    HeadersStay(m);
    var parent, c0, c1 := m[x].data.parent, m[x].data.child0, m[x].data.child1;
    var m1 := if parent.Under? then SetChild(m, parent.node, m[parent.node].data.child0 != x, r) else m;
    if parent.Under? {
      SetHeaders(m, parent.node, Root, m[parent.node].data.child0 != x, r);
    }
    HeadersKeys(m, m1);
    if r != 0 {
      SetHeaders(m1, r, parent, true, 0);
      var m2 := SetParent(m1, r, parent);
      SameHeadersTwice(m, m1, m2);
      HeadersKeys(m, m2);
      AdoptHeaders(m2, r, false, c0);
      var m3 := if c0 != 0 then SetParent(SetChild(m2, r, false, c0), c0, Under(r)) else m2;
      SameHeadersTwice(m, m2, m3);
      HeadersKeys(m, m3);
      AdoptHeaders(m3, r, true, c1);
      SameHeadersTwice(m, m3, if c1 != 0 then SetParent(SetChild(m3, r, true, c1), c1, Under(r)) else m3);
    }
  }

  lemma HeadersStay(m: Heap)
    ensures SameHeaders(m, m)
  {
  }

  lemma HeadersKeys(m: Heap, m': Heap)
    requires SameHeaders(m, m')
    ensures m'.Keys == m.Keys
  {
  }

  lemma AdoptHeaders(m: Heap, r: Addr, right: bool, c: Addr)
    requires r in m && (c != 0 ==> c in m)
    ensures c != 0 ==> c in SetChild(m, r, right, c)
    ensures SameHeaders(m, if c != 0 then SetParent(SetChild(m, r, right, c), c, Under(r)) else m)
  {
  }

  lemma UnlinkHeaders(m: Heap, x: Addr, r: Addr, p: Addr, right: bool)
    requires CanUnlink(m, x, r, p)
    ensures SameHeaders(m, Unlinked(m, x, r, p, right))
  {
    hide Relink;
    var m1 := if m[x].back != x then Link(m, m[x].back, m[x].forw) else if r != 0 then SetChild(m, p, right, 0) else m;
    assert SameHeaders(m, m1);
    if m[x].data.parent != Chained {
      RelinkHeaders(m1, x, r);
    }
  }

  lemma RemovedFromBins(m: Heap, bins: seq<Addr>, bits: bv32, tries: seq<Trie>, x: Addr, i: nat, r: Addr, p: Addr,
                        right: bool)
    requires Bins(m, bins, bits, tries) && i < 32 && x in Nodes(tries[i]) && x in m
    requires Replacement(m, tries[i], x, r, p, right) && p in m
    ensures CanUnlink(m, x, r, p) && 0 <= i < |bins|
    ensures var m' := Unlinked(m, x, r, p, right); var tries' := tries[i := Removed(tries[i], x)];
      var bits' := if x == bins[i] && r == 0 then Clear(bits, BitOf(i)) else bits;
      && Bins(m', if x == bins[i] then bins[i := r] else bins, bits', tries') && Binned(tries') == Binned(tries) - {x}
      && SameHeaders(m, m') && forall y :: y in m && y !in Binned(tries) ==> m'[y] == m[y]
  {
    hide Shape, Unlinked, Binned, Bins, Removed, Replacement, BinLow, BinWidth, Sorted, ComputeTreeIndex, Marked,
         Clear, BitOf, SameHeaders;
    BinCount(m, bins, bits, tries);
    var t := tries[i];
    BinOf(m, bins, bits, tries, i);
    NodesOfBin(tries, i);
    RemovedShape(m, t, bins[i], Root, i, x, r, p, right);
    RemovedSorted(t, x, BinLow(i), BinWidth(i));
    UnlinkHeaders(m, x, r, p, right);
    var m' := Unlinked(m, x, r, p, right);
    var at := if x == bins[i] then r else bins[i];
    ShapeNodes(m', Removed(t, x), at, Root, i);
    var bits' := if x == bins[i] && r == 0 then Clear(bits, BitOf(i)) else bits;
    forall j ensures Marked(Clear(bits, BitOf(i)), j) <==> j != i && Marked(bits, j) {
      MarkedAfter(bits, i, j);
    }
    assert bins[i := bins[i]] == bins;
    BinReplaced(m, m', bins, bits, bits', tries, i, Removed(t, x), at);
  }

  lemma NodesOfBin(tries: seq<Trie>, i: nat)
    requires i < |tries|
    ensures Nodes(tries[i]) <= Binned(tries)
  {
    forall x | x in Nodes(tries[i]) ensures x in Binned(tries) {
    }
  }

  /** A chunk leaves its tree bin. */
  method UnlinkLargeChunk(m: Heap, bins: seq<Addr>, bits: bv32, x: Addr, ghost tries: seq<Trie>)
      returns (m': Heap, bins': seq<Addr>, bits': bv32, ghost tries': seq<Trie>)
    requires Bins(m, bins, bits, tries) && x in Binned(tries)
    ensures Bins(m', bins', bits', tries') && Binned(tries') == Binned(tries) - {x}
    ensures SameHeaders(m, m') && forall y :: y in m && y !in Binned(tries) ==> m'[y] == m[y]
  {
    hide Bins, Bin, Shape, Unlinked, Removed, Replacement, Marked, Clear, BitOf, SameHeaders, CanUnlink;
    ghost var k :| 0 <= k < |tries| && x in Nodes(tries[k]);
    hide Binned;
    BinCount(m, bins, bits, tries);
    SizeInBin(m, bins, bits, tries, k, x);
    var i := m[x].data.index;
    BinOf(m, bins, bits, tries, i);
    ShapeOfBin(m, tries[i], bins[i], i);
    var r, p, right := FindReplacement(m, x, tries[i], bins[i], i);
    RemovedFromBins(m, bins, bits, tries, x, i, r, p, right);
    ChainedIsNoRoot(m, tries[i], bins[i], i, x);
    CanUnlinkFacts(m, x, r, p);
    m' := Unlinked(m, x, r, p, right);
    bins', bits' := bins, bits;
    if m[x].data.parent != Chained && x == bins[i] {
      bins' := bins[i := r];
      if r == 0 {
        bits' := Clear(bits, BitOf(i));
      }
    }
    tries' := tries[i := Removed(tries[i], x)];
  }

  lemma ShapeOfBin(m: Heap, t: Trie, at: Addr, i: nat)
    requires Bin(m, t, at, i)
    ensures Shape(m, t, at, Root, i)
  {
  }

  lemma ChainedIsNoRoot(m: Heap, t: Trie, at: Addr, i: nat, x: Addr)
    requires Bin(m, t, at, i) && x in Nodes(t) && x in m
    ensures x == at ==> m[x].data.parent == Root
  {
  }

  lemma CanUnlinkFacts(m: Heap, x: Addr, r: Addr, p: Addr)
    requires CanUnlink(m, x, r, p)
    ensures x in m && m[x].back in m && m[x].forw in m && (r != 0 ==> r in m && p in m)
    ensures m[x].data.parent.Under? ==> m[x].data.parent.node in m
    ensures {m[x].data.child0, m[x].data.child1} <= m.Keys + {0}
  {
  }
}
