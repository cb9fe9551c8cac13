/** The free chunks of one tree bin: a bitwise trie over sizes, of rings of chunks of equal size. */
module SizeTrie {
  import opened Sequences
  import opened Rings
  import opened Powers

  /** How a chunk hangs in a tree bin: behind another chunk of its size, or as a node of the trie. */
  datatype Parent = Chained | Root | Under(node: Addr)

  /** What the allocator keeps in a chunk besides the links to chunks of the same bin. The address
      0 stands for no child. */
  datatype Chunk = Chunk(prevFoot: nat, size: nat, pinuse: bool, cinuse: bool,
                         child0: Addr, child1: Addr, parent: Parent, index: nat)

  type Heap = Memory<Chunk>

  /** A trie: a ring of chunks of one size, whose first chunk is the node, and the two subtries. */
  datatype Trie = Nil | Fork(ring: seq<Addr>, size: nat, left: Trie, right: Trie) {
    predicate Leaf() {
      Fork? && left.Nil? && right.Nil?
    }
  }

  ghost function Nodes(t: Trie): set<Addr> {
    match t
    case Nil => {}
    case Fork(ring, _, l, r) => Elems(ring) + Nodes(l) + Nodes(r)
  }

  ghost function Sizes(t: Trie): set<nat> {
    match t
    case Nil => {}
    case Fork(_, size, l, r) => {size} + Sizes(l) + Sizes(r)
  }

  /** The chunks of the ring are linked to a circle and agree in size and bin. */
  ghost predicate Ring(m: Heap, ring: seq<Addr>, size: nat, index: nat) {
    && ring != [] && Circular(m, ring) && 0 !in Elems(ring)
    && (forall x :: x in Elems(ring) ==> x in m && m[x].data.size == size && m[x].data.index == index)
  }

  /** The chunks nodes hang behind others. */
  ghost predicate Chains(m: Heap, nodes: set<Addr>) {
    forall x :: x in nodes ==> x in m && m[x].data.parent == Chained && m[x].data.child0 == 0 && m[x].data.child1 == 0
  }

  /** The chunks in memory form the trie t. */
  ghost predicate Shape(m: Heap, t: Trie, at: Addr, parent: Parent, index: nat) {
    match t
    case Nil => at == 0
    case Fork(ring, size, l, r) =>
      && Ring(m, ring, size, index) && ring[0] == at && at in m && m[at].data.parent == parent
      && Chains(m, Elems(ring) - {at})
      && Shape(m, l, m[at].data.child0, Under(at), index) && Shape(m, r, m[at].data.child1, Under(at), index)
      && Elems(ring) !! Nodes(l) !! Nodes(r)
  }

  /** The fields of a chunk that a trie depends on. */
  ghost predicate SameNode(x: Node<Chunk>, y: Node<Chunk>) {
    && x.forw == y.forw && x.back == y.back && x.data.size == y.data.size && x.data.index == y.data.index
    && x.data.child0 == y.data.child0 && x.data.child1 == y.data.child1 && x.data.parent == y.data.parent
  }

  lemma RingFrame(m: Heap, m': Heap, ring: seq<Addr>, size: nat, index: nat)
    requires Ring(m, ring, size, index)
    requires forall x :: x in Elems(ring) ==> x in m' && m'[x].forw == m[x].forw && m'[x].back == m[x].back
    requires forall x :: x in Elems(ring) ==>
      x in m' && m'[x].data.size == m[x].data.size && m'[x].data.index == m[x].data.index
    ensures Ring(m', ring, size, index)
  {
    hide Circular, Elems;
    CircularFrame(m, m', ring);
  }

  lemma ShapeFrame(m: Heap, m': Heap, t: Trie, at: Addr, parent: Parent, index: nat)
    requires Shape(m, t, at, parent, index)
    requires forall x :: x in Nodes(t) ==> x in m && x in m' && SameNode(m[x], m'[x])
    ensures Shape(m', t, at, parent, index)
  {
    match t
    case Nil =>
    case Fork(ring, size, l, r) =>
      hide Ring, Elems;
      FirstOfRing(m, ring, size, index);
      RingFrame(m, m', ring, size, index);
      ShapeFrame(m, m', l, m[at].data.child0, Under(at), index);
      ShapeFrame(m, m', r, m[at].data.child1, Under(at), index);
  }

  lemma FirstOfRing(m: Heap, ring: seq<Addr>, size: nat, index: nat)
    requires Ring(m, ring, size, index)
    ensures ring != [] && ring[0] in Elems(ring) && Elems(ring) <= m.Keys && 0 !in Elems(ring)
    ensures m[ring[0]].data.size == size && m[ring[0]].data.index == index
  {
  }

  lemma {:induction false} ShapeNodes(m: Heap, t: Trie, at: Addr, parent: Parent, index: nat)
    requires Shape(m, t, at, parent, index)
    ensures Nodes(t) <= m.Keys && 0 !in Nodes(t) && (at == 0 <==> t.Nil?) && (t.Fork? ==> at in Nodes(t))
  {
    match t
    case Nil =>
    case Fork(ring, size, l, r) =>
      hide Ring, Elems;
      FirstOfRing(m, ring, size, index);
      ShapeNodes(m, l, m[at].data.child0, Under(at), index);
      ShapeNodes(m, r, m[at].data.child1, Under(at), index);
  }

  lemma ChainsFrame(m: Heap, m': Heap, nodes: set<Addr>)
    requires Chains(m, nodes) && forall x :: x in nodes ==> x in m' && (x in m ==> SameNode(m[x], m'[x]))
    ensures Chains(m', nodes)
  {
  }

  /** Only the parent of the node on top changes. */
  lemma Reparented(m: Heap, m': Heap, t: Trie, at: Addr, parent: Parent, parent': Parent, index: nat)
    requires Shape(m, t, at, parent, index)
    requires forall x :: x in Nodes(t) ==> x in m && x in m'
    requires forall x :: x in Nodes(t) && x != at ==> SameNode(m[x], m'[x])
    requires t.Fork? ==>
      at in m && at in m' && SameNode(m[at], m'[at].(data := m'[at].data.(parent := m[at].data.parent)))
    requires t.Fork? ==> m'[at].data.parent == parent'
    ensures Shape(m', t, at, parent', index)
  {
    match t
    case Nil =>
    case Fork(ring, size, l, r) =>
      hide Ring, Elems, Chains;
      FirstOfRing(m, ring, size, index);
      ChainsFrame(m, m', Elems(ring) - {at});
      ReparentedRing(m, m', ring, size, index, at);
      ShapeFrame(m, m', l, m[at].data.child0, Under(at), index);
      ShapeFrame(m, m', r, m[at].data.child1, Under(at), index);
  }

  lemma ReparentedRing(m: Heap, m': Heap, ring: seq<Addr>, size: nat, index: nat, at: Addr)
    requires Ring(m, ring, size, index) && at in m && at in m'
    requires forall x :: x in Elems(ring) && x != at ==> x in m && x in m' && SameNode(m[x], m'[x])
    requires SameNode(m[at], m'[at].(data := m'[at].data.(parent := m[at].data.parent)))
    ensures Ring(m', ring, size, index)
  {
    hide Elems;
    RingFrame(m, m', ring, size, index);
  }

  /** The trie holds sizes of the interval of length 2^k that begins at lo, each size once; of what
      is below a node, the smaller half of the interval is on the left and the larger on the right. */
  ghost predicate Sorted(t: Trie, lo: nat, k: nat) {
    match t
    case Nil => true
    case Fork(_, size, l, r) =>
      && lo <= size < lo + Pow2(k) && size !in Sizes(l) && size !in Sizes(r)
      && if k == 0 then l.Nil? && r.Nil? else Sorted(l, lo, k - 1) && Sorted(r, lo + Pow2(k - 1), k - 1)
  }

  lemma {:induction false} SizesInRange(t: Trie, lo: nat, k: nat)
    requires Sorted(t, lo, k)
    ensures forall s :: s in Sizes(t) ==> lo <= s < lo + Pow2(k)
  {
    if t.Fork? && k > 0 {
      SizesInRange(t.left, lo, k - 1);
      SizesInRange(t.right, lo + Pow2(k - 1), k - 1);
    }
  }

  lemma {:induction false} SizeOfNode(m: Heap, t: Trie, at: Addr, parent: Parent, index: nat)
    requires Shape(m, t, at, parent, index)
    ensures forall x :: x in Nodes(t) ==> x in m && m[x].data.size in Sizes(t) && m[x].data.index == index
  {
    if t.Fork? {
      SizeOfNode(m, t.left, m[at].data.child0, Under(at), index);
      SizeOfNode(m, t.right, m[at].data.child1, Under(at), index);
    }
  }

  lemma {:induction false} NodeOfSize(m: Heap, t: Trie, at: Addr, parent: Parent, index: nat, s: nat)
    requires Shape(m, t, at, parent, index) && s in Sizes(t)
    ensures exists x :: x in Nodes(t) && x in m && m[x].data.size == s
  {
    FirstOfRing(m, t.ring, t.size, index);
    if s in Sizes(t.left) {
      NodeOfSize(m, t.left, m[at].data.child0, Under(at), index, s);
    } else if s in Sizes(t.right) {
      NodeOfSize(m, t.right, m[at].data.child1, Under(at), index, s);
    }
  }

  function SetChild(m: Heap, p: Addr, right: bool, c: Addr): Heap
    requires p in m
  {
    if right then m[p := m[p].(data := m[p].data.(child1 := c))]
    else m[p := m[p].(data := m[p].data.(child0 := c))]
  }

  function SetParent(m: Heap, x: Addr, parent: Parent): Heap
    requires x in m
  {
    m[x := m[x].(data := m[x].data.(parent := parent))]
  }

  /** Makes x a node of its own on the open side of node p. */
  function AttachChild(m: Heap, p: Addr, right: bool, x: Addr): Heap
    requires p in m && x in m
  {
    var m1 := SetParent(SetChild(m, p, right, x), x, Under(p));
    m1[x := m1[x].(forw := x, back := x)]
  }

  /** Puts x into the ring of node p. */
  function ChainBehind(m: Heap, p: Addr, x: Addr): Heap
    requires p in m && x in m && m[p].forw in m
  {
    SetParent(Insert(m, x, p), x, Chained)
  }

  /** The trie with chunk x of size s added. */
  ghost function Put(t: Trie, x: Addr, s: nat, lo: nat, k: nat): Trie {
    match t
    case Nil => Fork([x], s, Nil, Nil)
    case Fork(ring, size, l, r) =>
      if s == size then (if ring == [] then t else Fork(Inserted(ring, 0, x), size, l, r))
      else if k == 0 then t
      else if s < lo + Pow2(k - 1) then Fork(ring, size, Put(l, x, s, lo, k - 1), r)
      else Fork(ring, size, l, Put(r, x, s, lo + Pow2(k - 1), k - 1))
  }

  /** The node where the search for size s ends: it has that size, or no subtrie on the side of s. */
  ghost function Spot(t: Trie, s: nat, lo: nat, k: nat): Addr {
    match t
    case Nil => 0
    case Fork(ring, size, l, r) =>
      var c := if k == 0 || s < lo + Pow2(k - 1) then l else r;
      if s == size || k == 0 || c.Nil? then (if ring == [] then 0 else ring[0])
      else if s < lo + Pow2(k - 1) then Spot(l, s, lo, k - 1) else Spot(r, s, lo + Pow2(k - 1), k - 1)
  }

  /** The side of that node on which s belongs. */
  ghost predicate Side(t: Trie, s: nat, lo: nat, k: nat) {
    match t
    case Nil => false
    case Fork(_, size, l, r) =>
      var c := if k == 0 || s < lo + Pow2(k - 1) then l else r;
      if s == size || k == 0 || c.Nil? then k > 0 && s >= lo + Pow2(k - 1)
      else if s < lo + Pow2(k - 1) then Side(l, s, lo, k - 1) else Side(r, s, lo + Pow2(k - 1), k - 1)
  }

  lemma {:induction false} PutSorted(t: Trie, x: Addr, s: nat, lo: nat, k: nat)
    requires Sorted(t, lo, k) && lo <= s < lo + Pow2(k)
    ensures Sorted(Put(t, x, s, lo, k), lo, k) && Sizes(Put(t, x, s, lo, k)) == Sizes(t) + {s}
  {
    match t
    case Nil =>
    case Fork(_, size, l, r) =>
      if s != size {
        if s < lo + Pow2(k - 1) {
          PutSorted(l, x, s, lo, k - 1);
        } else {
          PutSorted(r, x, s, lo + Pow2(k - 1), k - 1);
        }
      }
  }

  /** A chunk that is in no bin yet. */
  ghost predicate Loose(m: Heap, x: Addr, s: nat, index: nat) {
    && x != 0 && x in m && m[x].data.size == s && m[x].data.index == index
    && m[x].data.child0 == 0 && m[x].data.child1 == 0
  }

  /** The chunk x linked in where the search for its size ended. */
  function AddedAt(m: Heap, p: Addr, right: bool, x: Addr, s: nat): Heap
    requires p in m && x in m && m[p].forw in m
  {
    if m[p].data.size == s then ChainBehind(m, p, x) else AttachChild(m, p, right, x)
  }

  lemma AttachedRing(m: Heap, x: Addr, s: nat, index: nat)
    requires Loose(m, x, s, index) && m[x].forw == x && m[x].back == x
    ensures Shape(m, Fork([x], s, Nil, Nil), x, m[x].data.parent, index)
  {
    ElemsOfFew(x);
    assert Circular(m, [x]);
  }

  lemma ChainedRing(m: Heap, ring: seq<Addr>, size: nat, index: nat, x: Addr)
    requires Ring(m, ring, size, index) && Loose(m, x, size, index) && x !in Elems(ring)
    ensures ring[0] in m && m[ring[0]].forw in m && m[ring[0]].forw in Elems(ring)
    ensures Ring(ChainBehind(m, ring[0], x), Inserted(ring, 0, x), size, index)
    ensures Elems(Inserted(ring, 0, x)) == Elems(ring) + {x}
  {
    hide Circular, Elems;
    InsertedCircle(m, ring, 0, x);
    CircularFrame(Insert(m, x, ring[0]), ChainBehind(m, ring[0], x), Inserted(ring, 0, x));
  }

  lemma ChainEffects(m: Heap, p: Addr, x: Addr)
    requires p in m && x in m && m[p].forw in m && p != x
    ensures var m' := ChainBehind(m, p, x);
      && m'.Keys == m.Keys && m'[x].data == m[x].data.(parent := Chained)
      && (forall y :: y in m && y != x && y != p && y != m[p].forw ==> m'[y] == m[y])
      && (forall y :: y in m && y != x ==> m'[y].data == m[y].data)
  {
  }

  lemma AttachEffects(m: Heap, p: Addr, right: bool, x: Addr)
    requires p in m && x in m && p != x
    ensures var m' := AttachChild(m, p, right, x);
      && m'.Keys == m.Keys && m'[x] == Node(x, x, m[x].data.(parent := Under(p)))
      && (forall y :: y in m && y != x && y != p ==> m'[y] == m[y])
      && m'[p] == m[p].(data := if right then m[p].data.(child1 := x) else m[p].data.(child0 := x))
  {
  }

  /** Replacing what is below a node on one side. */
  lemma SideReplaced(m: Heap, m': Heap, t: Trie, at: Addr, parent: Parent, index: nat, right: bool, u: Trie, c: Addr)
    requires t.Fork? && Shape(m, t, at, parent, index) && Shape(m', u, c, Under(at), index)
    requires Nodes(u) !! Elems(t.ring) && Nodes(u) !! Nodes(if right then t.left else t.right)
    requires forall x :: x in Nodes(if right then t.left else t.right) && x in m ==> x in m' && SameNode(m[x], m'[x])
    requires forall x :: x in Elems(t.ring) && x != at && x in m ==> x in m' && SameNode(m[x], m'[x])
    requires at in m && at in m'
    requires SameNode(m'[at], m[at].(data := if right then m[at].data.(child1 := c) else m[at].data.(child0 := c)))
    ensures Shape(m', if right then t.(right := u) else t.(left := u), at, parent, index)
  {
    hide Elems, Ring, SameNode;
    FirstOfRing(m, t.ring, t.size, index);
    SideRing(m, m', t, at, parent, index, right, c);
    if right {
      ShapeNodes(m, t.left, m[at].data.child0, Under(at), index);
      ShapeFrame(m, m', t.left, m[at].data.child0, Under(at), index);
    } else {
      ShapeNodes(m, t.right, m[at].data.child1, Under(at), index);
      ShapeFrame(m, m', t.right, m[at].data.child1, Under(at), index);
    }
  }

  lemma SideRing(m: Heap, m': Heap, t: Trie, at: Addr, parent: Parent, index: nat, right: bool, c: Addr)
    requires t.Fork? && Shape(m, t, at, parent, index)
    requires forall x :: x in Elems(t.ring) && x != at && x in m ==> x in m' && SameNode(m[x], m'[x])
    requires at in m && at in m'
    requires SameNode(m'[at], m[at].(data := if right then m[at].data.(child1 := c) else m[at].data.(child0 := c)))
    ensures Ring(m', t.ring, t.size, index) && m'[at].data.parent == parent && Chains(m', Elems(t.ring) - {at})
    ensures if right then m'[at].data.child0 == m[at].data.child0 && m'[at].data.child1 == c
            else m'[at].data.child1 == m[at].data.child1 && m'[at].data.child0 == c
  {
    hide Elems, Ring;
    FirstOfRing(m, t.ring, t.size, index);
    RingFrame(m, m', t.ring, t.size, index);
  }

  lemma ChainedShape(m: Heap, t: Trie, at: Addr, parent: Parent, index: nat, x: Addr)
    requires t.Fork? && Shape(m, t, at, parent, index) && Loose(m, x, t.size, index) && x !in Nodes(t)
    ensures at in m && m[at].forw in m && m[at].forw in Nodes(t)
    ensures Shape(ChainBehind(m, at, x), t.(ring := Inserted(t.ring, 0, x)), at, parent, index)
    ensures Nodes(t.(ring := Inserted(t.ring, 0, x))) == Nodes(t) + {x}
  {
    hide Elems, Circular, Ring, ChainBehind;
    var ring, l, r := t.ring, t.left, t.right;
    FirstOfRing(m, ring, t.size, index);
    ChainedRing(m, ring, t.size, index, x);
    ChainEffects(m, at, x);
    var m' := ChainBehind(m, at, x);
    ShapeNodes(m, l, m[at].data.child0, Under(at), index);
    ShapeNodes(m, r, m[at].data.child1, Under(at), index);
    ForkFacts(m, t, at, parent, index);
    ShapeFrame(m, m', l, m[at].data.child0, Under(at), index);
    ShapeFrame(m, m', r, m[at].data.child1, Under(at), index);
    ChainedNodes(t, x);
  }

  lemma ChainedNodes(t: Trie, x: Addr)
    requires t.Fork? && t.ring != []
    ensures Nodes(t.(ring := Inserted(t.ring, 0, x))) == Nodes(t) + {x}
    ensures Elems(Inserted(t.ring, 0, x)) == Elems(t.ring) + {x}
  {
    assert Inserted(t.ring, 0, x) == t.ring[..1] + [x] + t.ring[1..];
  }

  lemma AttachedShape(m: Heap, t: Trie, at: Addr, parent: Parent, index: nat, x: Addr, s: nat, right: bool)
    requires t.Fork? && Shape(m, t, at, parent, index) && Loose(m, x, s, index) && x !in Nodes(t)
    requires if right then t.right.Nil? else t.left.Nil?
    ensures at in m
    ensures var leaf := Fork([x], s, Nil, Nil);
      Shape(AttachChild(m, at, right, x), if right then t.(right := leaf) else t.(left := leaf), at, parent, index)
  {
    hide Elems, Ring, AttachChild, Shape;
    ForkFacts(m, t, at, parent, index);
    AttachEffects(m, at, right, x);
    var m' := AttachChild(m, at, right, x);
    AttachedRing(m', x, s, index);
    ElemsOfFew(x);
    SideReplaced(m, m', t, at, parent, index, right, Fork([x], s, Nil, Nil), x);
  }

  /** What the shape says of its topmost node. */
  lemma ForkFacts(m: Heap, t: Trie, at: Addr, parent: Parent, index: nat)
    requires t.Fork? && Shape(m, t, at, parent, index)
    ensures Nodes(t) == Elems(t.ring) + Nodes(t.left) + Nodes(t.right) && Nodes(t) <= m.Keys && 0 !in Nodes(t)
    ensures Elems(t.ring) !! Nodes(t.left) !! Nodes(t.right)
    ensures t.ring != [] && at == t.ring[0] && at in Elems(t.ring) && at in m && m[at].data.size == t.size
    ensures m[at].forw in Elems(t.ring) && m[at].back in Elems(t.ring)
    ensures Shape(m, t.left, m[at].data.child0, Under(at), index)
    ensures Shape(m, t.right, m[at].data.child1, Under(at), index)
  {
    ShapeNodes(m, t, at, parent, index);
    FirstOfRing(m, t.ring, t.size, index);
    if |t.ring| > 1 {
      assert t.ring[1] in Elems(t.ring);
    }
    assert Last(t.ring) in Elems(t.ring);
  }

  lemma AddEffects(m: Heap, p: Addr, right: bool, x: Addr, s: nat)
    requires p in m && x in m && m[p].forw in m && p != x
    ensures var m' := AddedAt(m, p, right, x, s);
      && m'.Keys == m.Keys && (forall y :: y in m && y != x && y != p && y != m[p].forw ==> m'[y] == m[y])
  {
    hide AttachChild, ChainBehind;
    ChainEffects(m, p, x);
    AttachEffects(m, p, right, x);
  }

  /** Linked in where the search for its size ends, a chunk becomes part of the trie. */
  lemma {:induction false} AddedShape(m: Heap, t: Trie, at: Addr, parent: Parent, index: nat, x: Addr, s: nat, lo: nat,
                                      k: nat)
    requires t.Fork? && Shape(m, t, at, parent, index) && Sorted(t, lo, k) && lo <= s < lo + Pow2(k)
    requires Loose(m, x, s, index) && x !in Nodes(t)
    ensures var p := Spot(t, s, lo, k);
      && p in Nodes(t) && p in m && m[p].forw in m && m[p].forw in Nodes(t)
      && Shape(AddedAt(m, p, Side(t, s, lo, k), x, s), Put(t, x, s, lo, k), at, parent, index)
    ensures Nodes(Put(t, x, s, lo, k)) == Nodes(t) + {x}
  {
    hide Elems, Shape, Ring, AddedAt;
    ForkFacts(m, t, at, parent, index);
    ElemsOfFew(x);
    if s == t.size {
      hide ChainBehind, AttachChild;
      ChainedShape(m, t, at, parent, index, x);
      assert AddedAt(m, at, Side(t, s, lo, k), x, s) ==
        ChainBehind(m, at, x) by { AddedIs(m, at, Side(t, s, lo, k), x, s); }
    } else {
      var right := s >= lo + Pow2(k - 1);
      var c := if right then t.right else t.left;
      AddedIs(m, at, right, x, s);
      if c.Nil? {
        AttachedShape(m, t, at, parent, index, x, s, right);
      } else {
        var lo' := if right then lo + Pow2(k - 1) else lo;
        var at' := if right then m[at].data.child1 else m[at].data.child0;
        AddedShape(m, c, at', Under(at), index, x, s, lo', k - 1);
        var p := Spot(c, s, lo', k - 1);
        var m' := AddedAt(m, p, Side(c, s, lo', k - 1), x, s);
        AddEffects(m, p, Side(c, s, lo', k - 1), x, s);
        SideReplaced(m, m', t, at, parent, index, right, Put(c, x, s, lo', k - 1), at');
      }
    }
  }

  lemma AddedIs(m: Heap, p: Addr, right: bool, x: Addr, s: nat)
    requires p in m && x in m && m[p].forw in m
    ensures AddedAt(m, p, right, x, s) ==
      if m[p].data.size == s then ChainBehind(m, p, x) else AttachChild(m, p, right, x)
  {
  }

  /** The rightmost leaf of a trie: always below the right subtrie when there is one. */
  ghost function LeafOf(t: Trie): (u: Trie)
    requires t.Fork?
    ensures u.Leaf()
  {
    if t.right.Fork? then LeafOf(t.right) else if t.left.Fork? then LeafOf(t.left) else t
  }

  ghost function WithoutLeaf(t: Trie): (u: Trie)
    requires t.Fork?
    ensures !t.Leaf() ==> u.Fork? && u.ring == t.ring && u.size == t.size
  {
    if t.right.Fork? then t.(right := WithoutLeaf(t.right))
    else if t.left.Fork? then t.(left := WithoutLeaf(t.left))
    else Nil
  }

  /** The node above the rightmost leaf. */
  ghost function LeafUp(t: Trie): Addr
    requires t.Fork? && !t.Leaf()
  {
    var c := if t.right.Fork? then t.right else t.left;
    if !c.Leaf() then LeafUp(c) else if t.ring == [] then 0 else t.ring[0]
  }

  /** The side on which the rightmost leaf hangs from the node above it. */
  ghost predicate LeafSide(t: Trie)
    requires t.Fork? && !t.Leaf()
  {
    var c := if t.right.Fork? then t.right else t.left;
    if !c.Leaf() then LeafSide(c) else t.right.Fork?
  }

  lemma SetChildEffects(m: Heap, p: Addr, right: bool, c: Addr)
    requires p in m
    ensures var m' := SetChild(m, p, right, c);
      && m'.Keys == m.Keys && (forall y :: y in m && y != p ==> m'[y] == m[y])
      && m'[p] == if right then m[p].(data := m[p].data.(child1 := c)) else m[p].(data := m[p].data.(child0 := c))
  {
  }

  /** Cutting off the rightmost leaf. */
  lemma {:induction false} LeafCut(m: Heap, t: Trie, at: Addr, parent: Parent, index: nat)
    requires t.Fork? && !t.Leaf() && Shape(m, t, at, parent, index)
    ensures var p := LeafUp(t);
      && p in Nodes(t) && p in m
      && var m' := SetChild(m, p, LeafSide(t), 0);
      && Shape(m', WithoutLeaf(t), at, parent, index)
      && LeafOf(t).ring != [] && Shape(m', LeafOf(t), LeafOf(t).ring[0], Under(p), index)
    ensures Nodes(t) == Nodes(WithoutLeaf(t)) + Nodes(LeafOf(t)) && Nodes(WithoutLeaf(t)) !! Nodes(LeafOf(t))
  {
    hide Elems, Shape, Ring, SetChild;
    ForkFacts(m, t, at, parent, index);
    var right := t.right.Fork?;
    var c := if right then t.right else t.left;
    var at' := if right then m[at].data.child1 else m[at].data.child0;
    ForkFacts(m, c, at', Under(at), index);
    if c.Leaf() {
      var m' := SetChild(m, at, right, 0);
      SetChildEffects(m, at, right, 0);
      NilShape(m', Under(at), index);
      SideReplaced(m, m', t, at, parent, index, right, Nil, 0);
      ShapeFrame(m, m', c, at', Under(at), index);
      LeafOfLeaf(t, c, right);
    } else {
      LeafCut(m, c, at', Under(at), index);
      var m' := SetChild(m, LeafUp(c), LeafSide(c), 0);
      SetChildEffects(m, LeafUp(c), LeafSide(c), 0);
      SideReplaced(m, m', t, at, parent, index, right, WithoutLeaf(c), at');
      LeafBelow(t, c, right);
    }
  }

  lemma NilShape(m: Heap, parent: Parent, index: nat)
    ensures Shape(m, Nil, 0, parent, index) && Nodes(Nil) == {}
  {
  }

  lemma LeafOfLeaf(t: Trie, c: Trie, right: bool)
    requires t.Fork? && c.Leaf() && (if right then c == t.right else c == t.left && t.right.Nil?)
    ensures LeafOf(t) == c && WithoutLeaf(t) == if right then t.(right := Nil) else t.(left := Nil)
    ensures Nodes(WithoutLeaf(t)) == Elems(t.ring) + Nodes(if right then t.left else t.right)
    ensures t.ring != [] ==> LeafUp(t) == t.ring[0] && LeafSide(t) == right
  {
  }

  lemma LeafBelow(t: Trie, c: Trie, right: bool)
    requires t.Fork? && c.Fork? && !c.Leaf() && (if right then c == t.right else c == t.left && t.right.Nil?)
    ensures LeafOf(t) == LeafOf(c) && LeafUp(t) == LeafUp(c) && LeafSide(t) == LeafSide(c)
    ensures WithoutLeaf(t) == if right then t.(right := WithoutLeaf(c)) else t.(left := WithoutLeaf(c))
    ensures Nodes(WithoutLeaf(t)) == Elems(t.ring) + Nodes(WithoutLeaf(c)) + Nodes(if right then t.left else t.right)
  {
  }

  /** Puts r into the place of the node x: below its parent, and above its children. */
  function Relink(m: Heap, x: Addr, r: Addr): Heap
    requires x in m && (r != 0 ==> r in m)
    requires m[x].data.parent.Under? ==> m[x].data.parent.node in m
    requires {m[x].data.child0, m[x].data.child1} <= m.Keys + {0}
  {
    var parent, c0, c1 := m[x].data.parent, m[x].data.child0, m[x].data.child1;
    var m1 := if parent.Under? then SetChild(m, parent.node, m[parent.node].data.child0 != x, r) else m;
    if r == 0 then m1 else
      var m2 := SetParent(m1, r, parent);
      var m3 := if c0 != 0 then SetParent(SetChild(m2, r, false, c0), c0, Under(r)) else m2;
      if c1 != 0 then SetParent(SetChild(m3, r, true, c1), c1, Under(r)) else m3
  }

  lemma RelinkEffects(m: Heap, x: Addr, r: Addr)
    requires x in m && r in m && r != 0 && x != r && m[r].data.child0 == 0 && m[r].data.child1 == 0
    requires m[x].data.parent.Under? ==>
      m[x].data.parent.node in m && m[x].data.parent.node !in {0, r, m[x].data.child0, m[x].data.child1}
    requires {m[x].data.child0, m[x].data.child1} <= m.Keys + {0} && r !in {m[x].data.child0, m[x].data.child1}
    requires m[x].data.child0 != 0 ==> m[x].data.child0 != m[x].data.child1
    ensures var m' := Relink(m, x, r); var (parent, c0, c1) := (m[x].data.parent, m[x].data.child0, m[x].data.child1);
      && m'.Keys == m.Keys
      && (forall y :: y in m && y != r && (c0 == 0 || y != c0) && (c1 == 0 || y != c1) && Under(y) != parent ==>
        m'[y] == m[y])
      && m'[r] == m[r].(data := m[r].data.(parent := parent, child0 := c0, child1 := c1))
      && (c0 != 0 ==> m'[c0] == m[c0].(data := m[c0].data.(parent := Under(r))))
      && (c1 != 0 ==> m'[c1] == m[c1].(data := m[c1].data.(parent := Under(r))))
      && (parent.Under? ==>
            m'[parent.node] == SetChild(m, parent.node, m[parent.node].data.child0 != x, r)[parent.node])
  {
  }

  /** The ring r takes the place of the node x, above the two subtries of x. */
  lemma Relinked(m: Heap, x: Addr, ring: seq<Addr>, size: nat, l: Trie, r: Trie, index: nat)
    requires x in m && Shape(m, l, m[x].data.child0, Under(x), index) && Shape(m, r, m[x].data.child1, Under(x), index)
    requires Ring(m, ring, size, index) && Chains(m, Elems(ring) - {ring[0]})
    requires ring[0] in m && m[ring[0]].data.child0 == 0 && m[ring[0]].data.child1 == 0
    requires Elems(ring) !! Nodes(l) !! Nodes(r) !! {x}
    requires m[x].data.parent.Under? ==>
      m[x].data.parent.node in m && m[x].data.parent.node !in Elems(ring) + Nodes(l) + Nodes(r) + {0}
    ensures {m[x].data.child0, m[x].data.child1} <= m.Keys + {0} && ring[0] != 0 && ring[0] in Elems(ring)
    ensures var m' := Relink(m, x, ring[0]); var parent := m[x].data.parent;
      && Shape(m', Fork(ring, size, l, r), ring[0], parent, index)
      && m'.Keys == m.Keys
      && (forall y :: y in m && y !in Elems(ring) + Nodes(l) + Nodes(r) && Under(y) != parent ==> m'[y] == m[y])
      && (parent.Under? ==>
            m'[parent.node] == SetChild(m, parent.node, m[parent.node].data.child0 != x, ring[0])[parent.node])
  {
    hide Elems, Ring, Relink, SetChild, Chains;
    var c0, c1 := m[x].data.child0, m[x].data.child1;
    FirstOfRing(m, ring, size, index);
    ShapeNodes(m, l, c0, Under(x), index);
    ShapeNodes(m, r, c1, Under(x), index);
    RelinkEffects(m, x, ring[0]);
    var m' := Relink(m, x, ring[0]);
    Reparented(m, m', l, c0, Under(x), Under(ring[0]), index);
    Reparented(m, m', r, c1, Under(x), Under(ring[0]), index);
    RingFrame(m, m', ring, size, index);
    ChainsFrame(m, m', Elems(ring) - {ring[0]});
  }

  function IndexOf(s: seq<Addr>, x: Addr): (i: nat)
    requires x in s
    ensures i < |s| && s[i] == x
  {
    if s[0] == x then 0 else 1 + IndexOf(s[1..], x)
  }

  /** The ring without x. When x was the node of the trie, the chunk before it takes its place. */
  ghost function RingWithout(ring: seq<Addr>, x: Addr): seq<Addr>
    requires x in ring && |ring| > 1
  {
    if ring[0] == x then [Last(ring)] + ring[1..|ring| - 1]
    else ring[..IndexOf(ring, x)] + ring[IndexOf(ring, x) + 1..]
  }

  /** The trie without chunk x. */
  ghost function Removed(t: Trie, x: Addr): Trie {
    match t
    case Nil => Nil
    case Fork(ring, size, l, r) =>
      if x in ring then
        if |ring| > 1 then Fork(RingWithout(ring, x), size, l, r)
        else if t.Leaf() then Nil
        else Fork(LeafOf(t).ring, LeafOf(t).size, WithoutLeaf(t).left, WithoutLeaf(t).right)
      else if x in Nodes(l) then Fork(ring, size, Removed(l, x), r)
      else Fork(ring, size, l, Removed(r, x))
  }

  /** The subtrie of t whose ring holds x. */
  ghost function SubOf(t: Trie, x: Addr): (u: Trie)
    requires x in Nodes(t)
    ensures u.Fork? && x in u.ring
  {
    if x in t.ring then t else if x in Nodes(t.left) then SubOf(t.left, x) else SubOf(t.right, x)
  }

  /** What takes the place of x, and for a leaf, where it is cut off. */
  ghost predicate Replacement(m: Heap, t: Trie, x: Addr, r: Addr, p: Addr, right: bool)
    requires x in Nodes(t) && x in m
  {
    var u := SubOf(t, x);
    if |u.ring| > 1 then r == m[x].back
    else if u.Leaf() then r == 0
    else LeafOf(u).ring != [] && r == LeafOf(u).ring[0] && p == LeafUp(u) && right == LeafSide(u)
  }

  /** The chunk x unlinked; r takes its place, after it is cut off below p if it is a leaf. */
  function Unlinked(m: Heap, x: Addr, r: Addr, p: Addr, right: bool): Heap
    requires x in m && m[x].back in m && m[x].forw in m && (r != 0 ==> r in m && p in m)
    requires m[x].data.parent.Under? ==> m[x].data.parent.node in m
    requires {m[x].data.child0, m[x].data.child1} <= m.Keys + {0}
  {
    var m1 := if m[x].back != x then Link(m, m[x].back, m[x].forw) else if r != 0 then SetChild(m, p, right, 0) else m;
    if m[x].data.parent.Chained? then m1 else Relink(m1, x, r)
  }

  /** Unlinking x, which stands behind a. */
  lemma InnerUnlinked(m: Heap, a: seq<Addr>, x: Addr, c: seq<Addr>)
    requires a != [] && Circular(m, a + [x] + c)
    ensures x in m && m[x].back in m && m[x].forw in m && m[x].back == Last(a) && m[x].forw == Head(c, a)
    ensures m[x].back in Elems(a + c) && m[x].forw in Elems(a + c) && x !in Elems(a + c)
    ensures Circular(Link(m, m[x].back, m[x].forw), a + c) && Elems(a + [x] + c) == Elems(a + c) + {x}
  {
    hide Linked, Distinct, Elems, Joined;
    ElemsOfFew(x);
    Detached(m, a, [x], c);
    CircleOfThree(m, a, [x], c);
    ElemsOfThree(a, [x], c);
    Ends(a);
    Ends(c);
  }

  /** Unlinking x, which stands before c. */
  lemma FirstUnlinked(m: Heap, x: Addr, c: seq<Addr>)
    requires c != [] && Circular(m, [x] + c)
    ensures x in m && m[x].back in m && m[x].forw in m && m[x].back == Last(c) && m[x].forw == c[0]
    ensures m[x].back in Elems(c) && m[x].forw in Elems(c) && x !in Elems(c)
    ensures Circular(Link(m, m[x].back, m[x].forw), [Last(c)] + c[..|c| - 1]) && Elems([x] + c) == Elems(c) + {x}
    ensures Elems([Last(c)] + c[..|c| - 1]) == Elems(c)
  {
    hide Linked, Distinct, Elems, Joined, Circular;
    Rotated(m, [x], c);
    assert c + [x] + [] == c + [x] && c + [] == c;
    InnerUnlinked(m, c, x, []);
    ElemsOfFew(x);
    ElemsOfSum([x], c);
    var d, e := c[..|c| - 1], [Last(c)];
    assert c == d + e;
    ElemsOfSum(d, e);
    ElemsOfSum(e, d);
    if d != [] {
      Rotated(Link(m, m[x].back, m[x].forw), d, e);
    } else {
      assert e + d == c;
    }
  }

  lemma LinkData(m: Heap, prev: Addr, next: Addr)
    requires prev in m && next in m
    ensures var m' := Link(m, prev, next);
      SameData(m, m') && forall y :: y in m && y != prev && y != next ==> m'[y] == m[y]
  {
  }

  lemma RingUnlinked(m: Heap, ring: seq<Addr>, size: nat, index: nat, x: Addr)
    requires Ring(m, ring, size, index) && x in ring && |ring| > 1
    ensures x in m && m[x].back in m && m[x].forw in m && m[x].back in Elems(ring) - {x}
    ensures m[x].forw in Elems(ring) - {x}
    ensures Ring(Link(m, m[x].back, m[x].forw), RingWithout(ring, x), size, index)
    ensures Elems(RingWithout(ring, x)) == Elems(ring) - {x}
    ensures RingWithout(ring, x)[0] == if x == ring[0] then m[x].back else ring[0]
  {
    hide Elems, Circular, Link;
    var i := IndexOf(ring, x);
    var a, c := ring[..i], ring[i + 1..];
    if ring[0] == x {
      assert ring == [x] + c && [Last(c)] + c[..|c| - 1] == RingWithout(ring, x);
      FirstUnlinked(m, x, c);
    } else {
      assert ring == a + [x] + c && a + c == RingWithout(ring, x);
      InnerUnlinked(m, a, x, c);
    }
    LinkData(m, m[x].back, m[x].forw);
  }

  /** Nothing changes outside of nodes, but that r takes the place of x below its parent. */
  ghost predicate ReplacedAbove(m: Heap, m': Heap, nodes: set<Addr>, parent: Parent, x: Addr, r: Addr) {
    && m'.Keys == m.Keys
    && (forall y :: y in m && y !in nodes && Under(y) != parent ==> m'[y] == m[y])
    && (parent.Under? && parent.node in m ==>
          m'[parent.node] == SetChild(m, parent.node, m[parent.node].data.child0 != x, r)[parent.node])
  }

  /** The parent of a trie lies outside of it. */
  ghost predicate Outside(m: Heap, parent: Parent, nodes: set<Addr>) {
    parent != Chained && (parent.Under? ==> parent.node in m && parent.node != 0 && parent.node !in nodes)
  }

  /** The node of a ring of several chunks is unlinked: the chunk before it becomes the node. */
  lemma HeadOfRingRemoved(m: Heap, t: Trie, at: Addr, parent: Parent, index: nat)
    requires t.Fork? && Shape(m, t, at, parent, index) && |t.ring| > 1 && Outside(m, parent, Nodes(t))
    ensures at in m && m[at].back in m && m[at].forw in m && m[at].back != at
    ensures {m[at].data.child0, m[at].data.child1} <= m.Keys + {0}
    ensures var m' := Relink(Link(m, m[at].back, m[at].forw), at, m[at].back);
      && at in t.ring && Shape(m', t.(ring := RingWithout(t.ring, at)), m[at].back, parent, index)
      && ReplacedAbove(m, m', Nodes(t), parent, at, m[at].back)
    ensures Nodes(t.(ring := RingWithout(t.ring, at))) == Nodes(t) - {at}
  {
    hide Elems, Ring, Relink, Link, SetChild;
    ForkFacts(m, t, at, parent, index);
    ShapeNodes(m, t.left, m[at].data.child0, Under(at), index);
    ShapeNodes(m, t.right, m[at].data.child1, Under(at), index);
    RingUnlinked(m, t.ring, t.size, index, at);
    var m1 := Link(m, m[at].back, m[at].forw);
    LinkData(m, m[at].back, m[at].forw);
    ShapeFrame(m, m1, t.left, m[at].data.child0, Under(at), index);
    ShapeFrame(m, m1, t.right, m[at].data.child1, Under(at), index);
    Relinked(m1, at, RingWithout(t.ring, at), t.size, t.left, t.right, index);
    SideOf(m, m1, parent, at, m[at].back);
  }

  lemma SideOf(m: Heap, m1: Heap, parent: Parent, x: Addr, r: Addr)
    requires parent.Under? && parent.node in m ==> parent.node in m1 && m1[parent.node] == m[parent.node]
    ensures parent.Under? && parent.node in m ==>
      SetChild(m1, parent.node, m1[parent.node].data.child0 != x, r)[parent.node]
      == SetChild(m, parent.node, m[parent.node].data.child0 != x, r)[parent.node]
  {
  }

  /** The rightmost leaf below a node, cut off to take its place. */
  lemma LeafTaken(m: Heap, t: Trie, at: Addr, parent: Parent, index: nat)
    requires t.Fork? && Shape(m, t, at, parent, index) && |t.ring| == 1 && !t.Leaf()
    ensures at in m && LeafUp(t) in m && LeafUp(t) in Nodes(t)
    ensures var (m1, leaf, u) := (SetChild(m, LeafUp(t), LeafSide(t), 0), LeafOf(t), WithoutLeaf(t));
      && at in m1 && m1[at].data.parent == parent && leaf.ring != [] && leaf.ring[0] in m1 && leaf.ring[0] != 0
      && Shape(m1, u.left, m1[at].data.child0, Under(at), index)
      && Shape(m1, u.right, m1[at].data.child1, Under(at), index)
      && Ring(m1, leaf.ring, leaf.size, index) && Chains(m1, Elems(leaf.ring) - {leaf.ring[0]})
      && m1[leaf.ring[0]].data.child0 == 0 && m1[leaf.ring[0]].data.child1 == 0
      && Elems(leaf.ring) !! Nodes(u.left) !! Nodes(u.right) !! {at}
      && Elems(leaf.ring) + Nodes(u.left) + Nodes(u.right) == Nodes(t) - {at}
  {
    hide Elems, SetChild, Shape, Ring, LeafOf, WithoutLeaf, LeafUp, LeafSide, Chains;
    ForkFacts(m, t, at, parent, index);
    LeafCut(m, t, at, parent, index);
    var m1 := SetChild(m, LeafUp(t), LeafSide(t), 0);
    ForkFacts(m1, WithoutLeaf(t), at, parent, index);
    ForkRing(m1, WithoutLeaf(t), at, parent, index);
    ForkFacts(m1, LeafOf(t), LeafOf(t).ring[0], Under(LeafUp(t)), index);
    ForkRing(m1, LeafOf(t), LeafOf(t).ring[0], Under(LeafUp(t)), index);
    ElemsOfFew(at);
    assert t.ring == [at];
  }

  lemma ForkRing(m: Heap, t: Trie, at: Addr, parent: Parent, index: nat)
    requires t.Fork? && Shape(m, t, at, parent, index)
    ensures at in m && m[at].data.parent == parent && at != 0 && t.ring != [] && at == t.ring[0]
    ensures Ring(m, t.ring, t.size, index) && Chains(m, Elems(t.ring) - {at})
    ensures t.left.Nil? ==> m[at].data.child0 == 0 && Nodes(t.left) == {}
    ensures t.right.Nil? ==> m[at].data.child1 == 0 && Nodes(t.right) == {}
  {
  }

  /** A node that is alone in its ring is unlinked: the rightmost leaf below takes its place. */
  lemma NodeRemoved(m: Heap, t: Trie, at: Addr, parent: Parent, index: nat)
    requires t.Fork? && Shape(m, t, at, parent, index) && |t.ring| == 1 && !t.Leaf() && Outside(m, parent, Nodes(t))
    ensures at in m && LeafOf(t).ring != [] && LeafOf(t).ring[0] in m && LeafUp(t) in m && LeafOf(t).ring[0] != 0
    ensures {m[at].data.child0, m[at].data.child1} <= m.Keys + {0}
    ensures var (m1, r, u) := (SetChild(m, LeafUp(t), LeafSide(t), 0), LeafOf(t).ring[0], WithoutLeaf(t));
      && {m1[at].data.child0, m1[at].data.child1} <= m1.Keys + {0} && m1[at].data.parent == parent
      && var m' := Relink(m1, at, r);
      && Shape(m', Fork(LeafOf(t).ring, LeafOf(t).size, u.left, u.right), r, parent, index)
      && ReplacedAbove(m, m', Nodes(t), parent, at, r)
      && Nodes(Fork(LeafOf(t).ring, LeafOf(t).size, u.left, u.right)) == Nodes(t) - {at}
  {
    hide Elems, Ring, Chains, Relink, SetChild, Shape;
    ForkFacts(m, t, at, parent, index);
    ShapeNodes(m, t.left, m[at].data.child0, Under(at), index);
    ShapeNodes(m, t.right, m[at].data.child1, Under(at), index);
    LeafTaken(m, t, at, parent, index);
    var u, leaf := WithoutLeaf(t), LeafOf(t);
    var m1 := SetChild(m, LeafUp(t), LeafSide(t), 0);
    SetChildEffects(m, LeafUp(t), LeafSide(t), 0);
    ShapeNodes(m1, u.left, m1[at].data.child0, Under(at), index);
    ShapeNodes(m1, u.right, m1[at].data.child1, Under(at), index);
    Relinked(m1, at, leaf.ring, leaf.size, u.left, u.right, index);
    SideOf(m, m1, parent, at, leaf.ring[0]);
  }

  /** A chunk that is not the node of its ring is unlinked. */
  lemma ChunkOfRingRemoved(m: Heap, t: Trie, at: Addr, parent: Parent, index: nat, x: Addr)
    requires t.Fork? && Shape(m, t, at, parent, index) && x in t.ring && x != at
    ensures x in m && m[x].back in m && m[x].forw in m && m[x].back != x && m[x].data.parent == Chained
    ensures m[x].data.child0 == 0 && m[x].data.child1 == 0
    ensures |t.ring| > 1
    ensures var m' := Link(m, m[x].back, m[x].forw);
      && Shape(m', t.(ring := RingWithout(t.ring, x)), at, parent, index)
      && m'.Keys == m.Keys && (forall y :: y in m && y !in Nodes(t) ==> m'[y] == m[y])
    ensures Nodes(t.(ring := RingWithout(t.ring, x))) == Nodes(t) - {x}
  {
    hide Ring, Link;
    ForkFacts(m, t, at, parent, index);
    ShapeNodes(m, t.left, m[at].data.child0, Under(at), index);
    ShapeNodes(m, t.right, m[at].data.child1, Under(at), index);
    RingUnlinked(m, t.ring, t.size, index, x);
    var m' := Link(m, m[x].back, m[x].forw);
    LinkData(m, m[x].back, m[x].forw);
    ShapeFrame(m, m', t.left, m[at].data.child0, Under(at), index);
    ShapeFrame(m, m', t.right, m[at].data.child1, Under(at), index);
  }

  lemma LeafRemoved(m: Heap, at: Addr, parent: Parent)
    requires at in m && m[at].data.parent == parent && m[at].data.child0 == 0 && m[at].data.child1 == 0
    requires Outside(m, parent, {at})
    ensures ReplacedAbove(m, Relink(m, at, 0), {at}, parent, at, 0)
  {
  }

  /** The code of Unlinked reads only what the shape says is there. */
  ghost predicate CanUnlink(m: Heap, x: Addr, r: Addr, p: Addr) {
    && x in m && m[x].back in m && m[x].forw in m && (r != 0 ==> r in m && p in m)
    && (m[x].data.parent.Under? ==> m[x].data.parent.node in m)
    && {m[x].data.child0, m[x].data.child1} <= m.Keys + {0}
  }

  lemma HeadRemoved(m: Heap, t: Trie, at: Addr, parent: Parent, index: nat, r: Addr, p: Addr, right: bool)
    requires t.Fork? && Shape(m, t, at, parent, index) && Outside(m, parent, Nodes(t))
    requires at in Nodes(t) && at in m && Replacement(m, t, at, r, p, right) && (|t.ring| > 1 ==> p in m)
    ensures CanUnlink(m, at, r, p)
    ensures var m' := Unlinked(m, at, r, p, right);
      && Shape(m', Removed(t, at), r, parent, index)
      && ReplacedAbove(m, m', Nodes(t), parent, at, r)
      && Nodes(Removed(t, at)) == Nodes(t) - {at}
  {
    hide Shape, Ring, Elems, Relink, Link, SetChild, ReplacedAbove;
    ForkFacts(m, t, at, parent, index);
    InRing(t.ring, at);
    assert m[at].data.parent == parent by { ParentOfFork(m, t, at, parent, index); }
    ShapeNodes(m, t.left, m[at].data.child0, Under(at), index);
    ShapeNodes(m, t.right, m[at].data.child1, Under(at), index);
    if |t.ring| > 1 {
      HeadOfRingRemoved(m, t, at, parent, index);
    } else {
      OnlyOne(m, t, at, parent, index);
      if t.Leaf() {
        NilShape(Relink(m, at, 0), parent, index);
        ElemsOfFew(at);
        LeafRemoved(m, at, parent);
      } else {
        NodeRemoved(m, t, at, parent, index);
      }
    }
  }

  lemma InRing(ring: seq<Addr>, x: Addr)
    ensures x in Elems(ring) <==> x in ring
  {
  }

  lemma ParentOfFork(m: Heap, t: Trie, at: Addr, parent: Parent, index: nat)
    requires t.Fork? && Shape(m, t, at, parent, index)
    ensures at in m && m[at].data.parent == parent
  {
  }

  lemma OnlyOne(m: Heap, t: Trie, at: Addr, parent: Parent, index: nat)
    requires t.Fork? && Shape(m, t, at, parent, index) && |t.ring| <= 1
    ensures t.ring == [at] && at in m && m[at].back == at
    ensures t.Leaf() ==> m[at].data.child0 == 0 && m[at].data.child1 == 0
  {
  }

  /** Unlinking below a node. */
  lemma BelowRemoved(m: Heap, m': Heap, t: Trie, at: Addr, parent: Parent, index: nat, side: bool, u: Trie, x: Addr,
                     r: Addr)
    requires t.Fork? && Shape(m, t, at, parent, index) && at in m
    requires var c := if side then t.right else t.left;
      var at' := if side then m[at].data.child1 else m[at].data.child0;
      && x in Nodes(c) && Nodes(u) == Nodes(c) - {x}
      && Shape(m', u, if x == at' then r else at', Under(at), index)
      && (if x == at' then ReplacedAbove(m, m', Nodes(c), Under(at), x, r)
          else m'.Keys == m.Keys && forall y :: y in m && y !in Nodes(c) ==> m'[y] == m[y])
    ensures Shape(m', if side then t.(right := u) else t.(left := u), at, parent, index)
    ensures m'.Keys == m.Keys && forall y :: y in m && y !in Nodes(t) ==> m'[y] == m[y]
    ensures Nodes(if side then t.(right := u) else t.(left := u)) == Nodes(t) - {x}
  {
    hide Shape, Ring, Elems, SetChild;
    ForkFacts(m, t, at, parent, index);
    ShapeNodes(m, t.left, m[at].data.child0, Under(at), index);
    ShapeNodes(m, t.right, m[at].data.child1, Under(at), index);
    SetChildEffects(m, at, side, r);
    var at' := if side then m[at].data.child1 else m[at].data.child0;
    SideReplaced(m, m', t, at, parent, index, side, u, if x == at' then r else at');
  }

  /** Unlinking takes exactly the chunk x out of the trie. */
  lemma {:induction false} RemovedShape(m: Heap, t: Trie, at: Addr, parent: Parent, index: nat,
                                        x: Addr, r: Addr, p: Addr, right: bool)
    requires t.Fork? && Shape(m, t, at, parent, index) && Outside(m, parent, Nodes(t))
    requires x in Nodes(t) && x in m && Replacement(m, t, x, r, p, right) && p in m
    ensures CanUnlink(m, x, r, p)
    ensures var m' := Unlinked(m, x, r, p, right);
      && Shape(m', Removed(t, x), if x == at then r else at, parent, index)
      && (if x == at then ReplacedAbove(m, m', Nodes(t), parent, x, r)
          else m'.Keys == m.Keys && forall y :: y in m && y !in Nodes(t) ==> m'[y] == m[y])
      && Nodes(Removed(t, x)) == Nodes(t) - {x}
  {
    hide Shape, Ring, Elems, Unlinked, SetChild, Link, SubOf;
    ForkFacts(m, t, at, parent, index);
    InRing(t.ring, x);
    SubOfFork(t, x);
    if x == at {
      HeadRemoved(m, t, at, parent, index, r, p, right);
    } else if x in t.ring {
      ChunkOfRingRemoved(m, t, at, parent, index, x);
      UnlinkedChunk(m, x, r, p, right);
    } else {
      var side := x !in Nodes(t.left);
      var c := if side then t.right else t.left;
      var at' := if side then m[at].data.child1 else m[at].data.child0;
      ShapeNodes(m, t.left, m[at].data.child0, Under(at), index);
      ShapeNodes(m, t.right, m[at].data.child1, Under(at), index);
      RemovedShape(m, c, at', Under(at), index, x, r, p, right);
      var m' := Unlinked(m, x, r, p, right);
      BelowRemoved(m, m', t, at, parent, index, side, Removed(c, x), x, r);
    }
  }

  lemma SubOfFork(t: Trie, x: Addr)
    requires x in Nodes(t)
    ensures SubOf(t, x) == if x in t.ring then t else if x in Nodes(t.left) then SubOf(t.left, x) else SubOf(t.right, x)
  {
  }

  lemma UnlinkedChunk(m: Heap, x: Addr, r: Addr, p: Addr, right: bool)
    requires CanUnlink(m, x, r, p) && m[x].data.parent == Chained && m[x].back != x
    ensures Unlinked(m, x, r, p, right) == Link(m, m[x].back, m[x].forw)
  {
  }

  lemma {:induction false} RemovedSorted(t: Trie, x: Addr, lo: nat, k: nat)
    requires Sorted(t, lo, k)
    ensures Sorted(Removed(t, x), lo, k) && Sizes(Removed(t, x)) <= Sizes(t)
  {
    match t
    case Nil =>
    case Fork(ring, size, l, r) =>
      if x in ring {
        if |ring| <= 1 && !t.Leaf() {
          LeafSorted(t, lo, k);
        }
      } else if k > 0 {
        RemovedSorted(l, x, lo, k - 1);
        RemovedSorted(r, x, lo + Pow2(k - 1), k - 1);
      }
  }

  /** The size of the rightmost leaf fits at the top of the trie. */
  lemma {:induction false} LeafSorted(t: Trie, lo: nat, k: nat)
    requires t.Fork? && Sorted(t, lo, k)
    ensures lo <= LeafOf(t).size < lo + Pow2(k) && LeafOf(t).size in Sizes(t)
    ensures Sorted(WithoutLeaf(t), lo, k) && Sizes(WithoutLeaf(t)) == Sizes(t) - {LeafOf(t).size}
  {
    if t.right.Fork? {
      LeafSorted(t.right, lo + Pow2(k - 1), k - 1);
      SizesInRange(t.left, lo, k - 1);
    } else if t.left.Fork? {
      LeafSorted(t.left, lo, k - 1);
    }
  }
}
