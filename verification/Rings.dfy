/** Nodes in memory, and the circular doubly linked lists they form. */
module Rings {
  import opened Sequences

  type Addr = nat

  /** A node: its two links, and what else is in it. */
  datatype Node<T> = Node(forw: Addr, back: Addr, data: T)

  /** The nodes that are allocated. */
  type Memory<T> = map<Addr, Node<T>>

  /** The memory after linking next behind prev. */
  function Link<T>(m: Memory<T>, prev: Addr, next: Addr): Memory<T>
    requires prev in m && next in m
  {
    var m' := m[prev := m[prev].(forw := next)];
    m'[next := m'[next].(back := prev)]
  }

  /** The memory after putting lp into a list behind prev. */
  function Insert<T>(m: Memory<T>, lp: Addr, prev: Addr): Memory<T>
    requires lp in m && prev in m && m[prev].forw in m
  {
    Link(Link(m, lp, m[prev].forw), prev, lp)
  }

  /** The same nodes hold the same data. */
  ghost predicate SameData<T>(m: Memory<T>, m': Memory<T>) {
    m'.Keys == m.Keys && forall x :: x in m ==> m'[x].data == m[x].data
  }

  ghost function Elems(s: seq<Addr>): set<Addr> {
    set x | x in s
  }

  ghost function Last(s: seq<Addr>): Addr
    requires 0 < |s|
  {
    s[|s| - 1]
  }

  /** The first element of c, or of a when c is empty: what follows a stretch of a circle. */
  ghost function Head(c: seq<Addr>, a: seq<Addr>): Addr
    requires a != []
  {
    if c == [] then a[0] else c[0]
  }

  /** The nodes of s are linked in order; where its two ends point is left open. */
  ghost predicate Linked<T>(m: Memory<T>, s: seq<Addr>) {
    && Elems(s) <= m.Keys
    && (forall i :: 0 <= i < |s| - 1 ==> m[s[i]].forw == s[i + 1])
    && (forall i :: 0 < i < |s| ==> m[s[i]].back == s[i - 1])
  }

  /** prev and next are linked to each other. */
  ghost predicate Joined<T>(m: Memory<T>, prev: Addr, next: Addr) {
    prev in m && next in m && m[prev].forw == next && m[next].back == prev
  }

  /** The nodes of s are linked in order and close to one circle. */
  ghost predicate Circular<T>(m: Memory<T>, s: seq<Addr>) {
    s != [] && Distinct(s) && Linked(m, s) && Joined(m, Last(s), s[0])
  }

  /** The nodes of seg are linked in order, and its two ends point at prev and next. */
  ghost predicate Dangling<T>(m: Memory<T>, prev: Addr, seg: seq<Addr>, next: Addr) {
    && seg != [] && Distinct(seg) && Linked(m, seg)
    && m[seg[0]].back == prev && m[Last(seg)].forw == next
  }

  lemma ElemsOfSum(a: seq<Addr>, b: seq<Addr>)
    ensures Elems(a + b) == Elems(a) + Elems(b)
  {
  }

  lemma ElemsOfFew(x: Addr)
    ensures Elems([]) == {} && Elems([x]) == {x} && Distinct([x])
  {
  }

  lemma ElemsOfThree(a: seq<Addr>, seg: seq<Addr>, c: seq<Addr>)
    ensures Elems(a + seg + c) == Elems(a) + Elems(seg) + Elems(c)
    ensures Elems(a + c) == Elems(a) + Elems(c)
  {
    ElemsOfSum(a, c);
    ElemsOfSum(a, seg);
    ElemsOfSum(a + seg, c);
  }

  lemma LinkedSlice<T>(m: Memory<T>, s: seq<Addr>, i: nat, j: nat)
    requires i <= j <= |s| && Linked(m, s)
    ensures Linked(m, s[i..j])
  {
    var t := s[i..j];
    forall k | 0 <= k < |t| - 1 ensures m[t[k]].forw == t[k + 1] { assert t[k] == s[i + k]; }
    forall k | 0 < k < |t| ensures m[t[k]].back == t[k - 1] { assert t[k] == s[i + k]; }
  }

  lemma LinkedParts<T>(m: Memory<T>, a: seq<Addr>, b: seq<Addr>)
    requires Linked(m, a + b)
    ensures Linked(m, a) && Linked(m, b)
    ensures a != [] && b != [] ==> Joined(m, Last(a), b[0])
  {
    var t := a + b;
    assert t[..|a|] == a && t[|a|..] == b;
    LinkedSlice(m, t, 0, |a|);
    LinkedSlice(m, t, |a|, |t|);
    if a != [] && b != [] {
      assert t[|a| - 1] == Last(a) && t[|a|] == b[0];
      assert Last(a) in Elems(t) && b[0] in Elems(t);
    }
  }

  lemma LinkedSum<T>(m: Memory<T>, a: seq<Addr>, b: seq<Addr>)
    requires Linked(m, a) && Linked(m, b)
    requires a != [] && b != [] ==> Joined(m, Last(a), b[0])
    ensures Linked(m, a + b)
  {
    var t := a + b;
    ElemsOfSum(a, b);
    forall k | 0 <= k < |t| - 1 ensures m[t[k]].forw == t[k + 1] {
      if |a| <= k { assert t[k] == b[k - |a|]; }
    }
    forall k | 0 < k < |t| ensures m[t[k]].back == t[k - 1] {
      if |a| < k { assert t[k] == b[k - |a|]; }
    }
  }

  lemma DistinctSum(a: seq<Addr>, b: seq<Addr>)
    ensures Distinct(a + b) <==> Distinct(a) && Distinct(b) && Elems(a) !! Elems(b)
  {
    var t := a + b;
    assert forall i :: 0 <= i < |a| ==> t[i] == a[i];
    assert forall i :: 0 <= i < |b| ==> t[|a| + i] == b[i];
    if Distinct(t) {
      forall x | x in Elems(a) ensures x !in Elems(b) {
        var i :| 0 <= i < |a| && a[i] == x;
      }
    }
    if Distinct(a) && Distinct(b) && Elems(a) !! Elems(b) {
      forall i, j | 0 <= i < j < |t| ensures t[i] != t[j] {
        if |a| <= i { assert t[i] == b[i - |a|]; }
        if |a| <= j { assert t[j] == b[j - |a|]; }
        if i < |a| <= j { assert a[i] in Elems(a) && b[j - |a|] in Elems(b); }
      }
    }
  }

  /** Links inside s survive when at most the outer links of its two ends are rewritten. */
  lemma LinkedFrame<T>(m: Memory<T>, prev: Addr, next: Addr, s: seq<Addr>)
    requires Linked(m, s) && Distinct(s) && prev in m && next in m
    requires prev in Elems(s) ==> prev == Last(s)
    requires next in Elems(s) ==> next == s[0]
    ensures Linked(Link(m, prev, next), s)
  {
    assert forall i :: 0 <= i < |s| ==> s[i] in Elems(s);
    assert forall i :: 0 <= i < |s| - 1 ==> s[i] != Last(s);
    assert forall i :: 0 < i < |s| ==> s[i] != s[0];
  }

  /** A circle is two stretches that point at each other. */
  lemma CircleOfTwo<T>(m: Memory<T>, a: seq<Addr>, c: seq<Addr>)
    requires a != []
    ensures Circular(m, a + c) <==>
      && Distinct(a) && Distinct(c) && Elems(a) !! Elems(c) && Linked(m, a) && Linked(m, c)
      && Joined(m, Last(a), Head(c, a)) && (c != [] ==> Joined(m, Last(c), a[0]))
  {
    DistinctSum(a, c);
    if c == [] {
      assert a + c == a;
    } else {
      if Linked(m, a + c) {
        LinkedParts(m, a, c);
      }
      if Linked(m, a) && Linked(m, c) && Joined(m, Last(a), c[0]) {
        LinkedSum(m, a, c);
      }
      assert Last(a + c) == Last(c) && (a + c)[0] == a[0];
    }
  }

  /** A circle is three stretches that point at each other. */
  lemma CircleOfThree<T>(m: Memory<T>, a: seq<Addr>, seg: seq<Addr>, c: seq<Addr>)
    requires a != [] && seg != []
    ensures Circular(m, a + seg + c) <==>
      && Distinct(a) && Distinct(seg) && Distinct(c)
      && Elems(a) !! Elems(seg) !! Elems(c)
      && Linked(m, a) && Linked(m, seg) && Linked(m, c)
      && Joined(m, Last(a), seg[0]) && Joined(m, Last(seg), Head(c, a)) && (c != [] ==> Joined(m, Last(c), a[0]))
  {
    CircleOfTwo(m, a + seg, c);
    DistinctSum(a, seg);
    ElemsOfSum(a, seg);
    if Linked(m, a + seg) {
      LinkedParts(m, a, seg);
    }
    if Linked(m, a) && Linked(m, seg) && Joined(m, Last(a), seg[0]) {
      LinkedSum(m, a, seg);
    }
    assert Last(a + seg) == Last(seg) && (a + seg)[0] == a[0];
  }

  /** A circle is four stretches that point at each other. */
  lemma CircleOfFour<T>(m: Memory<T>, a: seq<Addr>, x: seq<Addr>, y: seq<Addr>, d: seq<Addr>)
    requires a != [] && x != [] && y != []
    ensures Circular(m, a + x + y + d) <==>
      && Distinct(a) && Distinct(x) && Distinct(y) && Distinct(d)
      && Elems(a) !! Elems(x) !! Elems(y) !! Elems(d)
      && Linked(m, a) && Linked(m, x) && Linked(m, y) && Linked(m, d)
      && Joined(m, Last(a), x[0]) && Joined(m, Last(x), y[0]) && Joined(m, Last(y), Head(d, a))
      && (d != [] ==> Joined(m, Last(d), a[0]))
  {
    CircleOfThree(m, a + x, y, d);
    DistinctSum(a, x);
    ElemsOfSum(a, x);
    if Linked(m, a + x) {
      LinkedParts(m, a, x);
    }
    if Linked(m, a) && Linked(m, x) && Joined(m, Last(a), x[0]) {
      LinkedSum(m, a, x);
    }
    assert Last(a + x) == Last(x) && (a + x)[0] == a[0];
  }

  /** Links of stretches that contain neither node stay as they are. */
  lemma LinkOther<T>(m: Memory<T>, prev: Addr, next: Addr, s: seq<Addr>)
    requires prev in m && next in m && prev !in Elems(s) && next !in Elems(s)
    ensures Circular(m, s) ==> Circular(Link(m, prev, next), s)
    ensures forall p, n :: Dangling(m, p, s, n) ==> Dangling(Link(m, prev, next), p, s, n)
  {
    assert forall i :: 0 <= i < |s| ==> s[i] in Elems(s);
    if Linked(m, s) && Distinct(s) {
      LinkedFrame(m, prev, next, s);
    }
  }

  /** Linking across seg takes it out of the circle; seg itself still points to where it was. */
  lemma Detached<T>(m: Memory<T>, a: seq<Addr>, seg: seq<Addr>, c: seq<Addr>)
    requires a != [] && seg != [] && Circular(m, a + seg + c)
    ensures seg[0] in m && Last(seg) in m && m[seg[0]].back == Last(a) && m[Last(seg)].forw == Head(c, a)
    ensures Last(a) in m && Head(c, a) in m
    ensures var m' := Link(m, Last(a), Head(c, a)); Circular(m', a + c) && Dangling(m', Last(a), seg, Head(c, a))
  {
    hide Linked, Distinct, Elems;
    CircleOfThree(m, a, seg, c);
    Ends(a); Ends(seg); Ends(c);
    var m' := Link(m, Last(a), Head(c, a));
    LinkedFrame(m, Last(a), Head(c, a), a);
    LinkedFrame(m, Last(a), Head(c, a), seg);
    LinkedFrame(m, Last(a), Head(c, a), c);
    CircleOfTwo(m', a, c);
  }

  lemma Ends(s: seq<Addr>)
    ensures s != [] ==> s[0] in Elems(s) && Last(s) in Elems(s)
  {
  }

  /** A detached stretch finds back to where it was by what its ends point at. */
  lemma Attached<T>(m: Memory<T>, a: seq<Addr>, seg: seq<Addr>, c: seq<Addr>)
    requires a != [] && Circular(m, a + c) && Elems(seg) !! Elems(a + c)
    requires Dangling(m, Last(a), seg, Head(c, a))
    ensures Last(a) in m && Head(c, a) in m && seg[0] in m && Last(seg) in m
    ensures var m1 := Link(m, Last(a), seg[0]);
      m1[Last(seg)].forw == Head(c, a) && Circular(Link(m1, Last(seg), Head(c, a)), a + seg + c)
  {
    hide Distinct, Elems;
    CircleOfTwo(m, a, c);
    ElemsOfSum(a, c);
    Ends(a); Ends(seg); Ends(c);
    var m1 := Link(m, Last(a), seg[0]);
    var m2 := Link(m1, Last(seg), Head(c, a));
    LinkedFrame(m, Last(a), seg[0], a);
    LinkedFrame(m, Last(a), seg[0], seg);
    LinkedFrame(m, Last(a), seg[0], c);
    LinkedFrame(m1, Last(seg), Head(c, a), a);
    LinkedFrame(m1, Last(seg), Head(c, a), seg);
    LinkedFrame(m1, Last(seg), Head(c, a), c);
    CircleOfThree(m2, a, seg, c);
  }

  /** The circle s with lp after its element k. */
  ghost function Inserted(s: seq<Addr>, k: nat, lp: Addr): seq<Addr>
    requires k < |s|
  {
    s[..k + 1] + [lp] + s[k + 1..]
  }

  lemma InsertedCircle<T>(m: Memory<T>, s: seq<Addr>, k: nat, lp: Addr)
    requires Circular(m, s) && k < |s| && lp in m && lp !in Elems(s)
    ensures s[k] in m && m[s[k]].forw in m && m[s[k]].forw in Elems(s) && s[k] in Elems(s)
    ensures Circular(Insert(m, lp, s[k]), Inserted(s, k, lp))
    ensures Elems(Inserted(s, k, lp)) == Elems(s) + {lp}
  {
    hide Linked, Distinct, Elems;
    var a, c := s[..k + 1], s[k + 1..];
    assert s == a + c && s[k] == Last(a);
    CircleOfTwo(m, a, c);
    ElemsOfThree(a, [lp], c);
    ElemsOfFew(lp);
    Ends(a); Ends(c);
    var m1 := Link(m, lp, Head(c, a));
    LinkedFrame(m, lp, Head(c, a), a);
    LinkedFrame(m, lp, Head(c, a), [lp]);
    LinkedFrame(m, lp, Head(c, a), c);
    LinkedFrame(m1, Last(a), lp, a);
    LinkedFrame(m1, Last(a), lp, [lp]);
    LinkedFrame(m1, Last(a), lp, c);
    CircleOfThree(Link(m1, Last(a), lp), a, [lp], c);
  }

  /** In the circle a + x + y + d the pair (b1, a1) names the gap that a stretch leaves behind
      and (b2, a2) the gap it moves to: x moves up past y, or y moves down before x. */
  ghost predicate Gaps(up: bool, b1: Addr, a1: Addr, b2: Addr, a2: Addr,
                       a: seq<Addr>, x: seq<Addr>, y: seq<Addr>, d: seq<Addr>)
    requires a != [] && x != [] && y != []
  {
    if up then b1 == Last(a) && a1 == y[0] && b2 == Last(y) && a2 == Head(d, a)
    else b1 == Last(x) && a1 == Head(d, a) && b2 == Last(a) && a2 == x[0]
  }

  /** The memory after moving the stretch between b1 and a1 into the gap between b2 and a2. */
  function Transpose<T>(m: Memory<T>, b1: Addr, a1: Addr, b2: Addr, a2: Addr): Memory<T>
    requires b1 in m && a1 in m && b2 in m && a2 in m && m[b1].forw in m
    requires Link(m, b2, m[b1].forw)[a1].back in m
  {
    var m1 := Link(m, b2, m[b1].forw);
    var m2 := Link(m1, m1[a1].back, a2);
    Link(m2, b1, a1)
  }

  /** Relinking ends of four stretches of a circle keeps the links inside them. */
  lemma FourFrame<T>(m: Memory<T>, prev: Addr, next: Addr, a: seq<Addr>, x: seq<Addr>, y: seq<Addr>, d: seq<Addr>)
    requires a != [] && x != [] && y != [] && Elems(a) !! Elems(x) !! Elems(y) !! Elems(d)
    requires Distinct(a) && Distinct(x) && Distinct(y) && Distinct(d)
    requires Linked(m, a) && Linked(m, x) && Linked(m, y) && Linked(m, d)
    requires prev in m && (prev == Last(a) || prev == Last(x) || prev == Last(y))
    requires next in m && (next == x[0] || next == y[0] || next == Head(d, a))
    ensures var m' := Link(m, prev, next); Linked(m', a) && Linked(m', x) && Linked(m', y) && Linked(m', d)
    ensures Last(a) in Elems(a) && Last(x) in Elems(x) && Last(y) in Elems(y)
    ensures a[0] in Elems(a) && x[0] in Elems(x) && y[0] in Elems(y)
    ensures (d != [] ==> d[0] in Elems(d) && Last(d) in Elems(d))
  {
    hide Linked, Distinct, Elems;
    Ends(a); Ends(x); Ends(y); Ends(d);
    LinkedFrame(m, prev, next, a);
    LinkedFrame(m, prev, next, x);
    LinkedFrame(m, prev, next, y);
    LinkedFrame(m, prev, next, d);
  }

  lemma Transposed<T>(m: Memory<T>, up: bool, b1: Addr, a1: Addr, b2: Addr, a2: Addr,
                   a: seq<Addr>, x: seq<Addr>, y: seq<Addr>, d: seq<Addr>)
    requires a != [] && x != [] && y != [] && Circular(m, a + x + y + d)
    requires Gaps(up, b1, a1, b2, a2, a, x, y, d)
    ensures b1 in m && a1 in m && b2 in m && a2 in m && m[b1].forw in m
    ensures Link(m, b2, m[b1].forw)[a1].back in m
    ensures Circular(Transpose(m, b1, a1, b2, a2), a + y + x + d)
  {
    hide Linked, Distinct, Elems;
    CircleOfFour(m, a, x, y, d);
    var m1 := Link(m, b2, m[b1].forw);
    var m2 := Link(m1, m1[a1].back, a2);
    FourFrame(m, b2, m[b1].forw, a, x, y, d);
    FourFrame(m1, m1[a1].back, a2, a, x, y, d);
    FourFrame(m2, b1, a1, a, x, y, d);
    CircleOfFour(Link(m2, b1, a1), a, y, x, d);
  }

  /** A circle depends on nothing but the links of its own nodes. */
  lemma CircularFrame<T, U>(m: Memory<T>, m': Memory<U>, s: seq<Addr>)
    requires Circular(m, s)
    requires forall x :: x in Elems(s) ==> x in m' && m'[x].forw == m[x].forw && m'[x].back == m[x].back
    ensures Circular(m', s)
  {
    assert forall i :: 0 <= i < |s| ==> s[i] in Elems(s);
  }

  /** A circle has no first element. */
  lemma Rotated<T>(m: Memory<T>, a: seq<Addr>, c: seq<Addr>)
    requires a != [] && c != [] && Circular(m, a + c)
    ensures Circular(m, c + a)
  {
    CircleOfTwo(m, a, c);
    CircleOfTwo(m, c, a);
  }
}
