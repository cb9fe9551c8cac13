/** What undoing one recorded edit does to the links of the buffer. */
module EdUndo {
  import opened Sequences
  import opened Rings
  import opened UndoHistory
  import opened EdState

  /** Half-way through undoing: all links are in place, the edits of past still have to be undone,
      and those of future lead back. */
  ghost predicate Midway(m: LineMemory, ring: seq<Line>, yank: seq<Line>, past: seq<Step>, future: seq<Step>,
                         u: seq<Atom>, v: seq<Atom>, nodes: set<Line>) {
    && Zipper(ring, past, future, u, v)
    && Circular(m, ring) && Circular(m, yank) && AllRemembered(m, past) && AllRemembered(m, future)
    && Known(past, ring) + GoneNodes(future) == nodes && Elems(yank) !! nodes
  }

  /** Everything outside of the nodes where is as it was. */
  ghost predicate Elsewhere(m: LineMemory, m': LineMemory, where: set<Line>, yank: seq<Line>, past: seq<Step>,
                            future: seq<Step>) {
    && (Circular(m, yank) && where !! Elems(yank) ==> Circular(m', yank))
    && (AllRemembered(m, past) && where !! GoneNodes(past) ==> AllRemembered(m', past))
    && (AllRemembered(m, future) && where !! GoneNodes(future) ==> AllRemembered(m', future))
    && SameData(m, m')
  }

  lemma RelinkElsewhere(m: LineMemory, prev: Line, next: Line, where: set<Line>, yank: seq<Line>, past: seq<Step>,
                        future: seq<Step>)
    requires prev in m && next in m && prev in where && next in where
    ensures Elsewhere(m, Link(m, prev, next), where, yank, past, future)
  {
    hide Circular, AllRemembered, Elems, GoneNodes;
    if where !! Elems(yank) {
      LinkOther(m, prev, next, yank);
    }
    if AllRemembered(m, past) && where !! GoneNodes(past) {
      RememberedFrame(m, prev, next, past);
    }
    if AllRemembered(m, future) && where !! GoneNodes(future) {
      RememberedFrame(m, prev, next, future);
    }
  }

  /** The new links are right, everything else is as it was: one more edit is undone. */
  lemma StepUndone(m: LineMemory, m': LineMemory, ring: seq<Line>, yank: seq<Line>, past: seq<Step>, future: seq<Step>,
                   u: seq<Atom>, v: seq<Atom>, w: seq<Atom>, nodes: set<Line>)
    requires Midway(m, ring, yank, past, future, u, v, nodes) && past != []
    requires Top(past).Inverse().RecordedBy(w)
    requires Circular(m', Top(past).Old()) && Top(past).Inverse().Remembered(m')
    requires Elsewhere(m, m', Elems(Top(past).Old()) + Elems(Top(past).New()), yank, Front(past), future)
    ensures Top(past).Width() <= |u|
    ensures Midway(m', Top(past).Old(), yank, Front(past), future + [Top(past).Inverse()],
                   u[..|u| - Top(past).Width()], v + w, nodes)
  {
    hide Circular, Elems, GoneNodes, Zipper, Step.RecordedBy, Step.Remembered;
    var st := Top(past);
    ZipperFacts(ring, past, future, u, v);
    ZipperStep(ring, past, future, u, v, w);
    TopRemembered(m, past);
    PushRemembered(m', future, st.Inverse());
  }

  lemma ZipperFacts(s: seq<Line>, past: seq<Step>, future: seq<Step>, u: seq<Atom>, v: seq<Atom>)
    requires Zipper(s, past, future, u, v) && past != []
    ensures Top(past).WellFormed() && Top(past).New() == s
    ensures var where := Elems(Top(past).Old()) + Elems(Top(past).New());
      where <= Known(past, s) && where !! GoneNodes(Front(past)) !! GoneNodes(future)
    ensures Elems(Top(past).Gone()) <= GoneNodes(past)
    ensures Known(Front(past), Top(past).Old()) + GoneNodes(future + [Top(past).Inverse()])
         == Known(past, s) + GoneNodes(future)
  {
    ZipperSets(s, past, future);
    StepNodes(Top(past));
  }

  lemma UndoneInsertion(m: LineMemory, ring: seq<Line>, yank: seq<Line>, past: seq<Step>, future: seq<Step>,
                        u: seq<Atom>, v: seq<Atom>, nodes: set<Line>)
    requires Midway(m, ring, yank, past, future, u, v, nodes) && past != [] && Top(past).Add?
    ensures u != [] && Top(u).kind == UADD && Top(u).head in m && Top(u).tail in m
    ensures m[Top(u).head].back in m && m[Top(u).tail].forw in m
    ensures var m' := Link(m, m[Top(u).head].back, m[Top(u).tail].forw); var st := Top(past);
      && Midway(m', st.Old(), yank, Front(past), future + [st.Inverse()], Front(u), v + [Top(u).(kind := UDEL)], nodes)
      && SameData(m, m')
  {
    hide Circular, Elems, GoneNodes, Zipper, AllRemembered, Distinct, Dangling;
    var st := Top(past);
    ZipperFacts(ring, past, future, u, v);
    TopRecorded(ring, past, future, u, v);
    Detached(m, st.a, st.seg, st.c);
    EndsOfPieces(m, st.a, st.seg, st.c);
    RelinkElsewhere(m, Last(st.a), Head(st.c, st.a), Elems(st.Old()) + Elems(st.New()), yank, Front(past), future);
    InverseFacts(st);
    StepUndone(m, Link(m, Last(st.a), Head(st.c, st.a)), ring, yank, past, future, u, v, [Top(u).(kind := UDEL)],
               nodes);
  }

  lemma TopRecorded(s: seq<Line>, past: seq<Step>, future: seq<Step>, u: seq<Atom>, v: seq<Atom>)
    requires Zipper(s, past, future, u, v) && past != []
    ensures Top(past).Width() <= |u| && Top(past).RecordedBy(u[|u| - Top(past).Width()..])
  {
  }

  lemma UndoneDeletion(m: LineMemory, ring: seq<Line>, yank: seq<Line>, past: seq<Step>, future: seq<Step>,
                       u: seq<Atom>, v: seq<Atom>, nodes: set<Line>)
    requires Midway(m, ring, yank, past, future, u, v, nodes) && past != [] && Top(past).Del?
    ensures u != [] && Top(u).kind == UDEL && Top(u).head in m && Top(u).tail in m && m[Top(u).head].back in m
    ensures var m1 := Link(m, m[Top(u).head].back, Top(u).head);
      && m1[Top(u).tail].forw in m1
      && var m' := Link(m1, Top(u).tail, m1[Top(u).tail].forw); var st := Top(past);
      && Midway(m', st.Old(), yank, Front(past), future + [st.Inverse()], Front(u), v + [Top(u).(kind := UADD)], nodes)
      && SameData(m, m')
  {
    hide Circular, Elems, GoneNodes, Zipper, AllRemembered, Distinct, Linked;
    var st := Top(past);
    ZipperFacts(ring, past, future, u, v);
    TopRecorded(ring, past, future, u, v);
    TopRemembered(m, past);
    InverseFacts(st);
    Attached(m, st.a, st.seg, st.c);
    var m1 := Link(m, Last(st.a), st.seg[0]);
    var m' := Link(m1, Last(st.seg), Head(st.c, st.a));
    EndsOfPieces(m', st.a, st.seg, st.c);
    ElemsOfThree(st.a, st.seg, st.c);
    Ends(st.seg);
    var where := Elems(st.Old()) + Elems(st.New());
    RelinkElsewhere(m, Last(st.a), st.seg[0], where, yank, Front(past), future);
    RelinkElsewhere(m1, Last(st.seg), Head(st.c, st.a), where, yank, Front(past), future);
    StepUndone(m, m', ring, yank, past, future, u, v, [Top(u).(kind := UADD)], nodes);
  }

  lemma TopRemembered(m: LineMemory, steps: seq<Step>)
    requires AllRemembered(m, steps) && steps != []
    ensures Top(steps).Remembered(m) && AllRemembered(m, Front(steps))
  {
  }

  lemma UndoneMove(m: LineMemory, ring: seq<Line>, yank: seq<Line>, past: seq<Step>, future: seq<Step>,
                   u: seq<Atom>, v: seq<Atom>, nodes: set<Line>)
    requires Midway(m, ring, yank, past, future, u, v, nodes) && past != [] && Top(past).Move?
    ensures |u| >= 2 && Top(u).kind in {UMOV, VMOV} && u[|u| - 2].kind in {UMOV, VMOV}
    ensures var (p, q) := (u[|u| - 2], Top(u));
      && p.head in m && p.tail in m && q.head in m && q.tail in m && m[q.head].forw in m
      && Link(m, p.head, m[q.head].forw)[q.tail].back in m
      && var m' := Transpose(m, q.head, q.tail, p.head, p.tail); var st := Top(past);
      && Midway(m', st.Old(), yank, Front(past), future + [st.Inverse()], u[..|u| - 2],
                v + [q, p.(kind := p.kind.Flip())], nodes)
      && SameData(m, m')
  {
    hide Circular, Elems, GoneNodes, Zipper, AllRemembered, Distinct, Linked, Transpose;
    var st := Top(past);
    ZipperFacts(ring, past, future, u, v);
    TopRecorded(ring, past, future, u, v);
    var (p, q) := (u[|u| - 2], Top(u));
    assert u[|u| - 2..] == [p, q];
    Transposed(m, !st.up, q.head, q.tail, p.head, p.tail, st.a, st.y, st.x, st.d);
    var where := Elems(st.Old()) + Elems(st.New());
    MoveElsewhere(m, st, q, p, where, yank, Front(past), future);
    InverseFacts(st);
    StepUndone(m, Transpose(m, q.head, q.tail, p.head, p.tail), ring, yank, past, future, u, v,
               [q, p.(kind := p.kind.Flip())], nodes);
  }

  lemma MoveElsewhere(m: LineMemory, st: Step, q: Atom, p: Atom, where: set<Line>, yank: seq<Line>, past: seq<Step>,
                      future: seq<Step>)
    requires st.Move? && st.WellFormed() && Circular(m, st.New()) && Elems(st.New()) <= where
    requires Gaps(!st.up, q.head, q.tail, p.head, p.tail, st.a, st.y, st.x, st.d)
    requires q.head in m && q.tail in m && p.head in m && p.tail in m && m[q.head].forw in m
    requires Link(m, p.head, m[q.head].forw)[q.tail].back in m
    ensures Elsewhere(m, Transpose(m, q.head, q.tail, p.head, p.tail), where, yank, past, future)
  {
    hide Circular, Elems, GoneNodes, AllRemembered, Distinct, Linked;
    TransposedNodes(m, !st.up, q.head, q.tail, p.head, p.tail, st.a, st.y, st.x, st.d);
    var m1 := Link(m, p.head, m[q.head].forw);
    var m2 := Link(m1, m1[q.tail].back, p.tail);
    RelinkElsewhere(m, p.head, m[q.head].forw, where, yank, past, future);
    RelinkElsewhere(m1, m1[q.tail].back, p.tail, where, yank, past, future);
    RelinkElsewhere(m2, q.head, q.tail, where, yank, past, future);
  }

  /** The history that undoing the edits of steps, last first, leaves behind. */
  ghost function Undone(steps: seq<Step>): seq<Step> {
    if steps == [] then [] else [Top(steps).Inverse()] + Undone(Front(steps))
  }

  /** Undoing what undoing has recorded gives back the recorded edits themselves. */
  lemma {:induction false} UndoneTwice(steps: seq<Step>)
    requires forall k :: 0 <= k < |steps| ==> steps[k].WellFormed()
    ensures Undone(Undone(steps)) == steps
  {
    hide Step.WellFormed, Step.Inverse;
    if steps != [] {
      var front := Front(steps);
      assert forall k :: 0 <= k < |front| ==> front[k] == steps[k];
      UndoneTwice(front);
      InverseFacts(Top(steps));
      UndoneOfSum([Top(steps).Inverse()], Undone(front));
      UndoneOfOne(Top(steps).Inverse());
      assert Undone([Top(steps).Inverse()]) == [Top(steps)];
    }
  }

  lemma UndoneOfOne(st: Step)
    ensures Undone([st]) == [st.Inverse()]
  {
    assert Front([st]) == [];
  }

  lemma {:induction false} UndoneOfSum(a: seq<Step>, b: seq<Step>)
    ensures Undone(a + b) == Undone(b) + Undone(a)
  {
    if b == [] {
      assert a + b == a;
    } else {
      hide Step.Inverse;
      assert Front(a + b) == a + Front(b) && Top(a + b) == Top(b);
      UndoneOfSum(a, Front(b));
      assert [Top(b).Inverse()] + (Undone(Front(b)) + Undone(a)) == [Top(b).Inverse()] + Undone(Front(b)) + Undone(a);
    }
  }

  /** A recorded history and what undoing it records lead between the same two states. */
  lemma {:induction false} UndoneEnds(steps: seq<Step>, s: seq<Line>)
    requires Chain(steps, s) && steps != []
    ensures Undone(steps) != [] && Undone(steps)[0].Old() == s
    ensures Top(Undone(steps)) == steps[0].Inverse() && Top(Undone(steps)).New() == Origin(steps, s)
  {
    InverseFacts(Top(steps));
    InverseFacts(steps[0]);
    if Front(steps) != [] {
      PopChain(steps, s);
      UndoneEnds(Front(steps), Top(steps).Old());
    }
  }

  /** Before undoing: nothing has been undone yet. */
  lemma UndoBegins(m: LineMemory, ring: seq<Line>, yank: seq<Line>, steps: seq<Step>, u: seq<Atom>,
                   origin: seq<Line>, file: string)
    requires State(m, ring, yank, steps, u, origin, file, {})
    ensures Midway(m, ring, yank, steps, [], u, [], Known(steps, ring))
  {
  }

  /** After undoing: everything has been undone. */
  lemma UndoEnds(m: LineMemory, m': LineMemory, ring: seq<Line>, ring': seq<Line>, yank: seq<Line>, steps: seq<Step>,
                 past: seq<Step>, future: seq<Step>, u: seq<Atom>, v: seq<Atom>, origin: seq<Line>, file: string)
    requires State(m, ring, yank, steps, u, origin, file, {}) && steps != [] && SameData(m, m')
    requires Midway(m', ring', yank, past, future, [], v, Known(steps, ring))
    requires Undone(steps) == future + Undone(past)
    ensures past == [] && future == Undone(steps) && ring' == origin
    ensures State(m', ring', yank, Undone(steps), v, ring, file, {})
  {
    hide Circular, Elems, Chain, AllRemembered, Stored, GoneNodes, Apart;
    if past != [] {
      TopRecorded(ring', past, future, [], v);
    }
    assert future + [] == future;
    UndoneEnds(steps, ring);
    EmptyPast(ring', future);
    StoredFrame(m, m', file);
    assert m'.Keys - {} == m.Keys - {};
  }

  lemma EmptyPast(s: seq<Line>, future: seq<Step>)
    requires Chain(future, s)
    ensures GoneNodes([]) == {} && (future != [] ==> Top(future).New() == s)
  {
  }

  /** Half-way through forgetting: the edits of past lead to s and are still on the stack, except
      that the upper entry of a move may be gone already. */
  ghost predicate Clearing(m: LineMemory, past: seq<Step>, s: seq<Line>, u: seq<Atom>) {
    && Chain(past, s) && AllRemembered(m, past)
    && (Recorded(past, u) || (u != [] && Top(u).kind in {UMOV, VMOV} && Recorded(past, Front(u))))
  }

  lemma ClearBegins(m: LineMemory, ring: seq<Line>, yank: seq<Line>, steps: seq<Step>, u: seq<Atom>,
                    origin: seq<Line>, file: string)
    requires State(m, ring, yank, steps, u, origin, file, {})
    ensures Clearing(m, steps, ring, u)
  {
  }

  /** One entry leaves the stack; when it is a deletion, its segment can be freed. */
  lemma ClearStep(m: LineMemory, past: seq<Step>, s: seq<Line>, u: seq<Atom>) returns (rest: seq<Step>, s': seq<Line>)
    requires Clearing(m, past, s, u) && u != []
    ensures Top(u).kind == UDEL ==>
      && past != [] && Top(past).Del? && Top(past).WellFormed() && rest == Front(past)
      && var st := Top(past);
      && Dangling(m, Last(st.a), st.seg, Head(st.c, st.a)) && Head(st.c, st.a) !in Elems(st.seg)
      && Top(u).head == st.seg[0] && Top(u).tail == Last(st.seg)
      && GoneNodes(past) == GoneNodes(rest) + Elems(st.seg) && GoneNodes(rest) !! Elems(st.seg)
      && Clearing(m - Elems(st.seg), rest, s', Front(u))
    ensures Top(u).kind != UDEL ==> GoneNodes(past) == GoneNodes(rest) && Clearing(m, rest, s', Front(u))
  {
    hide Distinct, Elems, Linked;
    rest, s' := past, s;
    if Recorded(past, u) {
      var st := Top(past);
      rest, s' := Front(past), st.Old();
      PopChain(past, s);
      InverseFacts(st);
      TopGone(past);
      ElemsOfFew(0);
      if st.Del? {
        TopGoneApart(past, s);
        StepNodes(st);
        EndsOfHole(st);
        RememberedElsewhere(m, m - Elems(st.seg), rest);
      } else if st.Move? {
        assert u[|u| - 2..] == [u[|u| - 2], Top(u)];
        assert Front(Front(u)) == u[..|u| - 2];
      }
    }
  }

  lemma EndsOfHole(st: Step)
    requires st.Del? && st.WellFormed()
    ensures Head(st.c, st.a) !in Elems(st.seg)
  {
    InverseFacts(st);
    ElemsOfSum(st.a, st.c);
    Ends(st.a);
    Ends(st.c);
  }

  lemma ClearEnds(m: LineMemory, past: seq<Step>, s: seq<Line>)
    requires Clearing(m, past, s, [])
    ensures past == [] && GoneNodes(past) == {}
  {
  }

  /** Once all detached nodes are freed, the state is one without history. */
  lemma Cleared(m: LineMemory, ring: seq<Line>, yank: seq<Line>, steps: seq<Step>, u: seq<Atom>,
                origin: seq<Line>, file: string)
    requires State(m, ring, yank, steps, u, origin, file, {})
    ensures ring != [] && yank != []
    ensures var m' := m - GoneNodes(steps);
      && State(m', ring, yank, [], [], ring, file, {})
      && Texts(m', file, ring[1..]) == Texts(m, file, ring[1..])
      && Texts(m', file, yank[1..]) == Texts(m, file, yank[1..])
  {
    hide Circular, Elems, Stored, Text, Texts, Chain, Recorded, GoneNodes;
    var m' := m - GoneNodes(steps);
    NoHistory(ring);
    CircularElsewhere(m, m', ring);
    CircularElsewhere(m, m', yank);
    CircularFacts(m, ring);
    CircularFacts(m, yank);
    StoredLess(m, m', file);
    TextsOfRing(m, m', file, ring);
    TextsOfRing(m, m', file, yank);
    assert m'.Keys - {} == m.Keys - {} - GoneNodes(steps);
  }

  function Reversed<T>(s: seq<T>): seq<T> {
    seq(|s|, i requires 0 <= i < |s| => s[|s| - 1 - i])
  }

  /** The first and the last n elements of s have changed places. */
  ghost function Reversing<T>(s: seq<T>, n: nat): (r: seq<T>)
    ensures |r| == |s|
  {
    seq(|s|, i requires 0 <= i < |s| => if i < n || |s| - n <= i then s[|s| - 1 - i] else s[i])
  }

  lemma ReversedOneMore<T>(s: seq<T>, n: nat)
    requires 2 * n < |s| - 1
    ensures var r := Reversing(s, n);
      r[n := r[|s| - 1 - n]][|s| - 1 - n := r[n]] == Reversing(s, n + 1)
  {
  }

  lemma ReversedAll<T>(s: seq<T>, n: nat)
    requires 2 * n >= |s| - 1
    ensures Reversing(s, n) == Reversed(s)
  {
  }

  /** The top entry of the stack tells the kind of the last edit. */
  lemma TopKind(m: LineMemory, ring: seq<Line>, yank: seq<Line>, past: seq<Step>, future: seq<Step>,
                u: seq<Atom>, v: seq<Atom>, nodes: set<Line>)
    requires Midway(m, ring, yank, past, future, u, v, nodes) && u != []
    ensures past != []
    ensures Top(u).kind == UADD ==> Top(past).Add?
    ensures Top(u).kind == UDEL ==> Top(past).Del?
    ensures Top(u).kind in {UMOV, VMOV} ==> Top(past).Move?
  {
    if past != [] {
      TopRecorded(ring, past, future, u, v);
      assert u[|u| - Top(past).Width()..][Top(past).Width() - 1] == Top(u);
    }
  }

  /** Once entries from below to n are turned over, what lies above them records the inverse too. */
  lemma UndoneEntries(u: seq<Atom>, stack: seq<Atom>, below: nat, n: nat, v: seq<Atom>)
    requires below <= n <= below + 1 && n < |stack| && |u| == n + 1 && v == Reversed(stack[n + 1..])
    requires stack[..below] == u[..below] && (below < n ==> stack[n] == u[n])
    ensures stack[..below] == u[..below]
    ensures Reversed(stack[below..]) == v + if below == n then [stack[n]] else [stack[n], stack[below]]
  {
  }

  lemma SameDataTrivially(m: LineMemory)
    ensures SameData(m, m)
  {
  }

  lemma SameDataTwice(m: LineMemory, m': LineMemory, m'': LineMemory)
    requires SameData(m, m') && SameData(m', m'')
    ensures SameData(m, m'')
  {
  }

  lemma UndoneUnfolds(steps: seq<Step>)
    requires steps != []
    ensures Undone(steps) == [Top(steps).Inverse()] + Undone(Front(steps))
  {
  }

  /** The stack is empty when nothing has been recorded. */
  lemma EmptyStack(m: LineMemory, ring: seq<Line>, yank: seq<Line>, steps: seq<Step>, u: seq<Atom>,
                   origin: seq<Line>, file: string)
    requires State(m, ring, yank, steps, u, origin, file, {})
    ensures u == [] <==> steps == []
  {
  }

  /** The state that undoing leads back to begins with the same head, and undoing touches no text. */
  lemma UndoTexts(m: LineMemory, ring: seq<Line>, yank: seq<Line>, steps: seq<Step>, u: seq<Atom>,
                  origin: seq<Line>, file: string)
    requires State(m, ring, yank, steps, u, origin, file, {})
    ensures ring != [] && yank != [] && origin != [] && origin[0] == ring[0]
    ensures forall m' :: SameData(m, m') ==> Texts(m', file, ring[1..]) == Texts(m, file, ring[1..])
    ensures forall m' :: SameData(m, m') ==> Texts(m', file, yank[1..]) == Texts(m, file, yank[1..])
    ensures forall m' :: SameData(m, m') ==> Texts(m', file, origin[1..]) == Texts(m, file, origin[1..])
  {
    hide Texts, Text, Elems, AllRemembered, Stored, GoneNodes, Recorded;
    OriginHead(steps, ring);
    CircularFacts(m, ring);
    CircularFacts(m, yank);
    OriginTexts(m, m, ring, yank, steps, u, origin, file, file, {});
    forall m' | SameData(m, m')
      ensures Texts(m', file, ring[1..]) == Texts(m, file, ring[1..])
      ensures Texts(m', file, yank[1..]) == Texts(m, file, yank[1..])
      ensures Texts(m', file, origin[1..]) == Texts(m, file, origin[1..])
    {
      TextsOfRing(m, m', file, ring);
      TextsOfRing(m, m', file, yank);
      TextsOfRing(m, m', file, origin);
    }
  }

  lemma {:induction false} OriginHead(steps: seq<Step>, s: seq<Line>)
    requires Chain(steps, s) && s != []
    ensures Origin(steps, s) != [] && Origin(steps, s)[0] == s[0]
  {
    if steps != [] {
      assert Top(steps).WellFormed();
      PopChain(steps, s);
      OriginHead(Front(steps), Top(steps).Old());
    }
  }

  lemma StepsWellFormed(m: LineMemory, ring: seq<Line>, yank: seq<Line>, steps: seq<Step>, u: seq<Atom>,
                        origin: seq<Line>, file: string)
    requires State(m, ring, yank, steps, u, origin, file, {})
    ensures forall k :: 0 <= k < |steps| ==> steps[k].WellFormed()
  {
  }

  /** Two stacks differ at most in the marks of moves. */
  ghost predicate SameEntries(u: seq<Atom>, v: seq<Atom>) {
    && |u| == |v|
    && forall i :: 0 <= i < |u| ==>
      && u[i].head == v[i].head && u[i].tail == v[i].tail
      && (u[i].kind == v[i].kind || (u[i].kind in {UMOV, VMOV} && v[i].kind in {UMOV, VMOV}))
  }

  lemma OneEntry(st: Step, u: seq<Atom>, v: seq<Atom>)
    requires st.RecordedBy(u) && st.RecordedBy(v)
    ensures SameEntries(u, v)
  {
  }

  /** A history has only one record. */
  lemma {:induction false} OneRecord(steps: seq<Step>, u: seq<Atom>, v: seq<Atom>)
    requires Recorded(steps, u) && Recorded(steps, v)
    ensures SameEntries(u, v)
  {
    hide Step.RecordedBy;
    if steps != [] {
      var w := Top(steps).Width();
      OneRecord(Front(steps), u[..|u| - w], v[..|v| - w]);
      OneEntry(Top(steps), u[|u| - w..], v[|v| - w..]);
      assert u == u[..|u| - w] + u[|u| - w..] && v == v[..|v| - w] + v[|v| - w..];
    }
  }

  /** The links of detached nodes are given by the history. */
  lemma {:induction false} OneMemoryOfGone(m: LineMemory, m': LineMemory, steps: seq<Step>)
    requires AllRemembered(m, steps) && AllRemembered(m', steps) && SameData(m, m')
    requires forall k :: 0 <= k < |steps| ==> steps[k].WellFormed()
    ensures forall x :: x in GoneNodes(steps) && x in m ==> m'[x] == m[x]
  {
    if steps != [] {
      assert forall k :: 0 <= k < |Front(steps)| ==> Front(steps)[k] == steps[k];
      OneMemoryOfGone(m, m', Front(steps));
      if Top(steps).Del? {
        OneMemoryOfSegment(m, m', Top(steps).seg);
      }
    }
  }

  lemma OneMemoryOfSegment(m: LineMemory, m': LineMemory, s: seq<Line>)
    requires s != [] && Linked(m, s) && Linked(m', s) && SameData(m, m')
    requires m'[s[0]].back == m[s[0]].back && m'[Last(s)].forw == m[Last(s)].forw
    ensures forall x :: x in Elems(s) && x in m ==> m'[x] == m[x]
  {
    forall x | x in Elems(s) && x in m ensures m'[x] == m[x] {
      var i :| 0 <= i < |s| && s[i] == x;
      assert s[i] in Elems(s);
      if i < |s| - 1 {
        assert m[s[i]].forw == s[i + 1] == m'[s[i]].forw;
      }
      if 0 < i {
        assert m[s[i]].back == s[i - 1] == m'[s[i]].back;
      }
    }
  }

  lemma OneMemoryOfRing(m: LineMemory, m': LineMemory, s: seq<Line>)
    requires Circular(m, s) && Circular(m', s) && SameData(m, m')
    ensures forall x :: x in Elems(s) && x in m ==> m'[x] == m[x]
  {
    OneMemoryOfSegment(m, m', s);
  }

  /** The lines, the yanked lines, the history and the text determine every node in memory. */
  lemma SameState(m: LineMemory, m': LineMemory, ring: seq<Line>, yank: seq<Line>, steps: seq<Step>, u: seq<Atom>,
                  v: seq<Atom>,
                  origin: seq<Line>, file: string)
    requires State(m, ring, yank, steps, v, origin, file, {}) && State(m', ring, yank, steps, u, origin, file, {})
    requires SameData(m, m')
    ensures m == m' && SameEntries(u, v)
  {
    hide Circular, Elems, AllRemembered, GoneNodes, Recorded, SameEntries;
    OneRecord(steps, u, v);
    OneMemoryOfRing(m, m', ring);
    OneMemoryOfRing(m, m', yank);
    OneMemoryOfGone(m, m', steps);
    forall x | x in m ensures m'[x] == m[x] {
      assert x in m.Keys - {};
    }
  }
}
