/** What the undo stack of the editor records: a chain of reversible edits of a sequence of nodes. */
module UndoHistory {
  import opened Sequences
  import opened Rings

  /** Where the text of a line is in the scratch file. */
  datatype Span = Span(pos: nat, len: nat)

  /** The address of a line node. */
  type Line = Addr

  type LineMemory = Memory<Span>

  datatype Kind = UADD | UDEL | UMOV | VMOV {
    function Flip(): Kind {
      match this
      case UADD => UDEL
      case UDEL => UADD
      case UMOV => VMOV
      case VMOV => UMOV
    }
  }

  /** An entry of the undo stack. */
  datatype Atom = Atom(kind: Kind, head: Line, tail: Line)

  /** One edit. A move exchanges x and y; up tells that it was x that was moved, past y. */
  datatype Step =
    | Add(a: seq<Line>, seg: seq<Line>, c: seq<Line>)
    | Del(a: seq<Line>, seg: seq<Line>, c: seq<Line>)
    | Move(a: seq<Line>, x: seq<Line>, y: seq<Line>, d: seq<Line>, up: bool)
  {
    ghost function Old(): seq<Line> {
      match this
      case Add(a, _, c) => a + c
      case Del(a, seg, c) => a + seg + c
      case Move(a, x, y, d, _) => a + x + y + d
    }

    ghost function New(): seq<Line> {
      match this
      case Add(a, seg, c) => a + seg + c
      case Del(a, _, c) => a + c
      case Move(a, x, y, d, _) => a + y + x + d
    }

    ghost function Inverse(): Step {
      match this
      case Add(a, seg, c) => Del(a, seg, c)
      case Del(a, seg, c) => Add(a, seg, c)
      case Move(a, x, y, d, up) => Move(a, y, x, d, !up)
    }

    /** The nodes that the edit leaves detached from the buffer. */
    ghost function Gone(): seq<Line> {
      if Del? then seg else []
    }

    /** The nodes that the edit brings into the buffer. */
    ghost function Fresh(): seq<Line> {
      if Add? then seg else []
    }

    ghost predicate WellFormed() {
      && a != []
      && (if Move? then x != [] && y != [] else seg != [])
      && Distinct(Old()) && Distinct(New())
    }

    /** Stack entries that record the edit. */
    ghost predicate RecordedBy(u: seq<Atom>) {
      WellFormed() &&
      match this
      case Add(_, seg, _) => u == [Atom(UADD, seg[0], Last(seg))]
      case Del(_, seg, _) => u == [Atom(UDEL, seg[0], Last(seg))]
      case Move(a, x, y, d, up) =>
        && |u| == 2 && u[0].kind in {UMOV, VMOV} && u[1].kind in {UMOV, VMOV}
        && Gaps(up, u[0].head, u[0].tail, u[1].head, u[1].tail, a, x, y, d)
    }

    /** The detached nodes still point at the neighbours they had. */
    ghost predicate Remembered(m: LineMemory) {
      WellFormed() && Del? ==> Dangling(m, Last(a), seg, Head(c, a))
    }

    ghost function Width(): nat {
      if Move? then 2 else 1
    }
  }

  function Front<T>(s: seq<T>): seq<T>
    requires s != []
  {
    s[..|s| - 1]
  }

  function Top<T>(s: seq<T>): T
    requires s != []
  {
    s[|s| - 1]
  }

  /** The recorded edits form a chain that ends at s. Nodes that an edit detached are in no later
      state, nodes that an edit brought in are in no earlier one. */
  ghost predicate Chain(steps: seq<Step>, s: seq<Line>) {
    && (forall k :: 0 <= k < |steps| ==> steps[k].WellFormed())
    && (steps != [] ==> Top(steps).New() == s)
    && (forall k :: 0 < k < |steps| ==> steps[k - 1].New() == steps[k].Old())
    && (forall k, j :: 0 <= k < j < |steps| ==> Elems(steps[k].Gone()) !! Elems(steps[j].New()))
    && (forall k, j :: 0 <= j < k < |steps| ==> Elems(steps[k].Fresh()) !! Elems(steps[j].Old()))
  }

  /** Nodes detached by the edits of steps are in no state that the edits of other pass through. */
  ghost predicate Apart(steps: seq<Step>, other: seq<Step>) {
    forall k, j :: 0 <= k < |steps| && 0 <= j < |other| ==> Elems(steps[k].Gone()) !! Elems(other[j].Old())
  }

  /** The state in which the chain began. */
  ghost function Origin(steps: seq<Step>, s: seq<Line>): seq<Line> {
    if steps == [] then s else steps[0].Old()
  }

  /** The stack holds the entries of the edits in order. */
  ghost predicate Recorded(steps: seq<Step>, u: seq<Atom>) {
    if steps == [] then u == [] else
      var w := Top(steps).Width();
      w <= |u| && Top(steps).RecordedBy(u[|u| - w..]) && Recorded(Front(steps), u[..|u| - w])
  }

  /** All nodes detached by the edits. */
  ghost function GoneNodes(steps: seq<Step>): set<Line> {
    if steps == [] then {} else GoneNodes(Front(steps)) + Elems(Top(steps).Gone())
  }

  ghost predicate AllRemembered(m: LineMemory, steps: seq<Step>) {
    steps != [] ==> Top(steps).Remembered(m) && AllRemembered(m, Front(steps))
  }

  /** The nodes that the edits leading to s speak of: those of s and the detached ones. */
  ghost function Known(steps: seq<Step>, s: seq<Line>): set<Line> {
    Elems(s) + GoneNodes(steps)
  }

  /** The undo stack u tells how the buffer came to be s. */
  ghost predicate Log(steps: seq<Step>, u: seq<Atom>, s: seq<Line>) {
    && Chain(steps, s) && Recorded(steps, u) && GoneNodes(steps) !! Elems(s)
    && (forall k :: 0 <= k < |steps| ==> Elems(steps[k].Old()) <= Known(steps, s))
  }

  lemma InverseFacts(st: Step)
    requires st.WellFormed()
    ensures st.Inverse().WellFormed() && st.Inverse().Inverse() == st
    ensures st.Inverse().Old() == st.New() && st.Inverse().New() == st.Old()
    ensures st.Inverse().Gone() == st.Fresh() && st.Inverse().Fresh() == st.Gone()
    ensures Elems(st.Gone()) !! Elems(st.New()) && Elems(st.Fresh()) !! Elems(st.Old())
  {
    if !st.Move? {
      DistinctSum(st.a + st.seg, st.c);
      DistinctSum(st.a, st.seg);
      ElemsOfThree(st.a, st.seg, st.c);
      ElemsOfSum(st.a, st.seg);
    }
  }

  lemma GoneIsGone(steps: seq<Step>, k: nat)
    requires k < |steps|
    ensures Elems(steps[k].Gone()) <= GoneNodes(steps)
  {
    if k < |steps| - 1 {
      assert steps[k] == Front(steps)[k];
      GoneIsGone(Front(steps), k);
    }
  }

  lemma PushGone(steps: seq<Step>, st: Step)
    ensures GoneNodes(steps + [st]) == GoneNodes(steps) + Elems(st.Gone())
  {
    assert Front(steps + [st]) == steps;
  }

  lemma PushRemembered(m: LineMemory, steps: seq<Step>, st: Step)
    requires AllRemembered(m, steps) && st.Remembered(m)
    ensures AllRemembered(m, steps + [st])
  {
    assert Front(steps + [st]) == steps;
  }

  /** Detached nodes are not affected by links between other nodes. */
  lemma RememberedFrame(m: LineMemory, prev: Line, next: Line, steps: seq<Step>)
    requires AllRemembered(m, steps) && prev in m && next in m
    requires prev !in GoneNodes(steps) && next !in GoneNodes(steps)
    ensures AllRemembered(Link(m, prev, next), steps)
  {
    if steps != [] {
      RememberedFrame(m, prev, next, Front(steps));
      if Top(steps).Del? {
        LinkOther(m, prev, next, Top(steps).seg);
      }
    }
  }

  /** Detached nodes are not affected by what is stored in other nodes. */
  lemma RememberedElsewhere(m: LineMemory, m': LineMemory, steps: seq<Step>)
    requires AllRemembered(m, steps)
    requires forall x :: x in GoneNodes(steps) && x in m ==> x in m' && m'[x] == m[x]
    ensures AllRemembered(m', steps)
  {
    if steps != [] {
      RememberedElsewhere(m, m', Front(steps));
      assert forall i :: 0 <= i < |Top(steps).Gone()| ==> Top(steps).Gone()[i] in Elems(Top(steps).Gone());
    }
  }

  lemma PushRecorded(steps: seq<Step>, u: seq<Atom>, st: Step, v: seq<Atom>)
    requires Recorded(steps, u) && st.RecordedBy(v)
    ensures Recorded(steps + [st], u + v)
  {
    assert Front(steps + [st]) == steps && Top(steps + [st]) == st;
    var w := u + v;
    assert w[|w| - |v|..] == v && w[..|w| - |v|] == u;
  }

  lemma PopChain(past: seq<Step>, s: seq<Line>)
    requires past != [] && Chain(past, s)
    ensures Chain(Front(past), Top(past).Old())
  {
    var p := Front(past);
    assert forall k :: 0 <= k < |p| ==> p[k] == past[k];
  }

  lemma PushChain(steps: seq<Step>, s: seq<Line>, st: Step)
    requires Chain(steps, s) && st.WellFormed() && st.Old() == s
    requires forall k :: 0 <= k < |steps| ==> Elems(steps[k].Gone()) !! Elems(st.New())
    requires forall k :: 0 <= k < |steps| ==> Elems(st.Fresh()) !! Elems(steps[k].Old())
    ensures Chain(steps + [st], st.New())
  {
    hide Elems, Distinct, Step.New, Step.Old, Step.Gone, Step.Fresh, Step.WellFormed;
    var t := steps + [st];
    forall k | 0 < k < |t| ensures t[k - 1].New() == t[k].Old() {
      assert t[k - 1] == steps[k - 1];
      if k < |steps| { assert t[k] == steps[k]; }
    }
    forall k, j | 0 <= k < j < |t| ensures Elems(t[k].Gone()) !! Elems(t[j].New()) {
      assert t[k] == steps[k];
      if j < |steps| { assert t[j] == steps[j]; }
    }
    forall k, j | 0 <= j < k < |t| ensures Elems(t[k].Fresh()) !! Elems(t[j].Old()) {
      assert t[j] == steps[j];
      if k < |steps| { assert t[k] == steps[k]; }
    }
  }

  /** Recording one more edit. */
  lemma LogPush(steps: seq<Step>, u: seq<Atom>, s: seq<Line>, st: Step, v: seq<Atom>)
    requires Log(steps, u, s)
    requires st.WellFormed() && st.Old() == s && st.RecordedBy(v)
    requires Elems(st.New()) + Elems(st.Gone()) == Elems(s) + Elems(st.Fresh())
    requires Elems(st.Fresh()) !! Known(steps, s) && Elems(st.New()) !! Elems(st.Gone())
    ensures Log(steps + [st], u + v, st.New())
    ensures Origin(steps + [st], st.New()) == Origin(steps, s)
    ensures GoneNodes(steps + [st]) == GoneNodes(steps) + Elems(st.Gone())
  {
    hide Elems, Distinct, Step.WellFormed, Recorded, Step.RecordedBy;
    forall k | 0 <= k < |steps|
      ensures Elems(steps[k].Gone()) !! Elems(st.New()) && Elems(st.Fresh()) !! Elems(steps[k].Old())
    {
      GoneIsGone(steps, k);
    }
    PushChain(steps, s, st);
    PushRecorded(steps, u, st, v);
    PushGone(steps, st);
  }

  /** An insertion may grow while it is the last edit recorded. */
  lemma LogExtend(steps: seq<Step>, u: seq<Atom>, s: seq<Line>, lp: Line)
    requires Log(steps, u, s) && steps != [] && Top(steps).Add? && lp !in Known(steps, s)
    ensures u != [] && Top(steps).New() == s
    ensures var st := Top(steps); var st' := Add(st.a, st.seg + [lp], st.c);
      && st'.WellFormed() && Log(Front(steps) + [st'], u[|u| - 1 := Top(u).(tail := lp)], st'.New())
      && Origin(Front(steps) + [st'], st'.New()) == Origin(steps, s)
      && GoneNodes(Front(steps) + [st']) == GoneNodes(steps)
  {
    hide Elems, Distinct, Chain, Recorded, GoneNodes;
    var st, front := Top(steps), Front(steps);
    var st' := Add(st.a, st.seg + [lp], st.c);
    assert steps == front + [st];
    LogPop(steps, u, s);
    ElemsOfFew(lp);
    ElemsOfThree(st.a, st'.seg, st.c);
    ElemsOfSum(st.seg, [lp]);
    GrowDistinct(st, lp);
    InsertDistinct(st.a, st'.seg, st.c, Elems(st.Old()));
    PushGone(front, st);
    PushGone(front, st');
    LogPush(front, Front(u), st.Old(), st', [Top(u).(tail := lp)]);
    assert Front(u) + [Top(u).(tail := lp)] == u[|u| - 1 := Top(u).(tail := lp)];
  }

  lemma InsertDistinct(a: seq<Line>, seg: seq<Line>, c: seq<Line>, live: set<Line>)
    requires Distinct(a + c) && Distinct(seg) && Elems(a + c) <= live && Elems(seg) !! live
    ensures Distinct(a + seg + c)
  {
    hide Distinct, Elems;
    ElemsOfThree(a, seg, c);
    ElemsOfSum(a, seg);
    DistinctSum(a, c);
    DistinctSum(a, seg);
    DistinctSum(a + seg, c);
  }

  lemma GrowDistinct(st: Step, lp: Line)
    requires st.Add? && st.WellFormed() && lp !in Elems(st.seg)
    ensures Distinct(st.seg + [lp])
  {
    DistinctSum(st.a + st.seg, st.c);
    DistinctSum(st.a, st.seg);
    DistinctSum(st.seg, [lp]);
  }

  lemma LogPop(steps: seq<Step>, u: seq<Atom>, s: seq<Line>)
    requires Log(steps, u, s) && steps != [] && Top(steps).Add?
    ensures u != [] && Top(u) == Atom(UADD, Top(steps).seg[0], Last(Top(steps).seg))
    ensures Log(Front(steps), Front(u), Top(steps).Old()) && GoneNodes(Front(steps)) == GoneNodes(steps)
    ensures Top(steps).WellFormed() && Top(steps).New() == s && Elems(Top(steps).seg) <= Elems(s)
    ensures Elems(Top(steps).Old()) == Elems(s) - Elems(Top(steps).seg)
  {
    var st, front := Top(steps), Front(steps);
    PopChain(steps, s);
    ElemsOfThree(st.a, st.seg, st.c);
    InverseFacts(st);
    forall k | 0 <= k < |front| ensures Elems(front[k].Old()) <= Known(steps, s) - Elems(st.seg) {
      assert front[k] == steps[k];
      assert Elems(steps[|steps| - 1].Fresh()) !! Elems(steps[k].Old());
    }
  }

  /** One edit undone: it leaves the past and, inverted, becomes the newest edit of the future. */
  lemma UndoneChain(past: seq<Step>, future: seq<Step>, s: seq<Line>)
    requires past != [] && Chain(past, s) && Chain(future, s) && Apart(past, future) && Apart(future, past)
    ensures Top(past).Inverse().WellFormed() && Top(past).New() == s
    ensures Chain(Front(past), Top(past).Old()) && Chain(future + [Top(past).Inverse()], Top(past).Old())
  {
    var st := Top(past);
    InverseFacts(st);
    PopChain(past, s);
    assert st == past[|past| - 1];
    forall k | 0 <= k < |future|
      ensures Elems(future[k].Gone()) !! Elems(st.Inverse().New())
      ensures Elems(st.Inverse().Fresh()) !! Elems(future[k].Old())
    {
      assert Elems(past[|past| - 1].Gone()) !! Elems(future[k].Old());
      assert Elems(future[k].Gone()) !! Elems(past[|past| - 1].Old());
    }
    PushChain(future, s, st.Inverse());
  }

  lemma UndoneApart(past: seq<Step>, future: seq<Step>, s: seq<Line>)
    requires past != [] && Chain(past, s) && Chain(future, s) && Apart(past, future) && Apart(future, past)
    ensures var f := future + [Top(past).Inverse()]; Apart(Front(past), f) && Apart(f, Front(past))
  {
    var st, p, f := Top(past), Front(past), future + [Top(past).Inverse()];
    var n := |past| - 1;
    assert st == past[n];
    InverseFacts(st);
    forall k, j | 0 <= k < |p| && 0 <= j < |f| ensures Elems(p[k].Gone()) !! Elems(f[j].Old()) {
      assert p[k] == past[k];
      if j == |future| {
        assert f[j].Old() == past[n].New();
      }
    }
    forall k, j | 0 <= k < |f| && 0 <= j < |p| ensures Elems(f[k].Gone()) !! Elems(p[j].Old()) {
      assert p[j] == past[j];
      if k == |future| {
        assert f[k].Gone() == past[n].Fresh();
      }
    }
  }

  /** Half-way through undoing: past leads to s, and future is how to get back from s to where
      undoing began. The stacks u and v record the two. */
  ghost predicate Zipper(s: seq<Line>, past: seq<Step>, future: seq<Step>, u: seq<Atom>, v: seq<Atom>) {
    && Chain(past, s) && Chain(future, s) && Apart(past, future) && Apart(future, past)
    && Recorded(past, u) && Recorded(future, v)
    && Elems(s) !! GoneNodes(past) !! GoneNodes(future)
    && (forall k :: 0 <= k < |past| ==> Elems(past[k].Old()) <= Known(past, s) + GoneNodes(future))
    && (forall k :: 0 <= k < |future| ==> Elems(future[k].Old()) <= Known(past, s) + GoneNodes(future))
  }

  /** The nodes a step exchanges between the buffer and the detached ones. */
  lemma StepNodes(st: Step)
    requires st.WellFormed()
    ensures Elems(st.New()) + Elems(st.Gone()) == Elems(st.Old()) + Elems(st.Fresh())
    ensures Elems(st.New()) !! Elems(st.Gone()) && Elems(st.Old()) !! Elems(st.Fresh())
    ensures Elems(st.Fresh()) <= Elems(st.New()) && Elems(st.Gone()) <= Elems(st.Old())
  {
    hide Distinct, Elems;
    InverseFacts(st);
    if st.Move? {
      ElemsOfThree(st.a, st.x, st.y);
      ElemsOfThree(st.a, st.y, st.x);
      ElemsOfSum(st.a + st.x + st.y, st.d);
      ElemsOfSum(st.a + st.y + st.x, st.d);
    } else {
      ElemsOfThree(st.a, st.seg, st.c);
    }
    ElemsOfFew(0);
  }

  lemma TopGone(steps: seq<Step>)
    requires steps != []
    ensures GoneNodes(steps) == GoneNodes(Front(steps)) + Elems(Top(steps).Gone())
  {
  }

  lemma ZipperStep(s: seq<Line>, past: seq<Step>, future: seq<Step>, u: seq<Atom>, v: seq<Atom>, w: seq<Atom>)
    requires past != [] && Zipper(s, past, future, u, v)
    requires Top(past).Inverse().RecordedBy(w)
    ensures Top(past).WellFormed() && Top(past).New() == s && Top(past).Width() <= |u|
    ensures Top(past).RecordedBy(u[|u| - Top(past).Width()..])
    ensures var st := Top(past);
      && Zipper(st.Old(), Front(past), future + [st.Inverse()], u[..|u| - st.Width()], v + w)
      && GoneNodes(Front(past)) + Elems(st.Gone()) == GoneNodes(past)
      && GoneNodes(future + [st.Inverse()]) == GoneNodes(future) + Elems(st.Fresh())
  {
    var st := Top(past);
    ZipperSets(s, past, future);
    UndoneChain(past, future, s);
    UndoneApart(past, future, s);
    PushRecorded(future, v, st.Inverse(), w);
    ZipperKnown(s, past, future, u, v);
  }

  lemma ZipperSets(s: seq<Line>, past: seq<Step>, future: seq<Step>)
    requires past != [] && Chain(past, s) && Apart(past, future) && Elems(s) !! GoneNodes(past) !! GoneNodes(future)
    ensures var st := Top(past); var future' := future + [st.Inverse()];
      && st.WellFormed() && st.New() == s
      && GoneNodes(past) == GoneNodes(Front(past)) + Elems(st.Gone())
      && GoneNodes(future') == GoneNodes(future) + Elems(st.Fresh())
      && Elems(st.Old()) !! GoneNodes(Front(past)) !! GoneNodes(future')
      && Known(Front(past), st.Old()) + GoneNodes(future') == Known(past, s) + GoneNodes(future)
  {
    hide Elems, Distinct;
    var st := Top(past);
    TopGone(past);
    PushGone(future, st.Inverse());
    InverseFacts(st);
    StepNodes(st);
    TopGoneApart(past, s);
  }

  lemma GoneApartFrom(steps: seq<Step>, nodes: set<Line>)
    requires forall k :: 0 <= k < |steps| ==> Elems(steps[k].Gone()) !! nodes
    ensures GoneNodes(steps) !! nodes
  {
    if steps != [] {
      assert forall k :: 0 <= k < |steps| - 1 ==> Front(steps)[k] == steps[k];
      GoneApartFrom(Front(steps), nodes);
    }
  }

  /** What was detached before an edit is not in the state that the edit changed. */
  lemma TopGoneApart(steps: seq<Step>, s: seq<Line>)
    requires steps != [] && Chain(steps, s)
    ensures GoneNodes(Front(steps)) !! Elems(Top(steps).Old())
  {
    hide Elems, Distinct;
    var n := |steps| - 1;
    forall k | 0 <= k < n ensures Elems(Front(steps)[k].Gone()) !! Elems(Top(steps).Old()) {
      assert Front(steps)[k] == steps[k];
      assert steps[n - 1].New() == steps[n].Old();
      if k == n - 1 { InverseFacts(steps[k]); }
    }
    GoneApartFrom(Front(steps), Elems(Top(steps).Old()));
  }

  lemma ZipperKnown(s: seq<Line>, past: seq<Step>, future: seq<Step>, u: seq<Atom>, v: seq<Atom>)
    requires past != [] && Zipper(s, past, future, u, v)
    ensures var st := Top(past); var p, f := Front(past), future + [st.Inverse()];
      && (forall k :: 0 <= k < |p| ==> Elems(p[k].Old()) <= Known(p, st.Old()) + GoneNodes(f))
      && (forall k :: 0 <= k < |f| ==> Elems(f[k].Old()) <= Known(p, st.Old()) + GoneNodes(f))
  {
    hide Elems, Distinct, Recorded, GoneNodes;
    ZipperSets(s, past, future);
    var st := Top(past);
    InverseFacts(st);
    var p, f := Front(past), future + [st.Inverse()];
    forall k | 0 <= k < |p| ensures Elems(p[k].Old()) <= Known(p, st.Old()) + GoneNodes(f) {
      assert p[k] == past[k];
    }
    forall k | 0 <= k < |f| ensures Elems(f[k].Old()) <= Known(p, st.Old()) + GoneNodes(f) {
      if k < |future| { assert f[k] == future[k]; }
    }
  }
}
