/** The state of the line editor as a whole, and what every edit makes of it. */
module EdState {
  import opened Sequences
  import opened Rings
  import opened UndoHistory

  /** All links are in place: those of the two circles and those that detached nodes remember. */
  ghost predicate Web(m: LineMemory, ring: seq<Line>, yank: seq<Line>, steps: seq<Step>) {
    && Circular(m, ring) && Circular(m, yank) && AllRemembered(m, steps)
    && Elems(ring) !! Elems(yank) !! GoneNodes(steps)
  }

  /** The nodes in use are those of the buffer, of the yank buffer, and those detached by a recorded edit. */
  ghost function Used(ring: seq<Line>, yank: seq<Line>, steps: seq<Step>): set<Line> {
    Elems(ring) + Elems(yank) + GoneNodes(steps)
  }

  function Text(m: LineMemory, file: string, x: Line): string {
    if x in m && m[x].data.pos + m[x].data.len <= |file| then file[m[x].data.pos..m[x].data.pos + m[x].data.len] else []
  }

  function Texts(m: LineMemory, file: string, s: seq<Line>): (r: seq<string>)
    ensures |r| == |s|
  {
    seq(|s|, i requires 0 <= i < |s| => Text(m, file, s[i]))
  }

  /** Every line has its text in the scratch file. */
  ghost predicate Stored(m: LineMemory, file: string) {
    forall x :: x in m ==> m[x].data.pos + m[x].data.len <= |file| && '\n' !in Text(m, file, x)
  }

  /** The state of the editor: every allocated node but those in spare is in use, and the undo
      stack u leads back to origin. */
  ghost predicate State(m: LineMemory, ring: seq<Line>, yank: seq<Line>, steps: seq<Step>, u: seq<Atom>,
                        origin: seq<Line>, file: string, spare: set<Line>) {
    && Web(m, ring, yank, steps) && Stored(m, file)
    && spare <= m.Keys && Used(ring, yank, steps) == m.Keys - spare
    && Log(steps, u, ring) && Origin(steps, ring) == origin
  }

  /** The edit that puts lp after element k of s. */
  ghost function InsertionAt(s: seq<Line>, k: nat, lp: Line): Step
    requires k < |s|
  {
    Add(s[..k + 1], [lp], s[k + 1..])
  }

  /** The edit st with lp as one more line at the end of what it inserts. */
  ghost function Longer(st: Step, lp: Line): Step
    requires st.Add?
  {
    Add(st.a, st.seg + [lp], st.c)
  }

  /** A node outside of everything is linked into the buffer. */
  lemma WebInsert(m: LineMemory, ring: seq<Line>, yank: seq<Line>, steps: seq<Step>, k: nat, lp: Line)
    requires Web(m, ring, yank, steps) && k < |ring|
    requires lp in m && lp !in Used(ring, yank, steps)
    ensures ring[k] in m && m[ring[k]].forw in m
    ensures Web(Insert(m, lp, ring[k]), Inserted(ring, k, lp), yank, steps)
    ensures Elems(Inserted(ring, k, lp)) == Elems(ring) + {lp}
  {
    hide Circular, AllRemembered, GoneNodes, Elems;
    InsertedCircle(m, ring, k, lp);
    var next := m[ring[k]].forw;
    var m1 := Link(m, lp, next);
    LinkOther(m, lp, next, yank);
    LinkOther(m1, ring[k], lp, yank);
    RememberedFrame(m, lp, next, steps);
    RememberedFrame(m1, ring[k], lp, steps);
  }

  lemma InsertKeepsText(m: LineMemory, lp: Line, prev: Line)
    requires lp in m && prev in m && m[prev].forw in m
    ensures SameData(m, Insert(m, lp, prev))
  {
  }

  lemma TextsFrame(m: LineMemory, m': LineMemory, file: string, file': string, s: seq<Line>)
    requires Stored(m, file) && file <= file'
    requires forall x :: x in s ==> x in m && x in m' && m'[x].data == m[x].data
    ensures Texts(m', file', s) == Texts(m, file, s)
  {
    forall i | 0 <= i < |s| ensures Text(m', file', s[i]) == Text(m, file, s[i]) {
      assert s[i] in s;
    }
  }

  /** Putting a line into the buffer puts its text into the text. */
  lemma TextsInserted(m: LineMemory, file: string, ring: seq<Line>, k: nat, lp: Line)
    requires k < |ring|
    ensures var t := Texts(m, file, ring[1..]);
      Texts(m, file, Inserted(ring, k, lp)[1..]) == Spliced(t, k, Text(m, file, lp))
  {
    assert Inserted(ring, k, lp)[1..] == ring[1..][..k] + [lp] + ring[1..][k..];
  }

  lemma InsertedTexts(m: LineMemory, ring: seq<Line>, file: string, k: nat, lp: Line)
    requires Stored(m, file) && Circular(m, ring) && k < |ring| && lp in m && ring[k] in m && m[ring[k]].forw in m
    ensures |Texts(m, file, ring[1..])| == |ring| - 1
    ensures var t := Texts(m, file, ring[1..]);
      Texts(Insert(m, lp, ring[k]), file, Inserted(ring, k, lp)[1..]) == Spliced(t, k, Text(m, file, lp))
  {
    hide Insert, Spliced, Text, Stored;
    TextsInserted(m, file, ring, k, lp);
    InsertKeepsText(m, lp, ring[k]);
    assert forall x :: x in ring ==> x in Elems(ring);
    TextsFrame(m, Insert(m, lp, ring[k]), file, file, Inserted(ring, k, lp)[1..]);
  }

  /** The nodes of the state that undoing leads back to are all in use, and so keep their text. */
  lemma OriginTexts(m: LineMemory, m': LineMemory, ring: seq<Line>, yank: seq<Line>, steps: seq<Step>, u: seq<Atom>,
                    origin: seq<Line>, file: string, file': string, spare: set<Line>)
    requires State(m, ring, yank, steps, u, origin, file, spare) && file <= file'
    requires forall x :: x in Known(steps, ring) && x in m ==> x in m' && m'[x].data == m[x].data
    ensures origin != [] && Elems(origin) <= m.Keys && Texts(m', file', origin[1..]) == Texts(m, file, origin[1..])
  {
    hide Texts, Text, GoneNodes, Recorded, AllRemembered, Distinct, Linked, Joined, Stored;
    if steps != [] {
      assert steps[0].WellFormed();
      assert Elems(steps[0].Old()) <= Known(steps, ring);
    }
    forall x | x in origin[1..] ensures x in Known(steps, ring) && x in m {
      assert x in Elems(origin);
    }
    TextsFrame(m, m', file, file', origin[1..]);
  }

  /** A new node is allocated. */
  lemma Allocated(m: LineMemory, ring: seq<Line>, yank: seq<Line>, steps: seq<Step>, u: seq<Atom>,
                  origin: seq<Line>, file: string, lp: Line, node: Node<Span>)
    requires State(m, ring, yank, steps, u, origin, file, {}) && lp !in m
    requires node.data.pos + node.data.len <= |file| && '\n' !in file[node.data.pos..node.data.pos + node.data.len]
    ensures State(m[lp := node], ring, yank, steps, u, origin, file, {lp})
    ensures origin != [] && Texts(m[lp := node], file, origin[1..]) == Texts(m, file, origin[1..])
    ensures Texts(m[lp := node], file, ring[1..]) == Texts(m, file, ring[1..])
    ensures Texts(m[lp := node], file, yank[1..]) == Texts(m, file, yank[1..])
  {
    hide Log, GoneNodes, AllRemembered, Elems, Circular, Stored, Text, Texts;
    var m' := m[lp := node];
    RememberedElsewhere(m, m', steps);
    CircularElsewhere(m, m', ring);
    CircularElsewhere(m, m', yank);
    assert m'.Keys - {lp} == m.Keys - {};
    StoredMore(m, file, lp, node);
    OriginTexts(m, m', ring, yank, steps, u, origin, file, file, {});
    TextsElsewhere(m, m', file, ring);
    TextsElsewhere(m, m', file, yank);
  }

  lemma StoredMore(m: LineMemory, file: string, lp: Line, node: Node<Span>)
    requires Stored(m, file) && node.data.pos + node.data.len <= |file|
    requires '\n' !in file[node.data.pos..node.data.pos + node.data.len]
    ensures Stored(m[lp := node], file)
  {
    var m' := m[lp := node];
    forall x | x in m' ensures '\n' !in Text(m', file, x) {
      if x != lp { assert Text(m', file, x) == Text(m, file, x); }
    }
  }

  lemma TextsElsewhere(m: LineMemory, m': LineMemory, file: string, s: seq<Line>)
    requires Circular(m, s) && Stored(m, file)
    requires forall x :: x in Elems(s) ==> x in m' && m'[x] == m[x]
    ensures Texts(m', file, s[1..]) == Texts(m, file, s[1..])
  {
    assert forall x :: x in s ==> x in Elems(s);
    TextsFrame(m, m', file, file, s[1..]);
  }

  lemma CircularElsewhere(m: LineMemory, m': LineMemory, s: seq<Line>)
    requires Circular(m, s)
    requires forall x :: x in Elems(s) ==> x in m' && m'[x] == m[x]
    ensures Circular(m', s)
  {
    assert forall i :: 0 <= i < |s| ==> s[i] in Elems(s);
  }

  lemma StoredFrame(m: LineMemory, m': LineMemory, file: string)
    requires Stored(m, file) && SameData(m, m')
    ensures Stored(m', file)
  {
  }

  lemma RecordAdd(steps: seq<Step>, u: seq<Atom>, ring: seq<Line>, st: Step, lp: Line)
    requires Log(steps, u, ring) && st.Add? && st.seg == [lp] && st.a + st.c == ring && st.a != []
    requires Distinct(ring) && Distinct(st.New()) && lp !in Known(steps, ring) && Elems(st.New()) == Elems(ring) + {lp}
    ensures Log(steps + [st], u + [Atom(UADD, lp, lp)], st.New())
    ensures Origin(steps + [st], st.New()) == Origin(steps, ring) && GoneNodes(steps + [st]) == GoneNodes(steps)
  {
    hide Elems, Chain, Recorded, GoneNodes, Distinct;
    ElemsOfFew(lp);
    LogPush(steps, u, ring, st, [Atom(UADD, lp, lp)]);
  }

  /** The text to return to stays when a node is inserted. */
  lemma FirstTexts(m: LineMemory, ring: seq<Line>, yank: seq<Line>, steps: seq<Step>, u: seq<Atom>,
                   origin: seq<Line>, file: string, k: nat, lp: Line)
    requires State(m, ring, yank, steps, u, origin, file, {lp}) && k < |ring|
    ensures ring[k] in m && m[ring[k]].forw in m && lp in m
    ensures origin != [] && Texts(Insert(m, lp, ring[k]), file, origin[1..]) == Texts(m, file, origin[1..])
  {
    FirstPlaces(m, ring, yank, steps, u, origin, file, k, lp);
    hide State;
    OriginTexts(m, Insert(m, lp, ring[k]), ring, yank, steps, u, origin, file, file, {lp});
  }

  lemma FirstPlaces(m: LineMemory, ring: seq<Line>, yank: seq<Line>, steps: seq<Step>, u: seq<Atom>,
                    origin: seq<Line>, file: string, k: nat, lp: Line)
    requires State(m, ring, yank, steps, u, origin, file, {lp}) && k < |ring|
    ensures ring[k] in m && m[ring[k]].forw in m && lp in m && SameData(m, Insert(m, lp, ring[k]))
  {
    hide Elems, Chain, Recorded, GoneNodes, Distinct, AllRemembered, Stored;
    WebInsert(m, ring, yank, steps, k, lp);
  }

  /** A single line is inserted and recorded as an edit of its own. */
  lemma FirstAdded(m: LineMemory, ring: seq<Line>, yank: seq<Line>, steps: seq<Step>, u: seq<Atom>,
                   origin: seq<Line>, file: string, k: nat, lp: Line)
    requires State(m, ring, yank, steps, u, origin, file, {lp}) && k < |ring|
    ensures ring[k] in m && m[ring[k]].forw in m && lp in m && Circular(m, ring)
    ensures Circular(Insert(m, lp, ring[k]), Inserted(ring, k, lp))
    ensures var st := InsertionAt(ring, k, lp); var ring' := Inserted(ring, k, lp);
      State(Insert(m, lp, ring[k]), ring', yank, steps + [st], u + [Atom(UADD, lp, lp)], origin, file, {})
  {
    hide Elems, Chain, Recorded, GoneNodes, Distinct, AllRemembered, Linked, Stored;
    var a, c, st := ring[..k + 1], ring[k + 1..], InsertionAt(ring, k, lp);
    assert ring == a + c;
    ElemsOfFew(lp);
    InsertDistinct(a, [lp], c, Elems(ring));
    ElemsOfThree(a, [lp], c);
    WebInsert(m, ring, yank, steps, k, lp);
    var m' := Insert(m, lp, ring[k]);
    RecordAdd(steps, u, ring, st, lp);
    PushRemembered(m', steps, st);
    StoredFrame(m, m', file);
    assert m.Keys - {lp} + {lp} == m'.Keys - {};
  }

  /** One more line is added to the insertion recorded last. */
  lemma NextAdded(m: LineMemory, ring: seq<Line>, yank: seq<Line>, steps: seq<Step>, u: seq<Atom>,
                   origin: seq<Line>, file: string, k: nat, lp: Line)
    requires State(m, ring, yank, steps, u, origin, file, {lp}) && k < |ring|
    requires steps != [] && Top(steps).Add? && |Top(steps).a + Top(steps).seg| == k + 1
    ensures ring[k] in m && m[ring[k]].forw in m && lp in m && Circular(m, ring) && u != []
    ensures var st := Longer(Top(steps), lp); var ring' := Inserted(ring, k, lp); var steps' := Front(steps) + [st];
      State(Insert(m, lp, ring[k]), ring', yank, steps', u[|u| - 1 := Top(u).(tail := lp)], origin, file, {})
    ensures origin != [] && Texts(Insert(m, lp, ring[k]), file, origin[1..]) == Texts(m, file, origin[1..])
  {
    hide Elems, Chain, Recorded, GoneNodes, Distinct, AllRemembered, Linked, Stored, Circular, Origin, Step.WellFormed;
    LogExtend(steps, u, ring, lp);
    var st := Top(steps);
    assert st.a + st.seg == ring[..k + 1];
    assert st.c == ring[k + 1..];
    assert st.a + (st.seg + [lp]) + st.c == Inserted(ring, k, lp);
    WebInsert(m, ring, yank, steps, k, lp);
    var m' := Insert(m, lp, ring[k]);
    ReplaceRemembered(m', steps, Longer(st, lp));
    OriginTexts(m, m', ring, yank, steps, u, origin, file, file, {lp});
    StoredFrame(m, m', file);
    assert m.Keys - {lp} + {lp} == m'.Keys - {};
  }

  lemma ReplaceRemembered(m: LineMemory, steps: seq<Step>, st: Step)
    requires steps != [] && AllRemembered(m, steps) && st.Add?
    ensures AllRemembered(m, Front(steps) + [st])
  {
    PushRemembered(m, Front(steps), st);
  }

  /** The node lp can be linked in after element k of the buffer. */
  ghost predicate Insertable(m: LineMemory, ring: seq<Line>, k: int, lp: Line) {
    Circular(m, ring) && 0 <= k < |ring| && lp in m && ring[k] in m && m[ring[k]].forw in m
  }

  lemma SpareInsertable(m: LineMemory, ring: seq<Line>, yank: seq<Line>, steps: seq<Step>, u: seq<Atom>,
                        origin: seq<Line>, file: string, k: nat, lp: Line)
    requires State(m, ring, yank, steps, u, origin, file, {lp}) && k < |ring|
    ensures Insertable(m, ring, k, lp)
  {
    hide Chain, Recorded, GoneNodes, AllRemembered, Stored;
    WebInsert(m, ring, yank, steps, k, lp);
  }

  /** Linking a line into the buffer does not touch the yanked lines. */
  lemma InsertKeepsYank(m: LineMemory, ring: seq<Line>, yank: seq<Line>, steps: seq<Step>, u: seq<Atom>,
                        origin: seq<Line>, file: string, k: nat, lp: Line)
    requires State(m, ring, yank, steps, u, origin, file, {lp}) && Insertable(m, ring, k, lp)
    ensures yank != [] && Texts(Insert(m, lp, ring[k]), file, yank[1..]) == Texts(m, file, yank[1..])
  {
    hide Texts, Log, Elems, Circular, Insert;
    InsertKeepsText(m, lp, ring[k]);
    CircularFacts(m, yank);
    TextsOfRing(m, Insert(m, lp, ring[k]), file, yank);
  }

  /** What the texts are after a node is inserted. */
  lemma AddedTexts(m: LineMemory, ring: seq<Line>, yank: seq<Line>, steps: seq<Step>, u: seq<Atom>,
                   origin: seq<Line>, file: string, k: nat, lp: Line)
    requires State(m, ring, yank, steps, u, origin, file, {lp}) && k < |ring|
    ensures Insertable(m, ring, k, lp) && yank != [] && k < |Texts(m, file, ring[1..])| + 1
    ensures var m' := Insert(m, lp, ring[k]); var t := Texts(m, file, ring[1..]);
      && SameData(m, m') && Texts(m', file, Inserted(ring, k, lp)[1..]) == Spliced(t, k, Text(m, file, lp))
      && Texts(m', file, yank[1..]) == Texts(m, file, yank[1..])
  {
    hide Chain, Recorded, GoneNodes, AllRemembered, Stored, Insert, Texts, Text, Spliced, Inserted, Circular;
    SpareInsertable(m, ring, yank, steps, u, origin, file, k, lp);
    InsertKeepsYank(m, ring, yank, steps, u, origin, file, k, lp);
    InsertedTexts(m, ring, file, k, lp);
    InsertKeepsText(m, lp, ring[k]);
  }

  /** Text is written behind the end of the scratch file. */
  lemma FileGrown(m: LineMemory, ring: seq<Line>, yank: seq<Line>, steps: seq<Step>, u: seq<Atom>,
                  origin: seq<Line>, file: string, text: string)
    requires State(m, ring, yank, steps, u, origin, file, {})
    ensures State(m, ring, yank, steps, u, origin, file + text, {})
    ensures Texts(m, file + text, ring[1..]) == Texts(m, file, ring[1..])
    ensures Texts(m, file + text, yank[1..]) == Texts(m, file, yank[1..])
    ensures origin != [] && Texts(m, file + text, origin[1..]) == Texts(m, file, origin[1..])
  {
    hide Log, AllRemembered, GoneNodes, Texts, Circular;
    CircularFacts(m, ring);
    CircularFacts(m, yank);
    OriginTexts(m, m, ring, yank, steps, u, origin, file, file + text, {});
    assert forall x :: x in ring ==> x in Elems(ring);
    assert forall x :: x in yank ==> x in Elems(yank);
    TextsFrame(m, m, file, file + text, ring[1..]);
    TextsFrame(m, m, file, file + text, yank[1..]);
    forall x | x in m ensures Text(m, file + text, x) == Text(m, file, x) {
    }
  }

  /** The length of the first line of s: all of s when it has no line end. */
  function LineEnd(s: string): (k: nat)
    ensures k <= |s| && '\n' !in s[..k] && (k < |s| ==> s[k] == '\n')
  {
    if s == [] || s[0] == '\n' then 0 else
      var k := LineEnd(s[1..]);
      assert s[..1 + k] == [s[0]] + s[1..][..k];
      1 + k
  }

  /** Does the line end an insertion: a period and one more character. */
  predicate IsPeriod(line: string) {
    |line| == 2 && line[0] == '.'
  }

  /** The lines of input that an insertion takes: up to the end of the input, a line that holds just
      a period, or one without a line end. */
  ghost function Typed(input: seq<string>): (lines: seq<string>)
    ensures |lines| <= |input|
  {
    if input == [] || input[0] == [] || IsPeriod(input[0]) || LineEnd(input[0]) == |input[0]| then []
    else [input[0][..LineEnd(input[0])]] + Typed(input[1..])
  }

  lemma TypedStep(input: seq<string>, i: nat)
    requires i <= |input|
    ensures i == |input| || input[i] == [] || IsPeriod(input[i]) || LineEnd(input[i]) == |input[i]| ==>
      Typed(input[i..]) == []
    ensures i < |input| && input[i] != [] && !IsPeriod(input[i]) && LineEnd(input[i]) < |input[i]| ==>
      Typed(input[i..]) == [input[i][..LineEnd(input[i])]] + Typed(input[i + 1..])
  {
    if i < |input| {
      assert input[i..][1..] == input[i + 1..];
    }
  }

  /** The lines as one. */
  ghost function Concatenated(lines: seq<string>): string {
    if lines == [] then [] else Concatenated(Front(lines)) + Top(lines)
  }

  lemma ConcatenatedLine(lines: seq<string>)
    requires forall line :: line in lines ==> '\n' !in line
    ensures '\n' !in Concatenated(lines) && LineEnd(Concatenated(lines) + "\n\0") == |Concatenated(lines)|
    ensures (Concatenated(lines) + "\n\0")[..|Concatenated(lines)|] == Concatenated(lines)
  {
    if lines != [] {
      assert forall i :: 0 <= i < |lines| - 1 ==> Front(lines)[i] == lines[i];
      ConcatenatedLine(Front(lines));
    }
    LineEndOfSum(Concatenated(lines), "\n\0");
  }

  lemma LineEndOfSum(line: string, rest: string)
    requires '\n' !in line && rest != [] && rest[0] == '\n'
    ensures LineEnd(line + rest) == |line|
  {
    if line != [] {
      assert (line + rest)[1..] == line[1..] + rest;
      LineEndOfSum(line[1..], rest);
    }
  }

  lemma ConcatenatedNone()
    ensures Concatenated([]) == []
  {
  }

  lemma ConcatenatedMore(lines: seq<string>, i: nat, j: nat)
    requires i <= j < |lines|
    ensures Concatenated(lines[i..j + 1]) == Concatenated(lines[i..j]) + lines[j]
  {
    assert Front(lines[i..j + 1]) == lines[i..j];
  }

  /** An empty buffer: only the two heads of lists are there. */
  lemma EmptyState(m: LineMemory, x: Line, y: Line)
    requires x != y && m == map[x := Node(x, x, Span(0, 0)), y := Node(y, y, Span(0, 0))]
    ensures State(m, [x], [y], [], [], [x], [], {})
  {
    ElemsOfFew(x);
    ElemsOfFew(y);
    NoHistory([x]);
  }

  lemma NoHistory(ring: seq<Line>)
    ensures Log([], [], ring) && GoneNodes([]) == {} && Origin([], ring) == ring
  {
  }

  /** What the state says of one line. */
  lemma OneLine(m: LineMemory, ring: seq<Line>, yank: seq<Line>, steps: seq<Step>, u: seq<Atom>,
                origin: seq<Line>, file: string, x: Line)
    requires State(m, ring, yank, steps, u, origin, file, {}) && x in m
    ensures m[x].data.pos + m[x].data.len <= |file| && '\n' !in file[m[x].data.pos..m[x].data.pos + m[x].data.len]
  {
    assert '\n' !in Text(m, file, x);
  }

  lemma OneLineOfBuffer(m: LineMemory, ring: seq<Line>, file: string, i: nat)
    requires Circular(m, ring) && i < |ring|
    ensures ring[i] in m && m[ring[i]].forw in m
    ensures m[ring[i]].forw == Head(ring[i + 1..], ring) && (i + 1 < |ring| ==> m[ring[i]].forw == ring[i + 1])
    ensures 0 < i ==> Text(m, file, ring[i]) == Texts(m, file, ring[1..])[i - 1]
  {
    assert ring[i] in Elems(ring);
    if i + 1 < |ring| { assert ring[i + 1] in Elems(ring); }
  }

  /** The text with lines put in after line k. */
  ghost function Grafted(text: seq<string>, k: nat, lines: seq<string>): seq<string>
    requires k <= |text|
  {
    text[..k] + lines + text[k..]
  }

  lemma GraftNone(text: seq<string>, k: nat)
    requires k <= |text|
    ensures Grafted(text, k, []) == text
  {
  }

  lemma GraftOneMore(text: seq<string>, k: nat, lines: seq<string>, x: string)
    requires k <= |text|
    ensures |Grafted(text, k, lines)| == |text| + |lines|
    ensures Spliced(Grafted(text, k, lines), k + |lines|, x) == Grafted(text, k, lines + [x])
  {
    var t := text[..k] + lines + text[k..];
    assert t[..k + |lines|] == text[..k] + lines && t[k + |lines|..] == text[k..];
  }

  /** The text with line x put in after line k. */
  ghost function Spliced(text: seq<string>, k: nat, x: string): seq<string>
    requires k <= |text|
  {
    text[..k] + [x] + text[k..]
  }

  /** The text with a copy of the n lines from address src on put in after line k. */
  ghost function Copied(text: seq<string>, src: nat, n: nat, k: nat): seq<string>
    requires 1 <= src && src + n <= |text| + 1 && k <= |text|
  {
    text[..k] + text[src - 1..src - 1 + n] + text[k..]
  }

  lemma CopyNone(text: seq<string>, src: nat, k: nat)
    requires 1 <= src <= |text| + 1 && k <= |text|
    ensures Copied(text, src, 0, k) == text
  {
  }

  /** Copying a range to inside itself: the copy of its first n lines ends where the rest begins. */
  lemma CopyRest(text: seq<string>, src: nat, n: nat, rest: nat, k: nat)
    requires 1 <= src && 0 < n && src + n - 1 == k && k + rest <= |text|
    ensures |Copied(text, src, n, k)| == |text| + n
    ensures Copied(Copied(text, src, n, k), k + n + 1, rest, k + n) == Copied(text, src, n + rest, k)
  {
    var t := text[..k] + text[src - 1..src - 1 + n] + text[k..];
    assert t[..k + n] == text[..k] + text[src - 1..src - 1 + n] && t[k + n..] == text[k..];
    assert t[k + n..k + n + rest] == text[k..k + rest];
    assert text[src - 1..src - 1 + n] + text[k..k + rest] == text[src - 1..src - 1 + n + rest];
  }

  /** One more of the lines from address src on is copied. */
  lemma CopyOneMore(text: seq<string>, src: nat, n: nat, k: nat)
    requires 1 <= src && k <= |text| && src + n <= |text|
    requires src + n <= k || k < src
    ensures var t := Copied(text, src, n, k); var i := if src <= k then src + n else src + 2 * n;
      0 < i <= |t| && k + n <= |t| && Spliced(t, k + n, t[i - 1]) == Copied(text, src, n + 1, k)
  {
    var t := text[..k] + text[src - 1..src - 1 + n] + text[k..];
    assert t[..k + n] == text[..k] + text[src - 1..src - 1 + n] && t[k + n..] == text[k..];
    assert text[src - 1..src - 1 + n] + [text[src - 1 + n]] == text[src - 1..src + n];
    if k < src {
      assert t[k + n..][src + n - 1 - k] == text[src - 1 + n];
    }
  }

  lemma FreshAddress(s: set<Line>)
    ensures exists p: Line :: p !in s
  {
    if forall p: Line :: p in s {
      AddressBelow(s, |s| + 1);
    }
  }

  lemma AddressBelow(s: set<Line>, n: nat)
    requires forall p: Line :: p < n ==> p in s
    ensures n <= |s|
  {
    if n > 0 {
      var t := s - {n - 1};
      assert forall p: Line :: p < n - 1 ==> p in t;
      AddressBelow(t, n - 1);
    }
  }

  lemma ElemsOfAllButHead(s: seq<Line>, i: nat, j: nat)
    requires 1 <= i <= j <= |s| && Distinct(s)
    ensures var a, seg, c := s[..i], s[i..j], s[j..];
      && s == a + seg + c && a != [] && Distinct(a + c) && Elems(a + c) + Elems(seg) == Elems(s)
      && Elems(a + c) !! Elems(seg)
  {
    var a, seg, c := s[..i], s[i..j], s[j..];
    assert s == a + seg + c;
    ElemsOfThree(a, seg, c);
    ElemsOfSum(a, seg);
    DistinctSum(a + seg, c);
    DistinctSum(a, seg);
    DistinctSum(a, c);
  }

  /** The edit that takes out the elements from i up to j. */
  ghost function DeletionOf(s: seq<Line>, i: nat, j: nat): Step
    requires i <= j <= |s|
  {
    Del(s[..i], s[i..j], s[j..])
  }

  /** The lines from i up to j are unlinked from the buffer. */
  lemma Deleted(m: LineMemory, ring: seq<Line>, yank: seq<Line>, steps: seq<Step>, u: seq<Atom>,
                origin: seq<Line>, file: string, i: nat, j: nat)
    requires State(m, ring, yank, steps, u, origin, file, {}) && 1 <= i < j <= |ring|
    ensures ring[i - 1] in m && Head(ring[j..], ring) in m
    ensures var st := DeletionOf(ring, i, j);
      |st.New()| == |ring| - (j - i) && st.New()[0] == ring[0] && st.New()[i - 1] == ring[i - 1]
    ensures var st := DeletionOf(ring, i, j); var m' := Link(m, ring[i - 1], Head(ring[j..], ring));
      && State(m', st.New(), yank, steps + [st], u + [Atom(UDEL, ring[i], ring[j - 1])], origin, file, {})
      && Texts(m', file, st.New()[1..]) == Without(Texts(m, file, ring[1..]), i - 1, j - 1)
      && Texts(m', file, yank[1..]) == Texts(m, file, yank[1..])
      && origin != [] && Texts(m', file, origin[1..]) == Texts(m, file, origin[1..])
  {
    hide Elems, Chain, Recorded, GoneNodes, Distinct, AllRemembered, Linked, Stored, Circular, Joined, Text, Texts;
    var st := DeletionOf(ring, i, j);
    var a, seg, c := ring[..i], ring[i..j], ring[j..];
    CircularFacts(m, ring);
    ElemsOfAllButHead(ring, i, j);
    Detached(m, a, seg, c);
    var m' := Link(m, Last(a), Head(c, a));
    EndsOfPieces(m, a, seg, c);
    LinkOther(m, Last(a), Head(c, a), yank);
    RememberedFrame(m, Last(a), Head(c, a), steps);
    ElemsOfFew(seg[0]);
    LogPush(steps, u, ring, st, [Atom(UDEL, seg[0], Last(seg))]);
    PushRemembered(m', steps, st);
    StoredFrame(m, m', file);
    assert m.Keys + {} == m'.Keys - {};
    DeletedTexts(m, m', file, ring, i, j);
    OriginTexts(m, m', ring, yank, steps, u, origin, file, file, {});
    CircularFacts(m, yank);
    TextsOfRing(m, m', file, yank);
  }

  /** The text without the lines from i up to j. */
  ghost function Without(text: seq<string>, i: nat, j: nat): seq<string>
    requires i <= j <= |text|
  {
    text[..i] + text[j..]
  }

  lemma CircularFacts(m: LineMemory, s: seq<Line>)
    requires Circular(m, s)
    ensures s != [] && Distinct(s) && Elems(s) <= m.Keys
  {
  }

  lemma EndsOfPieces(m: LineMemory, a: seq<Line>, seg: seq<Line>, c: seq<Line>)
    requires a != [] && Circular(m, a + seg + c)
    ensures Last(a) in Elems(a + seg + c) && Head(c, a) in Elems(a + seg + c)
  {
    ElemsOfThree(a, seg, c);
    Ends(a);
    Ends(c);
  }

  lemma DeletedTexts(m: LineMemory, m': LineMemory, file: string, ring: seq<Line>, i: nat, j: nat)
    requires Stored(m, file) && SameData(m, m') && Elems(ring) <= m.Keys && 1 <= i < j <= |ring|
    ensures var t := Texts(m, file, ring[1..]); Texts(m', file, (ring[..i] + ring[j..])[1..]) == t[..i - 1] + t[j - 1..]
  {
    var rest := (ring[..i] + ring[j..])[1..];
    assert rest == ring[1..][..i - 1] + ring[1..][j - 1..];
    assert forall x :: x in rest ==> x in Elems(ring);
    TextsFrame(m, m', file, file, rest);
  }

  /** The edit that exchanges the stretches from i up to j and from j up to k. */
  ghost function MoveOf(s: seq<Line>, i: nat, j: nat, k: nat, up: bool): Step
    requires i <= j <= k <= |s|
  {
    Move(s[..i], s[i..j], s[j..k], s[k..], up)
  }

  lemma DistinctSwap(a: seq<Line>, x: seq<Line>, y: seq<Line>, d: seq<Line>)
    requires Distinct(a + x + y + d)
    ensures Distinct(a + y + x + d) && Elems(a + y + x + d) == Elems(a + x + y + d)
  {
    DistinctSum(a + x + y, d);
    DistinctSum(a + x, y);
    DistinctSum(a, x);
    DistinctSum(a, y);
    DistinctSum(a + y, x);
    DistinctSum(a + y + x, d);
    ElemsOfSum(a + x + y, d);
    ElemsOfSum(a + x, y);
    ElemsOfSum(a, x);
    ElemsOfSum(a, y);
    ElemsOfSum(a + y, x);
    ElemsOfSum(a + y + x, d);
  }

  /** One of two neighbouring stretches of the buffer is moved past the other. */
  lemma Moved(m: LineMemory, ring: seq<Line>, yank: seq<Line>, steps: seq<Step>, u: seq<Atom>,
              origin: seq<Line>, file: string, i: nat, j: nat, k: nat, up: bool, b1: Line, a1: Line, b2: Line, a2: Line)
    requires State(m, ring, yank, steps, u, origin, file, {}) && 1 <= i < j < k <= |ring|
    requires var st := MoveOf(ring, i, j, k, up); Gaps(up, b1, a1, b2, a2, st.a, st.x, st.y, st.d)
    ensures b1 in m && a1 in m && b2 in m && a2 in m && m[b1].forw in m
    ensures Link(m, b2, m[b1].forw)[a1].back in m
    ensures var st := MoveOf(ring, i, j, k, up); var m' := Transpose(m, b1, a1, b2, a2);
      && origin != [] && Texts(m', file, origin[1..]) == Texts(m, file, origin[1..])
      && yank != [] && Texts(m', file, yank[1..]) == Texts(m, file, yank[1..])
      && State(m', st.New(), yank, steps + [st], u + [Atom(UMOV, b1, a1), Atom(UMOV, b2, a2)], origin, file, {})
      && var t := Texts(m, file, ring[1..]);
         Texts(m', file, st.New()[1..]) == t[..i - 1] + t[j - 1..k - 1] + t[i - 1..j - 1] + t[k - 1..]
  {
    hide Elems, Chain, Recorded, GoneNodes, Distinct, AllRemembered, Linked, Stored, Circular, Joined, Text, Texts,
         Transpose;
    var st := MoveOf(ring, i, j, k, up);
    var a, x, y, d := st.a, st.x, st.y, st.d;
    assert ring == a + x + y + d;
    CircularFacts(m, ring);
    DistinctSwap(a, x, y, d);
    Transposed(m, up, b1, a1, b2, a2, a, x, y, d);
    var m' := Transpose(m, b1, a1, b2, a2);
    TransposeElsewhere(m, up, b1, a1, b2, a2, a, x, y, d, yank, steps);
    ElemsOfFew(b1);
    LogPush(steps, u, ring, st, [Atom(UMOV, b1, a1), Atom(UMOV, b2, a2)]);
    PushRemembered(m', steps, st);
    StoredFrame(m, m', file);
    assert m.Keys + {} == m'.Keys - {};
    MovedTexts(m, m', file, ring, i, j, k);
    CircularFacts(m, yank);
    TextsOfRing(m, m', file, yank);
    OriginTexts(m, m', ring, yank, steps, u, origin, file, file, {});
  }

  /** The text with the lines from address first to second taken out and put in again after the
      line that had address addr. */
  ghost function Relocated(text: seq<string>, first: nat, second: nat, addr: nat): seq<string>
    requires 1 <= first <= second <= |text| && addr <= |text| && !(first <= addr < second)
  {
    var rest := Without(text, first - 1, second);
    var k := if addr < first then addr else addr - (second - first + 1);
    rest[..k] + text[first - 1..second] + rest[k..]
  }

  lemma RelocatedNowhere(text: seq<string>, first: nat, second: nat, addr: nat)
    requires 1 <= first <= second <= |text| && (addr == first - 1 || addr == second)
    ensures Relocated(text, first, second, addr) == text
  {
  }

  lemma RelocatedPast(text: seq<string>, first: nat, second: nat, addr: nat)
    requires 1 <= first <= second <= |text| && addr <= |text|
    ensures addr < first ==>
      Relocated(text, first, second, addr) ==
        text[..addr] + text[first - 1..second] + text[addr..first - 1] + text[second..]
    ensures second <= addr ==>
      Relocated(text, first, second, addr) ==
        text[..first - 1] + text[second..addr] + text[first - 1..second] + text[addr..]
  {
    var rest := Without(text, first - 1, second);
    if addr < first {
      assert rest[..addr] == text[..addr];
      assert rest[addr..] == text[addr..first - 1] + text[second..];
    } else if second <= addr {
      var k := addr - (second - first + 1);
      assert rest[..k] == text[..first - 1] + text[second..addr];
      assert rest[k..] == text[addr..];
    }
  }

  lemma MoveOfFacts(s: seq<Line>, i: nat, j: nat, k: nat, up: bool)
    requires 1 <= i < j < k <= |s|
    ensures var st := MoveOf(s, i, j, k, up);
      |st.New()| == |s| && st.New()[..i] == s[..i] && st.New()[i - 1] == s[i - 1]
    ensures MoveOf(s, i, j, k, up).New()[0] == s[0]
  {
  }

  lemma StateFacts(m: LineMemory, ring: seq<Line>, yank: seq<Line>, steps: seq<Step>, u: seq<Atom>,
                   origin: seq<Line>, file: string, spare: set<Line>)
    requires State(m, ring, yank, steps, u, origin, file, spare)
    ensures Circular(m, ring) && Circular(m, yank) && Elems(ring) <= m.Keys && Elems(yank) <= m.Keys && spare <= m.Keys
    ensures |Texts(m, file, ring[1..])| == |ring| - 1
  {
  }

  /** The lines from first to second are moved up to after line addr. */
  lemma MovedUp(m: LineMemory, ring: seq<Line>, yank: seq<Line>, steps: seq<Step>, u: seq<Atom>, origin: seq<Line>,
                file: string, first: nat, second: nat, addr: nat) returns (st: Step)
    requires State(m, ring, yank, steps, u, origin, file, {})
    requires 1 <= first <= second < |ring| && addr < |ring| && second < addr
    ensures |st.New()| == |ring| && st.New()[0] == ring[0] && st.New()[first - 1] == ring[first - 1]
    ensures var b1, b2 := ring[first - 1], ring[addr];
      var a1, a2 := Head(ring[second + 1..], ring), Head(ring[addr + 1..], ring);
      && b1 in m && a1 in m && b2 in m && a2 in m && m[b1].forw in m && Link(m, b2, m[b1].forw)[a1].back in m
      && var m' := Transpose(m, b1, a1, b2, a2);
      && State(m', st.New(), yank, steps + [st], u + [Atom(UMOV, b1, a1), Atom(UMOV, b2, a2)], origin, file, {})
      && Texts(m', file, st.New()[1..]) == Relocated(Texts(m, file, ring[1..]), first, second, addr)
      && origin != [] && Texts(m', file, origin[1..]) == Texts(m, file, origin[1..])
      && yank != [] && Texts(m', file, yank[1..]) == Texts(m, file, yank[1..])
  {
    hide Elems, State, Circular, Text, Texts, Transpose, Relocated, Step.New, Link, Chain;
    StateFacts(m, ring, yank, steps, u, origin, file, {});
    RelocatedPast(Texts(m, file, ring[1..]), first, second, addr);
    var b1, a1, b2, a2 := ring[first - 1], Head(ring[second + 1..], ring), ring[addr], Head(ring[addr + 1..], ring);
    st := MoveOf(ring, first, second + 1, addr + 1, true);
    MoveOfFacts(ring, first, second + 1, addr + 1, true);
    assert Gaps(true, b1, a1, b2, a2, st.a, st.x, st.y, st.d);
    Moved(m, ring, yank, steps, u, origin, file, first, second + 1, addr + 1, true, b1, a1, b2, a2);
  }

  /** The lines from first to second are moved down to after line addr. */
  lemma MovedDown(m: LineMemory, ring: seq<Line>, yank: seq<Line>, steps: seq<Step>, u: seq<Atom>, origin: seq<Line>,
                  file: string, first: nat, second: nat, addr: nat) returns (st: Step)
    requires State(m, ring, yank, steps, u, origin, file, {})
    requires 1 <= first <= second < |ring| && addr < |ring| && addr < first - 1
    ensures |st.New()| == |ring| && st.New()[0] == ring[0] && st.New()[addr] == ring[addr]
    ensures var b1, b2 := ring[first - 1], ring[addr];
      var a1, a2 := Head(ring[second + 1..], ring), Head(ring[addr + 1..], ring);
      && b1 in m && a1 in m && b2 in m && a2 in m && m[b1].forw in m && Link(m, b2, m[b1].forw)[a1].back in m
      && var m' := Transpose(m, b1, a1, b2, a2);
      && State(m', st.New(), yank, steps + [st], u + [Atom(UMOV, b1, a1), Atom(UMOV, b2, a2)], origin, file, {})
      && Texts(m', file, st.New()[1..]) == Relocated(Texts(m, file, ring[1..]), first, second, addr)
      && origin != [] && Texts(m', file, origin[1..]) == Texts(m, file, origin[1..])
      && yank != [] && Texts(m', file, yank[1..]) == Texts(m, file, yank[1..])
  {
    hide Elems, State, Circular, Text, Texts, Transpose, Relocated, Step.New, Link, Chain;
    StateFacts(m, ring, yank, steps, u, origin, file, {});
    RelocatedPast(Texts(m, file, ring[1..]), first, second, addr);
    var b1, a1, b2, a2 := ring[first - 1], Head(ring[second + 1..], ring), ring[addr], Head(ring[addr + 1..], ring);
    st := MoveOf(ring, addr + 1, first, second + 1, false);
    MoveOfFacts(ring, addr + 1, first, second + 1, false);
    assert Gaps(false, b1, a1, b2, a2, st.a, st.x, st.y, st.d);
    Moved(m, ring, yank, steps, u, origin, file, addr + 1, first, second + 1, false, b1, a1, b2, a2);
  }

  /** Relinking nodes of the buffer changes nothing elsewhere. */
  lemma LinkElsewhere(m: LineMemory, prev: Line, next: Line, ring: set<Line>, yank: seq<Line>, steps: seq<Step>)
    requires Circular(m, yank) && AllRemembered(m, steps) && ring !! Elems(yank) !! GoneNodes(steps)
    requires prev in m && next in m && prev in ring && next in ring
    ensures var m' := Link(m, prev, next); Circular(m', yank) && AllRemembered(m', steps) && SameData(m, m')
  {
    LinkOther(m, prev, next, yank);
    RememberedFrame(m, prev, next, steps);
  }

  lemma TransposeElsewhere(m: LineMemory, up: bool, b1: Line, a1: Line, b2: Line, a2: Line,
                           a: seq<Line>, x: seq<Line>, y: seq<Line>, d: seq<Line>, yank: seq<Line>, steps: seq<Step>)
    requires a != [] && x != [] && y != [] && Circular(m, a + x + y + d)
    requires Gaps(up, b1, a1, b2, a2, a, x, y, d) && Circular(m, yank) && AllRemembered(m, steps)
    requires Elems(a + x + y + d) !! Elems(yank) !! GoneNodes(steps)
    requires b1 in m && a1 in m && b2 in m && a2 in m && m[b1].forw in m
    requires Link(m, b2, m[b1].forw)[a1].back in m
    ensures var m' := Transpose(m, b1, a1, b2, a2); Circular(m', yank) && AllRemembered(m', steps) && SameData(m, m')
  {
    hide Elems, GoneNodes, AllRemembered, Circular;
    var ring := Elems(a + x + y + d);
    TransposedNodes(m, up, b1, a1, b2, a2, a, x, y, d);
    var m1 := Link(m, b2, m[b1].forw);
    var m2 := Link(m1, m1[a1].back, a2);
    LinkElsewhere(m, b2, m[b1].forw, ring, yank, steps);
    LinkElsewhere(m1, m1[a1].back, a2, ring, yank, steps);
    LinkElsewhere(m2, b1, a1, ring, yank, steps);
  }

  lemma TransposedNodes(m: LineMemory, up: bool, b1: Line, a1: Line, b2: Line, a2: Line,
                        a: seq<Line>, x: seq<Line>, y: seq<Line>, d: seq<Line>)
    requires a != [] && x != [] && y != [] && Circular(m, a + x + y + d)
    requires Gaps(up, b1, a1, b2, a2, a, x, y, d)
    requires b1 in m && a1 in m && b2 in m && a2 in m && m[b1].forw in m
    ensures {b1, a1, b2, a2, m[b1].forw, Link(m, b2, m[b1].forw)[a1].back} <= Elems(a + x + y + d)
  {
    hide Elems, Linked, Distinct;
    CircleOfFour(m, a, x, y, d);
    Ends(a); Ends(x); Ends(y); Ends(d);
    ElemsOfSum(a + x + y, d);
    ElemsOfSum(a + x, y);
    ElemsOfSum(a, x);
  }

  lemma TextsOfSum(m: LineMemory, file: string, a: seq<Line>, b: seq<Line>)
    ensures Texts(m, file, a + b) == Texts(m, file, a) + Texts(m, file, b)
  {
  }

  lemma TextsOfOne(m: LineMemory, file: string, x: Line)
    ensures Texts(m, file, [x]) == [Text(m, file, x)]
  {
  }

  lemma TextsOfSlice(m: LineMemory, file: string, s: seq<Line>, i: nat, j: nat)
    requires i <= j <= |s|
    ensures Texts(m, file, s[i..j]) == Texts(m, file, s)[i..j]
    ensures Texts(m, file, s[..j]) == Texts(m, file, s)[..j] && Texts(m, file, s[i..]) == Texts(m, file, s)[i..]
  {
  }

  lemma SliceOfTail(s: seq<Line>, i: nat, j: nat)
    requires 1 <= i <= j <= |s|
    ensures s[i..j] == s[1..][i - 1..j - 1] && s[i..] == s[1..][i - 1..]
  {
    forall k | 0 <= k < j - i ensures s[i..j][k] == s[1..][i - 1..j - 1][k] {
    }
  }

  lemma SwapAllButHead(s: seq<Line>, i: nat, j: nat, k: nat)
    requires 1 <= i <= j <= k <= |s|
    ensures var r := s[1..]; var a, x, y, d := r[..i - 1], r[i - 1..j - 1], r[j - 1..k - 1], r[k - 1..];
      (s[..i] + s[j..k] + s[i..j] + s[k..])[1..] == a + y + x + d && r == a + x + y + d
  {
    var r := s[1..];
    SliceOfTail(s, i, j);
    SliceOfTail(s, j, k);
    SliceOfTail(s, k, |s|);
    assert s[..i][1..] == r[..i - 1];
  }

  lemma MovedTexts(m: LineMemory, m': LineMemory, file: string, ring: seq<Line>, i: nat, j: nat, k: nat)
    requires Stored(m, file) && SameData(m, m') && Elems(ring) <= m.Keys && 1 <= i <= j <= k <= |ring|
    ensures var t := Texts(m, file, ring[1..]);
      Texts(m', file, (ring[..i] + ring[j..k] + ring[i..j] + ring[k..])[1..])
      == t[..i - 1] + t[j - 1..k - 1] + t[i - 1..j - 1] + t[k - 1..]
  {
    hide Text, Texts, Stored, SameData, Elems;
    var moved := (ring[..i] + ring[j..k] + ring[i..j] + ring[k..])[1..];
    var r := ring[1..];
    var a, x, y, d := r[..i - 1], r[i - 1..j - 1], r[j - 1..k - 1], r[k - 1..];
    SwapAllButHead(ring, i, j, k);
    TextsSwapped(m, m', file, ring, a, x, y, d);
    TextsOfSlice(m, file, r, 0, i - 1);
    assert a == r[..i - 1] && d == r[k - 1..];
    TextsOfSlice(m, file, r, i - 1, j - 1);
    TextsOfSlice(m, file, r, j - 1, k - 1);
    TextsOfSlice(m, file, r, k - 1, |r|);
  }

  lemma TextsSwapped(m: LineMemory, m': LineMemory, file: string, ring: seq<Line>,
                     a: seq<Line>, x: seq<Line>, y: seq<Line>, d: seq<Line>)
    requires Stored(m, file) && SameData(m, m') && Elems(ring) <= m.Keys && ring != [] && ring[1..] == a + x + y + d
    ensures Texts(m', file, a + y + x + d)
         == Texts(m, file, a) + Texts(m, file, y) + Texts(m, file, x) + Texts(m, file, d)
  {
    hide Texts, Text, Stored;
    var moved := a + y + x + d;
    forall z | z in moved ensures z in m {
      assert z in a + x + y + d;
      assert z in Elems(ring);
    }
    TextsFrame(m, m', file, file, moved);
    TextsOfSum(m, file, a + y + x, d);
    TextsOfSum(m, file, a + y, x);
    TextsOfSum(m, file, a, y);
  }

  /** A node is linked in at the end of the yank buffer. */
  lemma YankGrown(m: LineMemory, ring: seq<Line>, yank: seq<Line>, steps: seq<Step>, u: seq<Atom>,
                  origin: seq<Line>, file: string, lp: Line)
    requires State(m, ring, yank, steps, u, origin, file, {lp})
    ensures Last(yank) in m && m[Last(yank)].forw in m
    ensures var m' := Insert(m, lp, Last(yank));
      && State(m', ring, yank + [lp], steps, u, origin, file, {}) && yank != [] && lp in m
      && origin != [] && Texts(m', file, origin[1..]) == Texts(m, file, origin[1..])
      && Texts(m', file, ring[1..]) == Texts(m, file, ring[1..])
      && Texts(m', file, (yank + [lp])[1..]) == Texts(m, file, yank[1..]) + [Text(m, file, lp)]
  {
    hide Elems, Log, GoneNodes, AllRemembered, Stored, Circular, Text, Texts;
    CircularFacts(m, yank);
    InsertedCircle(m, yank, |yank| - 1, lp);
    assert Inserted(yank, |yank| - 1, lp) == yank + [lp];
    var m1 := Link(m, lp, m[Last(yank)].forw);
    LinkOther(m, lp, m[Last(yank)].forw, ring);
    LinkOther(m1, Last(yank), lp, ring);
    RememberedFrame(m, lp, m[Last(yank)].forw, steps);
    RememberedFrame(m1, Last(yank), lp, steps);
    var m' := Insert(m, lp, Last(yank));
    StoredFrame(m, m', file);
    TextsOfRing(m, m', file, ring);
    TextsOfRing(m, m', file, yank + [lp]);
    OriginTexts(m, m', ring, yank, steps, u, origin, file, file, {lp});
    assert (yank + [lp])[1..] == yank[1..] + [lp];
    TextsOfSum(m, file, yank[1..], [lp]);
    TextsOfOne(m, file, lp);
  }

  /** The first node of the yank buffer is unlinked and freed. */
  lemma YankShrunk(m: LineMemory, ring: seq<Line>, yank: seq<Line>, steps: seq<Step>, u: seq<Atom>,
                   origin: seq<Line>, file: string)
    requires State(m, ring, yank, steps, u, origin, file, {}) && |yank| > 1
    ensures var x := yank[1];
      && x in m && m[x].back in m && m[x].forw in m && m[x].forw == (if |yank| == 2 then yank[0] else yank[2])
      && State(Link(m, m[x].back, m[x].forw) - {x}, ring, yank[..1] + yank[2..], steps, u, origin, file, {})
      && Texts(Link(m, m[x].back, m[x].forw) - {x}, file, ring[1..]) == Texts(m, file, ring[1..])
      && origin != [] && Texts(Link(m, m[x].back, m[x].forw) - {x}, file, origin[1..]) == Texts(m, file, origin[1..])
  {
    hide Elems, Log, GoneNodes, AllRemembered, Stored, Circular, Text, Texts;
    var a, x, c := yank[..1], yank[1], yank[2..];
    assert yank == a + [x] + c;
    Detached(m, a, [x], c);
    EndsOfPieces(m, a, [x], c);
    ElemsOfThree(a, [x], c);
    ElemsOfFew(x);
    CircleOfThree(m, a, [x], c);
    var m1 := Link(m, Last(a), Head(c, a));
    var m' := m1 - {x};
    LinkOther(m, Last(a), Head(c, a), ring);
    RememberedFrame(m, Last(a), Head(c, a), steps);
    CircularElsewhere(m1, m', ring);
    CircularElsewhere(m1, m', a + c);
    RememberedElsewhere(m1, m', steps);
    StoredLess(m1, m', file) by { StoredFrame(m, m1, file); }
    assert m'.Keys - {} == m.Keys - {} - {x};
    OriginTexts(m, m', ring, yank, steps, u, origin, file, file, {});
    TextsOfRing(m, m', file, ring);
  }

  lemma StoredLess(m: LineMemory, m': LineMemory, file: string)
    requires Stored(m, file) && m'.Keys <= m.Keys && forall x :: x in m' ==> m'[x] == m[x]
    ensures Stored(m', file)
  {
    forall x | x in m' ensures '\n' !in Text(m', file, x) {
      assert Text(m', file, x) == Text(m, file, x);
    }
  }

  lemma TextsOfRing(m: LineMemory, m': LineMemory, file: string, ring: seq<Line>)
    requires Stored(m, file) && ring != [] && Elems(ring) <= m.Keys && Elems(ring) <= m'.Keys
    requires forall x :: x in m' && x in m ==> m'[x].data == m[x].data
    ensures Texts(m', file, ring[1..]) == Texts(m, file, ring[1..])
  {
    assert forall x :: x in ring[1..] ==> x in Elems(ring);
    TextsFrame(m, m', file, file, ring[1..]);
  }

  /** What the state says of the yank buffer. */
  lemma YankFacts(m: LineMemory, ring: seq<Line>, yank: seq<Line>, steps: seq<Step>, u: seq<Atom>,
                  origin: seq<Line>, file: string)
    requires State(m, ring, yank, steps, u, origin, file, {})
    ensures yank != [] && Distinct(yank) && yank[0] in m
    ensures m[yank[0]].forw == (if |yank| == 1 then yank[0] else yank[1])
    ensures Elems(ring) <= m.Keys
  {
    hide AllRemembered, GoneNodes, Log, Stored;
    Ends(yank);
  }
}
