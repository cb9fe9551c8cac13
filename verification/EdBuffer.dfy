/** The line buffer of the editor: a circular list of line nodes with a cached cursor, a yank
    buffer, a scratch file that holds the text, and an undo stack. */
module EdBuffer {
  import opened Sequences
  import opened Options
  import opened Rings
  import opened UndoHistory
  import opened EdState
  import opened EdUndo

  class Buffer {
    // The two list heads are static nodes
    const head: Line := 0
    const yankHead: Line := 1
    var mem: LineMemory
    var currentAddr: int
    var lastAddr: int
    var modified: bool
    // The cursor that searching keeps between calls
    var cached: Line
    var cachedAddr: int
    // The scratch file, its position, and the position that the editor believes it has
    var file: string
    var filePos: nat
    var scratchPos: nat
    var seekWrite: bool
    // The undo stack and the state to return to; negative addresses disable undo
    var stack: seq<Atom>
    var undoCurrent: int
    var undoLast: int
    var undoModified: bool

    ghost var ring: seq<Line>
    ghost var yank: seq<Line>
    ghost var steps: seq<Step>
    ghost var origin: seq<Line>
    ghost var saved: seq<string>

    /** The cursor points at a line of the buffer. */
    ghost predicate Cursor()
      reads this
    {
      && ring != [] && ring[0] == head && lastAddr == |ring| - 1
      && 0 <= cachedAddr <= lastAddr && cached == ring[cachedAddr]
    }

    /** The state to return to has the text and the addresses that were saved for it. */
    ghost predicate Undoable()
      reads this`origin, this`mem, this`file, this`saved, this`undoCurrent, this`undoLast
    {
      && origin != [] && Texts(mem, file, origin[1..]) == saved
      && (undoCurrent >= 0 && undoLast >= 0 ==> undoCurrent <= undoLast == |origin| - 1)
    }

    /** The invariant, while the nodes in spare are allocated but not in use yet. */
    ghost predicate Holds(spare: set<Line>)
      reads this
    {
      && State(mem, ring, yank, steps, stack, origin, file, spare) && yank[0] == yankHead
      && Cursor() && 0 <= currentAddr <= lastAddr && Undoable()
      && scratchPos == filePos && (!seekWrite ==> filePos == |file|)
    }

    ghost predicate Valid()
      reads this
    {
      Holds({})
    }

    /** The last edit recorded is an insertion that ends at the current line. */
    ghost predicate Inserting()
      reads this`steps, this`currentAddr
    {
      steps != [] && Top(steps).Add? && |Top(steps).a + Top(steps).seg| == currentAddr + 1
    }

    /** The text of the lines of the buffer. */
    ghost function Lines(): seq<string>
      reads this`ring, this`mem, this`file
    {
      if ring == [] then [] else Texts(mem, file, ring[1..])
    }

    /** What the invariant says of the buffer. */
    lemma BufferFacts()
      requires Valid()
      ensures Circular(mem, ring) && Cursor() && |Lines()| == lastAddr && 0 <= currentAddr <= lastAddr && yank != []
    {
    }

    lemma CachedNode()
      requires Cursor()
      ensures ring != [] && ring[0] == head && lastAddr == |ring| - 1
      ensures 0 <= cachedAddr <= lastAddr && cached == ring[cachedAddr]
    {
    }

    /** Different places in the buffer are different nodes. */
    lemma RingEnds(i: nat, j: nat)
      requires Circular(mem, ring) && 1 <= i <= |ring| && 1 <= j <= |ring|
      ensures Head(ring[i..], ring) == Head(ring[j..], ring) ==> i == j
    {
    }

    lemma NotTheHead(i: nat)
      requires Valid() && 0 < i < |ring|
      ensures ring[i] != head
    {
    }

    /** What the invariant says of the line at an address. */
    lemma LineFacts(i: nat)
      requires Valid() && i < |ring|
      ensures ring[i] in mem && mem[ring[i]].forw in mem
      ensures |Lines()| == lastAddr == |ring| - 1 && 0 <= currentAddr <= lastAddr
      ensures mem[ring[i]].forw == Head(ring[i + 1..], ring) && (i + 1 < |ring| ==> mem[ring[i]].forw == ring[i + 1])
      ensures 0 < i ==> Text(mem, file, ring[i]) == Lines()[i - 1]
    {
      hide Circular, Log, Stored, Text;
      OneLineOfBuffer(mem, ring, file, i);
    }

    constructor ()
      ensures Valid() && Lines() == [] && steps == [] && !modified && currentAddr == 0
      ensures undoCurrent < 0 && undoLast < 0
    {
      mem := map[0 := Node(0, 0, Span(0, 0)), 1 := Node(1, 1, Span(0, 0))];
      currentAddr, lastAddr, modified, cached, cachedAddr := 0, 0, false, 0, 0;
      file, filePos, scratchPos, seekWrite := [], 0, 0, false;
      stack, undoCurrent, undoLast, undoModified := [], -1, -1, false;
      ring, yank, steps, origin, saved := [0], [1], [], [0], [];
      EmptyState(map[0 := Node(0, 0, Span(0, 0)), 1 := Node(1, 1, Span(0, 0))], 0, 1);
      new;
      hide State;
    }

    /** Walks on from the cursor to a later address. */
    method Forward(addr: int)
      requires Circular(mem, ring) && Cursor() && cachedAddr <= addr <= lastAddr
      modifies this`cached, this`cachedAddr
      ensures Cursor() && cachedAddr == addr
    {
      hide Distinct;
      assert forall i :: 0 <= i < |ring| ==> ring[i] in Elems(ring);
      while cachedAddr < addr
        invariant Cursor() && cachedAddr <= addr
      {
        cachedAddr := cachedAddr + 1;
        cached := mem[cached].forw;
      }
    }

    /** Walks back from the cursor to an earlier address. */
    method Backward(addr: int)
      requires Circular(mem, ring) && Cursor() && 0 <= addr <= cachedAddr
      modifies this`cached, this`cachedAddr
      ensures Cursor() && cachedAddr == addr
    {
      hide Distinct;
      assert forall i :: 0 <= i < |ring| ==> ring[i] in Elems(ring);
      while cachedAddr > addr
        invariant Cursor() && cachedAddr >= addr
      {
        cachedAddr := cachedAddr - 1;
        cached := mem[cached].back;
      }
    }

    /** The node at the given address, found by walking from the nearest of the cursor, the first
        and the last node; the cursor is left there. One past the last address is taken for the last. */
    method SearchLineNode(addr: int) returns (lp: Line)
      requires Circular(mem, ring) && Cursor() && 0 <= addr <= lastAddr + 1
      modifies this`cached, this`cachedAddr
      ensures Cursor() && lp == cached && cachedAddr == if addr <= lastAddr then addr else lastAddr
      ensures old(Valid()) ==> Valid()
    {
      hide State, Distinct, Undoable, Texts;
      if cachedAddr < addr {
        if cachedAddr + lastAddr >= 2 * addr {
          Forward(addr);
        } else {
          cached := mem[head].back;
          cachedAddr := lastAddr;
          if addr <= lastAddr {
            Backward(addr);
          }
        }
      } else if cachedAddr <= 2 * addr {
        Backward(addr);
      } else {
        cached := head;
        cachedAddr := 0;
        Forward(addr);
      }
      lp := cached;
    }

    /** Links lp into the buffer after the current line. */
    method AddLineNode(lp: Line)
      requires Circular(mem, ring) && Cursor() && 0 <= currentAddr <= lastAddr && lp in mem
      requires ring[currentAddr] in mem && mem[ring[currentAddr]].forw in mem
      modifies this`cached, this`cachedAddr, this`currentAddr, this`lastAddr, this`ring, this`mem
      ensures Cursor() && mem == Insert(old(mem), lp, old(ring[currentAddr]))
      ensures currentAddr == old(currentAddr) + 1 && lastAddr == old(lastAddr) + 1
      ensures ring == Inserted(old(ring), old(currentAddr), lp) && ring[currentAddr] == lp
    {
      hide Circular;
      var prev := SearchLineNode(currentAddr);
      mem := Insert(mem, lp, prev);
      ring := Inserted(ring, currentAddr, lp);
      currentAddr := currentAddr + 1;
      lastAddr := lastAddr + 1;
    }

    method PushUndoAtom(kind: Kind, from: int, to: int)
      requires Circular(mem, ring) && Cursor() && 0 <= from <= lastAddr && 0 <= to <= lastAddr
      modifies this`cached, this`cachedAddr, this`stack
      ensures Cursor() && stack == old(stack) + [Atom(kind, ring[from], ring[to])]
    {
      hide Circular;
      var tail := SearchLineNode(to);
      var head := SearchLineNode(from);
      stack := stack + [Atom(kind, head, tail)];
    }

    /** Adds a node after the current line and records that as an edit of its own. */
    method AddFirst(lp: Line)
      requires Holds({lp}) && Insertable(mem, ring, currentAddr, lp)
      modifies this`cached, this`cachedAddr, this`currentAddr, this`lastAddr, this`ring, this`mem, this`steps,
               this`stack
      ensures Valid() && Inserting() && currentAddr == old(currentAddr) + 1
      ensures ring == Inserted(old(ring), old(currentAddr), lp) && mem == Insert(old(mem), lp, old(ring[currentAddr]))
    {
      hide State, Inserted, Circular, Insert;
      ghost var st := InsertionAt(ring, currentAddr, lp);
      FirstAdded(mem, ring, yank, steps, stack, origin, file, currentAddr, lp);
      FirstTexts(mem, ring, yank, steps, stack, origin, file, currentAddr, lp);
      AddLineNode(lp);
      PushUndoAtom(UADD, currentAddr, currentAddr);
      steps := steps + [st];
    }

    /** Adds a node after the current line to the insertion recorded last. */
    method AddNext(lp: Line)
      requires Holds({lp}) && Insertable(mem, ring, currentAddr, lp) && Inserting()
      modifies this`cached, this`cachedAddr, this`currentAddr, this`lastAddr, this`ring, this`mem, this`steps,
               this`stack
      ensures Valid() && Inserting() && currentAddr == old(currentAddr) + 1
      ensures ring == Inserted(old(ring), old(currentAddr), lp) && mem == Insert(old(mem), lp, old(ring[currentAddr]))
    {
      hide State, Inserted, Circular, Insert;
      ghost var st := Longer(Top(steps), lp);
      NextAdded(mem, ring, yank, steps, stack, origin, file, currentAddr, lp);
      AddLineNode(lp);
      stack := stack[|stack| - 1 := Top(stack).(tail := lp)];
      steps := Front(steps) + [st];
    }

    /** Allocates a node for text that is in the scratch file. */
    method NewLineNode(pos: nat, len: nat) returns (lp: Line)
      requires Valid() && pos + len <= |file| && '\n' !in file[pos..pos + len]
      modifies this`mem
      ensures Holds({lp}) && Lines() == old(Lines())
      ensures Text(mem, file, lp) == file[pos..pos + len] && YankedLines() == old(YankedLines())
      ensures forall x :: x in old(mem) ==> x in mem && mem[x] == old(mem)[x]
    {
      hide State, Texts;
      FreshAddress(mem.Keys);
      lp :| lp !in mem;
      var garbage: Line := *;
      var node := Node(garbage, garbage, Span(pos, len));
      Allocated(mem, ring, yank, steps, stack, origin, file, lp, node);
      mem := mem[lp := node];
    }

    /** Adds a node after the current line: as an edit of its own, or as one more line of the
        insertion recorded last. */
    method AddRecorded(lp: Line, extend: bool)
      requires Holds({lp}) && (extend ==> Inserting())
      modifies this`cached, this`cachedAddr, this`currentAddr, this`lastAddr, this`ring, this`mem, this`steps,
               this`stack
      modifies this`modified
      ensures Valid() && Inserting() && modified && currentAddr == old(currentAddr) + 1
      ensures ring == Inserted(old(ring), old(currentAddr), lp) && SameData(old(mem), mem)
      ensures old(currentAddr) <= |old(Lines())|
      ensures Lines() == Spliced(old(Lines()), old(currentAddr), old(Text(mem, file, lp)))
      ensures YankedLines() == old(YankedLines())
    {
      hide State, Circular, Insert, Insertable, Inserted, Texts, Text, Spliced;
      AddedTexts(mem, ring, yank, steps, stack, origin, file, currentAddr, lp);
      if extend {
        AddNext(lp);
      } else {
        AddFirst(lp);
      }
      modified := true;
    }

    /** Allocates a copy of a node. */
    method DupLineNode(x: Line) returns (lp: Line)
      requires Valid() && x in mem
      modifies this`mem
      ensures Holds({lp}) && Lines() == old(Lines())
      ensures Text(mem, file, lp) == Text(old(mem), file, x) && YankedLines() == old(YankedLines())
      ensures forall x :: x in old(mem) ==> x in mem && mem[x] == old(mem)[x]
    {
      hide State, Texts;
      OneLine(mem, ring, yank, steps, stack, origin, file, x);
      lp := NewLineNode(mem[x].data.pos, mem[x].data.len);
    }

    /** Copies the line np to after the current line, and tells which line then follows np. */
    method CopyLine(np: Line, extend: bool, ghost i: nat) returns (next: Line)
      requires Valid() && 0 < i < |ring| && np == ring[i] && (extend ==> Inserting())
      modifies this`cached, this`cachedAddr, this`currentAddr, this`lastAddr, this`ring, this`mem, this`steps,
               this`stack
      modifies this`modified
      ensures Valid() && Inserting() && modified && currentAddr == old(currentAddr) + 1 && |ring| == old(|ring|) + 1
      ensures 0 < i <= |old(Lines())| && old(currentAddr) <= |old(Lines())|
      ensures Lines() == Spliced(old(Lines()), old(currentAddr), old(Lines()[i - 1]))
      ensures var j := if i <= old(currentAddr) then i + 1 else i + 2; j < |ring| ==> next == ring[j]
      ensures YankedLines() == old(YankedLines())
    {
      hide Valid, Holds, Lines, YankedLines, Text, Spliced;
      LineFacts(i);
      var lp := DupLineNode(np);
      AddRecorded(lp, extend);
      LineFacts(if i <= old(currentAddr) then i else i + 1);
      next := mem[np].forw;
    }

    /** Copies n consecutive lines, the first at address src, to after the current line. */
    method CopyRun(np: Line, n: nat, extend: bool, ghost src: nat)
      requires Valid() && 1 <= src && src + n <= |ring| && (n > 0 ==> np == ring[src])
      requires src + n - 1 <= currentAddr || currentAddr < src
      requires extend ==> Inserting()
      modifies this`cached, this`cachedAddr, this`currentAddr, this`lastAddr, this`ring, this`mem, this`steps,
               this`stack
      modifies this`modified
      ensures Valid() && currentAddr == old(currentAddr) + n && |ring| == old(|ring|) + n
      ensures n > 0 || extend ==> Inserting()
      ensures n > 0 ==> modified
      ensures src + n <= |old(Lines())| + 1 && old(currentAddr) <= |old(Lines())|
      ensures Lines() == Copied(old(Lines()), src, n, old(currentAddr))
      ensures YankedLines() == old(YankedLines())
    {
      hide Valid, Holds, Inserting, Lines, YankedLines, Text, Spliced, Copied;
      ghost var text, cur := Lines(), currentAddr;
      LineFacts(0);
      CopyNone(text, src, cur);
      var p, i := np, 0;
      while i < n
        invariant i <= n && Valid() && currentAddr == cur + i && |ring| == |old(ring)| + i
        invariant (extend || i > 0 ==> Inserting()) && (i > 0 ==> modified)
        invariant Lines() == Copied(text, src, i, cur) && YankedLines() == old(YankedLines())
        invariant i < n ==> p == ring[if src <= cur then src + i else src + 2 * i]
      {
        CopyOneMore(text, src, i, cur);
        p := CopyLine(p, extend || i > 0, if src <= cur then src + i else src + 2 * i);
        i := i + 1;
      }
    }

    method SetCurrentAddr(addr: int)
      requires Valid() && 0 <= addr <= lastAddr
      modifies this`currentAddr
      ensures Valid() && currentAddr == addr
    {
      hide State;
      currentAddr := addr;
    }

    function IncAddr(addr: int): int
      reads this`lastAddr
    {
      if addr + 1 > lastAddr then 0 else addr + 1
    }

    /** Copies the lines from first to second to after line addr, which may lie between them. */
    method CopyLines(first: int, second: int, addr: int)
      requires Valid() && 1 <= first <= second <= lastAddr && 0 <= addr <= lastAddr
      modifies this`cached, this`cachedAddr, this`currentAddr, this`lastAddr, this`ring, this`mem, this`steps,
               this`stack
      modifies this`modified
      ensures Valid() && modified
      ensures second <= |old(Lines())| && addr <= |old(Lines())|
      ensures Lines() == Copied(old(Lines()), first, second - first + 1, addr)
      ensures YankedLines() == old(YankedLines())
      ensures currentAddr == addr + second - first + 1
    {
      hide Valid, Lines, YankedLines, Inserting, Copied, Circular, State;
      BufferFacts();
      ghost var text, total := Lines(), second - first + 1;
      var np := SearchLineNode(first);
      var n, m := second - first + 1, 0;
      SetCurrentAddr(addr);
      if first <= addr < second {
        n := addr - first + 1;
        m := second - addr;
      }
      ghost var done := 0;
      var extend := false;
      CopyNone(text, first, addr);
      while n > 0
        invariant 0 <= m && 0 <= n && 0 <= done && done + n + m == total && (n == 0 ==> m == 0)
        invariant Valid() && Cursor() && (done > 0 <==> extend) && (extend ==> Inserting() && modified)
        invariant YankedLines() == old(YankedLines())
        invariant currentAddr == addr + done && |ring| == old(|ring|) + done
        invariant Lines() == Copied(text, first, done, addr)
        invariant n > 0 && done == 0 ==> np == ring[first] && (first + n - 1 <= addr || addr < first)
        invariant n > 0 && done > 0 ==> currentAddr + 1 < |ring| && np == ring[currentAddr + 1]
        invariant done > 0 ==> m == 0
        invariant m > 0 || (n > 0 && done > 0) ==> first + (if done == 0 then n else done) - 1 == addr
        decreases n + m
      {
        if done > 0 { CopyRest(text, first, done, n, addr); }
        CopyRun(np, n, extend, if done == 0 then first else currentAddr + 1);
        extend := true;
        done := done + n;
        n, m := m, 0;
        BufferFacts();
        np := SearchLineNode(currentAddr + 1);
      }
    }

    /** The text of the yanked lines. */
    ghost function YankedLines(): seq<string>
      reads this`yank, this`mem, this`file
    {
      if yank == [] then [] else Texts(mem, file, yank[1..])
    }

    method ClearYankBuffer()
      requires Valid()
      modifies this`mem, this`yank
      ensures Valid() && yank == [yankHead] && Lines() == old(Lines())
    {
      hide State, Texts, Circular, Text;
      YankFacts(mem, ring, yank, steps, stack, origin, file);
      var lp := mem[yankHead].forw;
      while lp != yankHead
        invariant Valid() && Lines() == old(Lines())
        invariant yank != [] && lp == if |yank| == 1 then yankHead else yank[1]
        decreases |yank|
      {
        YankShrunk(mem, ring, yank, steps, stack, origin, file);
        YankFacts(mem, ring, yank, steps, stack, origin, file);
        var p := mem[lp].forw;
        mem := Link(mem, mem[lp].back, mem[lp].forw);
        mem := mem - {lp};
        yank := yank[..1] + yank[2..];
        lp := p;
      }
      YankFacts(mem, ring, yank, steps, stack, origin, file);
    }

    /** Copies the line bp to the end of the yank buffer, behind lp. */
    method YankLine(bp: Line, lp: Line, ghost i: nat) returns (p: Line)
      requires Valid() && 0 < i < |ring| && bp == ring[i] && yank != [] && lp == Last(yank)
      modifies this`mem, this`yank
      ensures Valid() && Lines() == old(Lines()) && yank == old(yank) + [p]
      ensures i <= |Lines()| && YankedLines() == old(YankedLines()) + [Lines()[i - 1]]
      ensures bp in mem && mem[bp].forw == Head(ring[i + 1..], ring)
    {
      hide State, Circular, Text, Texts, Insert;
      LineFacts(i);
      p := DupLineNode(bp);
      YankGrown(mem, ring, yank, steps, stack, origin, file, p);
      mem := Insert(mem, p, lp);
      yank := yank + [p];
      LineFacts(i);
    }

    /** Copies a range of lines into the yank buffer, in place of what was there. */
    method YankLines(from: int, upTo: int)
      requires Valid() && 1 <= from <= upTo <= lastAddr
      modifies this`cached, this`cachedAddr, this`mem, this`yank
      ensures Valid() && Lines() == old(Lines())
      ensures upTo <= |Lines()| && YankedLines() == Lines()[from - 1..upTo]
    {
      hide Valid, Lines, Circular, State, YankedLines, Cursor;
      BufferFacts();
      CachedNode();
      var ep := SearchLineNode(IncAddr(upTo));
      CachedNode();
      var bp := SearchLineNode(from);
      CachedNode();
      var lp := yankHead;
      ClearYankBuffer();
      ghost var i := from;
      YankedNone();
      while bp != ep
        invariant Valid() && Lines() == old(Lines()) && from <= i <= upTo + 1
        invariant ep == Head(ring[upTo + 1..], ring) && bp == Head(ring[i..], ring) && yank != [] && lp == Last(yank)
        invariant YankedLines() == Lines()[from - 1..i - 1]
        decreases upTo + 1 - i
      {
        BufferFacts();
        RingEnds(i, upTo + 1);
        lp := YankLine(bp, lp, i);
        bp := mem[bp].forw;
        i := i + 1;
      }
      BufferFacts();
      RingEnds(i, upTo + 1);
    }

    lemma YankedNone()
      requires |yank| == 1
      ensures YankedLines() == []
    {
    }

    /** Records a range of lines, and finds the nodes before and after it; the cursor is left before it. */
    method RecordRange(kind: Kind, from: int, upTo: int) returns (p: Line, n: Line)
      requires Circular(mem, ring) && Cursor() && 1 <= from <= upTo <= lastAddr
      modifies this`cached, this`cachedAddr, this`stack
      ensures Cursor() && cachedAddr == from - 1 && p == ring[from - 1] && n == Head(ring[upTo + 1..], ring)
      ensures stack == old(stack) + [Atom(kind, ring[from], ring[upTo])]
    {
      hide Circular, Valid;
      PushUndoAtom(kind, from, upTo);
      n := SearchLineNode(IncAddr(upTo));
      p := SearchLineNode(from - 1);
    }

    /** Takes a range of lines out of the links of the buffer and records that. */
    method UnlinkRange(from: int, upTo: int)
      requires Valid() && 1 <= from <= upTo <= lastAddr
      modifies this`cached, this`cachedAddr, this`lastAddr, this`ring, this`mem, this`steps, this`stack
      ensures State(mem, ring, yank, steps, stack, origin, file, {}) && Cursor() && Undoable()
      ensures lastAddr == old(lastAddr) - (upTo - from + 1) && from <= lastAddr + 1
      ensures upTo <= |old(Lines())| && Lines() == Without(old(Lines()), from - 1, upTo)
      ensures YankedLines() == old(YankedLines())
    {
      hide State, Circular, Texts, DeletionOf, Step.New, Without, Link, IncAddr;
      BufferFacts();
      Deleted(mem, ring, yank, steps, stack, origin, file, from, upTo + 1);
      var p, n := RecordRange(UDEL, from, upTo);
      mem := Link(mem, p, n);
      ghost var st := DeletionOf(ring, from, upTo + 1);
      ring, steps := st.New(), steps + [st];
      lastAddr := lastAddr - (upTo - from + 1);
    }

    /** Takes a range of lines out of the buffer and records that. */
    method UnlinkLines(from: int, upTo: int)
      requires Valid() && 1 <= from <= upTo <= lastAddr
      modifies this`cached, this`cachedAddr, this`currentAddr, this`lastAddr, this`ring, this`mem, this`steps,
               this`stack
      modifies this`modified
      ensures Valid() && modified && currentAddr == if from < lastAddr then from else lastAddr
      ensures upTo <= |old(Lines())| && Lines() == Without(old(Lines()), from - 1, upTo)
      ensures YankedLines() == old(YankedLines()) && lastAddr == old(lastAddr) - (upTo - from + 1)
    {
      hide State, Lines, YankedLines, Without;
      UnlinkRange(from, upTo);
      currentAddr := if from < lastAddr then from else lastAddr;
      modified := true;
    }

    /** Takes a range of lines out of the buffer, into the yank buffer. */
    method DeleteLines(from: int, upTo: int)
      requires Valid() && 1 <= from <= upTo <= lastAddr
      modifies this`cached, this`cachedAddr, this`currentAddr, this`lastAddr, this`ring, this`mem, this`steps,
               this`stack
      modifies this`yank, this`modified
      ensures Valid() && modified && currentAddr == if from < lastAddr then from else lastAddr
      ensures upTo <= |old(Lines())| && Lines() == Without(old(Lines()), from - 1, upTo)
      ensures YankedLines() == old(Lines())[from - 1..upTo] && lastAddr == old(lastAddr) - (upTo - from + 1)
    {
      hide Valid, Lines, YankedLines, DeletionOf, Step.New, Without;
      YankLines(from, upTo);
      UnlinkLines(from, upTo);
    }

    /** What the invariant says of a yanked line. */
    lemma YankedFacts(i: nat)
      requires Valid() && i < |yank|
      ensures yank[0] == yankHead && yank[i] in mem && mem[yank[i]].forw == Head(yank[i + 1..], yank)
      ensures |YankedLines()| == |yank| - 1
      ensures 0 <= currentAddr <= |Lines()| == lastAddr
      ensures 0 < i ==> Text(mem, file, yank[i]) == YankedLines()[i - 1]
    {
      hide Circular, Log, Stored, Text;
      OneLineOfBuffer(mem, yank, file, i);
    }

    lemma YankEnds(i: nat)
      requires Valid() && 1 <= i <= |yank|
      ensures Head(yank[i..], yank) == yankHead <==> i == |yank|
    {
    }

    /** Copies the yanked line lp to after the current line, and tells which line then follows lp. */
    method CopyYanked(lp: Line, extend: bool, ghost i: nat) returns (next: Line)
      requires Valid() && 0 < i < |yank| && lp == yank[i] && (extend ==> Inserting())
      modifies this`cached, this`cachedAddr, this`currentAddr, this`lastAddr, this`ring, this`mem, this`steps,
               this`stack
      modifies this`modified
      ensures Valid() && Inserting() && modified && currentAddr == old(currentAddr) + 1
      ensures YankedLines() == old(YankedLines()) && i <= |YankedLines()| && 0 <= old(currentAddr) <= |old(Lines())|
      ensures Lines() == Spliced(old(Lines()), old(currentAddr), YankedLines()[i - 1])
      ensures next == Head(yank[i + 1..], yank)
    {
      hide Valid, Holds, Lines, YankedLines, Text, Spliced;
      YankedFacts(i);
      var p := DupLineNode(lp);
      AddRecorded(p, extend);
      YankedFacts(i);
      next := mem[lp].forw;
    }

    /** Puts the yanked lines after line addr. */
    method PutLines(addr: int) returns (ok: bool)
      requires Valid() && 0 <= addr <= lastAddr
      modifies this`cached, this`cachedAddr, this`currentAddr, this`lastAddr, this`ring, this`mem, this`steps,
               this`stack
      modifies this`modified
      ensures Valid() && YankedLines() == old(YankedLines()) && addr <= |old(Lines())|
      ensures ok == (YankedLines() != [])
      ensures Lines() == Grafted(old(Lines()), addr, YankedLines())
      ensures ok ==> modified && currentAddr == addr + |YankedLines()|
      ensures !ok ==>
        (mem, ring, steps, stack, currentAddr, modified) == old((mem, ring, steps, stack, currentAddr, modified))
    {
      hide Valid, Lines, YankedLines, Inserting, Grafted, State;
      BufferFacts();
      YankedFacts(0);
      YankEnds(1);
      ghost var text, lines := Lines(), YankedLines();
      GraftNone(text, addr);
      var lp := mem[yankHead].forw;
      if lp == yankHead {
        return false;
      }
      SetCurrentAddr(addr);
      var extend := false;
      ghost var i := 0;
      assert lines[..0] == [];
      while lp != yankHead
        invariant Valid() && YankedLines() == lines && i <= |lines| == |yank| - 1 && lp == Head(yank[i + 1..], yank)
        invariant currentAddr == addr + i && Lines() == Grafted(text, addr, lines[..i])
        invariant extend == (i > 0) && (extend ==> Inserting() && modified)
        decreases |lines| - i
      {
        YankEnds(i + 1);
        GraftOneMore(text, addr, lines[..i], lines[i]);
        assert lines[..i] + [lines[i]] == lines[..i + 1];
        lp := CopyYanked(lp, extend, i + 1);
        extend := true;
        i := i + 1;
      }
      YankEnds(i + 1);
      assert lines[..i] == lines;
      return true;
    }

    /** The lines of text, and no line end is in any of them. */
    lemma LinesHaveNoLineEnd(i: nat)
      requires Valid() && i < |Lines()|
      ensures '\n' !in Lines()[i]
    {
      hide Circular, Log;
      OneLineOfBuffer(mem, ring, file, i + 1);
    }

    /** The text of a line, read from the scratch file; the head of the list has none. */
    method GetSbufLine(lp: Line) returns (text: Option<string>)
      requires Valid() && lp in mem
      modifies this`filePos, this`scratchPos, this`seekWrite
      ensures Valid() && text == if lp == head then None else Some(Text(mem, file, lp))
    {
      hide Web, Log, Used;
      if lp == head {
        return None;
      }
      seekWrite := true;
      if scratchPos != mem[lp].data.pos {
        scratchPos := mem[lp].data.pos;
        filePos := scratchPos;
      }
      text := Some(file[filePos..filePos + mem[lp].data.len]);
      filePos := filePos + mem[lp].data.len;
      scratchPos := scratchPos + mem[lp].data.len;
    }

    /** Writes text to the scratch file, and tells the position it has there. Nothing that is in the
        file is overwritten, wherever the last line was read. */
    method WriteSbuf(text: string) returns (pos: nat)
      requires Valid()
      modifies this`filePos, this`scratchPos, this`seekWrite, this`file
      ensures Valid() && file == old(file) + text && pos == |old(file)|
      ensures Lines() == old(Lines()) && YankedLines() == old(YankedLines())
    {
      hide State, Texts, Circular, Text;
      FileGrown(mem, ring, yank, steps, stack, origin, file, text);
      ghost var grown := file + text;
      if seekWrite {
        filePos := |file|;
        scratchPos := filePos;
        seekWrite := false;
      }
      file := file[..filePos] + text + file[if filePos + |text| < |file| then filePos + |text| else |file|..];
      assert file == grown;
      filePos := filePos + |text|;
      pos := scratchPos;
      scratchPos := scratchPos + |text|;
    }

    /** Writes the first line of buf to the scratch file and adds a node for it after the current
        line; that is recorded at once, as an edit of its own or as part of the last one. */
    method PutSbufLine(buf: string, extend: bool) returns (ok: bool)
      requires Valid() && (extend ==> Inserting())
      modifies this`cached, this`cachedAddr, this`currentAddr, this`lastAddr, this`ring, this`mem, this`steps,
               this`stack
      modifies this`modified, this`filePos, this`scratchPos, this`seekWrite, this`file
      ensures Valid() && ok == (LineEnd(buf) < |buf|) && YankedLines() == old(YankedLines())
      ensures ok ==> Inserting() && modified && currentAddr == old(currentAddr) + 1
      ensures 0 <= old(currentAddr) <= |old(Lines())|
      ensures ok ==> Lines() == Spliced(old(Lines()), old(currentAddr), buf[..LineEnd(buf)])
      ensures !ok ==> Lines() == old(Lines()) && currentAddr == old(currentAddr) && modified == old(modified)
    {
      hide Valid, Holds, Lines, YankedLines, Spliced, Inserting, Text;
      BufferFacts();
      var len := LineEnd(buf);
      if len == |buf| {
        return false;
      }
      var pos := WriteSbuf(buf[..len]);
      assert file[pos..pos + len] == buf[..len];
      var lp := NewLineNode(pos, len);
      AddRecorded(lp, extend);
      return true;
    }

    /** Puts the lines of the input after line addr, or before it. */
    method AppendLines(input: seq<string>, addr: int, before: bool) returns (ok: bool)
      requires Valid() && 0 <= addr <= lastAddr
      modifies this`cached, this`cachedAddr, this`currentAddr, this`lastAddr, this`ring, this`mem, this`steps,
               this`stack
      modifies this`modified, this`filePos, this`scratchPos, this`seekWrite, this`file
      ensures Valid() && YankedLines() == old(YankedLines()) && addr <= |old(Lines())|
      ensures var n := |Typed(input)|; ok == (n == |input| || input[n] == [] || IsPeriod(input[n]))
      ensures var k := if before && addr > 0 && !(ok && Typed(input) == []) then addr - 1 else addr;
        Lines() == Grafted(old(Lines()), k, Typed(input)) && currentAddr == k + |Typed(input)|
    {
      hide Valid, Lines, YankedLines, Spliced, Inserting, Grafted, State, Typed, LineEnd, IsPeriod, Circular;
      BufferFacts();
      ghost var text, k := Lines(), addr;
      SetCurrentAddr(addr);
      var insert, i := before, 0;
      assert input[0..] == input;
      ghost var lines := [];
      GraftNone(text, addr);
      while true
        invariant Valid() && YankedLines() == old(YankedLines()) && i <= |input|
        invariant 0 <= k <= |text| && insert == (before && i == 0) && k ==
          if before && addr > 0 && i > 0 then addr - 1 else addr
        invariant |lines| == i && lines + Typed(input[i..]) == Typed(input)
        invariant currentAddr == k + i && Lines() == Grafted(text, k, lines)
        invariant i > 0 ==> Inserting()
        decreases |input| - i
      {
        if i == |input| || input[i] == [] || IsPeriod(input[i]) {
          TypedStep(input, i);
          assert lines + [] == lines;
          return true;
        }
        BufferFacts();
        TypedStep(input, i);
        if insert {
          insert := false;
          GraftNone(text, addr);
          if currentAddr > 0 {
            SetCurrentAddr(currentAddr - 1);
            k := addr - 1;
          }
          GraftNone(text, k);
        }
        var added := PutSbufLine(input[i], i > 0);
        if !added {
          assert lines + [] == lines;
          return false;
        }
        GraftOneMore(text, k, lines, input[i][..LineEnd(input[i])]);
        lines := lines + [input[i][..LineEnd(input[i])]];
        i := i + 1;
      }
    }

    /** The text of a range of lines, read line by line. */
    method TextOfLines(from: int, upTo: int) returns (buf: string)
      requires Valid() && 1 <= from <= upTo <= lastAddr
      modifies this`cached, this`cachedAddr, this`filePos, this`scratchPos, this`seekWrite
      ensures Valid() && upTo <= |Lines()| && buf == Concatenated(Lines()[from - 1..upTo])
    {
      hide Valid, Lines, State, Circular, Text, Concatenated;
      BufferFacts();
      var ep := SearchLineNode(IncAddr(upTo));
      var bp := SearchLineNode(from);
      buf := [];
      ghost var i := from;
      ConcatenatedNone();
      assert Lines()[from - 1..from - 1] == [];
      while bp != ep
        invariant Valid() && Cursor() && from <= i <= upTo + 1 && |Lines()| == lastAddr
        invariant ep == Head(ring[upTo + 1..], ring) && bp == Head(ring[i..], ring)
        invariant buf == Concatenated(Lines()[from - 1..i - 1])
        decreases upTo + 1 - i
      {
        BufferFacts();
        RingEnds(i, upTo + 1);
        LineFacts(i);
        NotTheHead(i);
        ConcatenatedMore(Lines(), from - 1, i - 1);
        var s := GetSbufLine(bp);
        buf := buf + s.value;
        bp := mem[bp].forw;
        i := i + 1;
      }
      BufferFacts();
      RingEnds(i, upTo + 1);
    }

    /** Replaces a range of lines by one line that holds the text of all of them. */
    method JoinLines(from: int, upTo: int)
      requires Valid() && 1 <= from <= upTo <= lastAddr
      modifies this`cached, this`cachedAddr, this`currentAddr, this`lastAddr, this`ring, this`mem, this`steps,
               this`stack
      modifies this`modified, this`filePos, this`scratchPos, this`seekWrite, this`file, this`yank
      ensures Valid() && modified && currentAddr == from && upTo <= |old(Lines())|
      ensures Lines() == old(Lines())[..from - 1] + [Concatenated(old(Lines())[from - 1..upTo])] + old(Lines())[upTo..]
      ensures YankedLines() == old(Lines())[from - 1..upTo]
    {
      hide Valid, Lines, YankedLines, State, Circular, Inserting, Text, Concatenated;
      BufferFacts();
      ghost var text, joined := Lines(), Lines()[from - 1..upTo];
      var buf := TextOfLines(from, upTo);
      forall line | line in joined ensures '\n' !in line {
        var k :| 0 <= k < |joined| && joined[k] == line;
        LinesHaveNoLineEnd(from - 1 + k);
      }
      ConcatenatedLine(joined);
      buf := buf + "\n\0";
      DeleteLines(from, upTo);
      BufferFacts();
      SetCurrentAddr(from - 1);
      var ok := PutSbufLine(buf, false);
    }

    /** Records a move, and finds the nodes before and after the gap it leaves and before the one it
        moves to; the cursor is left at the first node whose link will change. */
    method RecordMove(first: int, second: int, addr: int) returns (b1: Line, a1: Line, b2: Line)
      requires Circular(mem, ring) && Cursor() && 1 <= first <= second <= lastAddr && 0 <= addr <= lastAddr
      modifies this`cached, this`cachedAddr, this`stack
      ensures Cursor() && cachedAddr == if addr < first then addr else first - 1
      ensures b1 == ring[first - 1] && a1 == Head(ring[second + 1..], ring) && b2 == ring[addr]
      ensures stack == old(stack) + [Atom(UMOV, b1, a1), Atom(UMOV, b2, Head(ring[addr + 1..], ring))]
    {
      hide Circular, Valid;
      var n, p := IncAddr(second), first - 1;
      PushUndoAtom(UMOV, p, n);
      PushUndoAtom(UMOV, addr, IncAddr(addr));
      a1 := SearchLineNode(n);
      if addr < first {
        b1 := SearchLineNode(p);
        b2 := SearchLineNode(addr);
      } else {
        b2 := SearchLineNode(addr);
        b1 := SearchLineNode(p);
      }
    }

    /** Moves the lines from first to second to after line addr, to somewhere else in the buffer. */
    method MoveElsewhere(first: int, second: int, addr: int)
      requires Valid() && 1 <= first <= second <= lastAddr && 0 <= addr <= lastAddr
      requires (addr < first - 1 || second < addr)
      modifies this`cached, this`cachedAddr, this`ring, this`mem, this`steps, this`stack
      ensures State(mem, ring, yank, steps, stack, origin, file, {}) && Cursor() && Undoable()
      ensures second <= |old(Lines())| && addr <= |old(Lines())|
      ensures Lines() == Relocated(old(Lines()), first, second, addr) && YankedLines() == old(YankedLines())
    {
      hide State, Circular, Texts, MoveOf, Step.New, Relocated, Transpose, Link, IncAddr;
      BufferFacts();
      LineFacts(addr);
      ghost var st: Step;
      if addr < first {
        st := MovedDown(mem, ring, yank, steps, stack, origin, file, first, second, addr);
      } else {
        st := MovedUp(mem, ring, yank, steps, stack, origin, file, first, second, addr);
      }
      var b1, a1, b2 := RecordMove(first, second, addr);
      mem := Transpose(mem, b1, a1, b2, mem[b2].forw);
      ring, steps := st.New(), steps + [st];
    }

    /** Moves the lines from first to second to after line addr, which does not lie between them. */
    method MoveLines(first: int, second: int, addr: int)
      requires Valid() && 1 <= first <= second <= lastAddr && 0 <= addr <= lastAddr && !(first <= addr < second)
      modifies this`cached, this`cachedAddr, this`currentAddr, this`ring, this`mem, this`steps, this`stack
      modifies this`modified
      ensures Valid() && modified && second <= |old(Lines())| && addr <= |old(Lines())|
      ensures Lines() == Relocated(old(Lines()), first, second, addr) && YankedLines() == old(YankedLines())
      ensures currentAddr == if addr < first - 1 then addr + second - first + 1
        else if addr == first - 1 then second else addr
    {
      hide State, Texts, Relocated;
      BufferFacts();
      if addr == first - 1 || addr == second {
        MoveNowhere(first, second, addr);
      } else {
        MoveAway(first, second, addr);
      }
      modified := true;
    }

    /** Moving lines to another place makes the last one of them the current one. */
    method MoveAway(first: int, second: int, addr: int)
      requires Valid() && 1 <= first <= second <= lastAddr && 0 <= addr <= lastAddr
      requires addr < first - 1 || second < addr
      modifies this`cached, this`cachedAddr, this`currentAddr, this`ring, this`mem, this`steps, this`stack
      ensures Valid() && second <= |old(Lines())| && addr <= |old(Lines())|
      ensures Lines() == Relocated(old(Lines()), first, second, addr) && YankedLines() == old(YankedLines())
      ensures currentAddr == addr + if addr < first then second - first + 1 else 0
    {
      hide State, Circular, Texts, Lines, YankedLines, Relocated;
      BufferFacts();
      MoveElsewhere(first, second, addr);
      currentAddr := addr + if addr < first then second - first + 1 else 0;
      assert Holds({});
    }

    /** Moving lines to where they are makes the last one of them the current one. */
    method MoveNowhere(first: int, second: int, addr: int)
      requires Valid() && 1 <= first <= second <= lastAddr && (addr == first - 1 || addr == second)
      modifies this`cached, this`cachedAddr, this`currentAddr
      ensures Valid() && currentAddr == second && second <= |Lines()| && addr <= |Lines()|
      ensures Lines() == old(Lines()) == Relocated(old(Lines()), first, second, addr)
      ensures YankedLines() == old(YankedLines())
    {
      hide State, Circular, Texts, Relocated;
      BufferFacts();
      RelocatedNowhere(Lines(), first, second, addr);
      var a2 := SearchLineNode(IncAddr(second));
      var b2 := SearchLineNode(first - 1);
      SetCurrentAddr(second);
    }

    /** Frees the nodes of a detached segment. */
    method FreeSegment(segHead: Line, segTail: Line, ghost prev: Line, ghost seg: seq<Line>, ghost next: Line)
      requires Dangling(mem, prev, seg, next) && next !in Elems(seg) && segHead == seg[0] && segTail == Last(seg)
      modifies this`mem
      ensures mem == old(mem) - Elems(seg)
    {
      assert forall i :: 0 <= i < |seg| ==> seg[i] in Elems(seg);
      var ep := mem[segTail].forw;
      var bp := segHead;
      ghost var i := 0;
      assert Elems(seg[..0]) == {};
      while bp != ep
        invariant i <= |seg| && bp == (if i < |seg| then seg[i] else next)
        invariant mem == old(mem) - Elems(seg[..i])
        decreases |seg| - i
      {
        assert seg[..i + 1] == seg[..i] + [seg[i]];
        ElemsOfSum(seg[..i], [seg[i]]);
        ElemsOfFew(seg[i]);
        var lp := mem[bp].forw;
        mem := mem - {bp};
        bp := lp;
        i := i + 1;
      }
      assert seg[..i] == seg;
    }

    /** Takes all entries off the undo stack, and frees the nodes that only undoing could bring back:
        all of them, each of them once, and no others. */
    method FreeDetached()
      requires State(mem, ring, yank, steps, stack, origin, file, {})
      modifies this`mem, this`stack
      ensures mem == old(mem) - GoneNodes(steps) && stack == []
    {
      hide State, GoneNodes, Clearing, Circular, Dangling, Distinct;
      ghost var past, s, freed := steps, ring, {};
      ClearBegins(mem, ring, yank, steps, stack, origin, file);
      while stack != []
        invariant Clearing(mem, past, s, stack) && mem == old(mem) - freed
        invariant freed !! GoneNodes(past) && freed + GoneNodes(past) == GoneNodes(steps)
        decreases |stack|
      {
        ghost var rest, s' := ClearStep(mem, past, s, stack);
        var atom := Top(stack);
        stack := Front(stack);
        if atom.kind == UDEL {
          ghost var st := Top(past);
          FreeSegment(atom.head, atom.tail, Last(st.a), st.seg, Head(st.c, st.a));
          freed := freed + Elems(st.seg);
        }
        past, s := rest, s';
      }
      ClearEnds(mem, past, s);
    }

    /** Forgets all edits: nothing but the buffer and the yanked lines is left. */
    method ForgetEdits()
      requires State(mem, ring, yank, steps, stack, origin, file, {})
      modifies this`mem, this`stack, this`steps, this`origin, this`saved
      ensures State(mem, ring, yank, steps, stack, origin, file, {}) && mem == old(mem) - GoneNodes(old(steps))
      ensures Lines() == old(Lines()) && YankedLines() == old(YankedLines())
      ensures stack == [] && steps == [] && origin == ring != [] && saved == Lines() == Texts(mem, file, origin[1..])
    {
      hide State, GoneNodes, Texts, Circular;
      Cleared(mem, ring, yank, steps, stack, origin, file);
      FreeDetached();
      steps, origin, saved := [], ring, Lines();
    }

    /** Forgets what can be undone: from now on, undoing leads back to the present state. */
    method ClearUndoStack()
      requires Valid()
      modifies this`mem, this`stack, this`undoCurrent, this`undoLast, this`undoModified, this`steps, this`origin,
               this`saved
      ensures Valid() && mem == old(mem) - GoneNodes(old(steps)) && stack == []
      ensures Lines() == old(Lines()) && YankedLines() == old(YankedLines())
      ensures steps == [] && origin == ring && saved == Lines()
      ensures undoCurrent == currentAddr && undoLast == lastAddr && undoModified == modified
    {
      hide State, GoneNodes, Texts, Lines, YankedLines;
      ForgetEdits();
      undoCurrent, undoLast, undoModified := currentAddr, lastAddr, modified;
    }

    /** Forgets what can be undone, and disables undoing until the next edit begins. */
    method ResetUndoState()
      requires Valid()
      modifies this`mem, this`stack, this`undoCurrent, this`undoLast, this`undoModified, this`steps, this`origin,
               this`saved
      ensures Valid() && mem == old(mem) - GoneNodes(old(steps)) && stack == []
      ensures Lines() == old(Lines()) && YankedLines() == old(YankedLines())
      ensures steps == [] && undoCurrent < 0 && undoLast < 0 && !undoModified
    {
      hide State;
      ClearUndoStack();
      undoCurrent, undoLast, undoModified := -1, -1, false;
    }

    /** Undoes the edit that entry n of the stack is the last to record, and makes its entries those
        of the inverse edit. */
    method UndoEntry(n: nat, ghost s: seq<Line>, ghost past: seq<Step>, ghost future: seq<Step>, ghost v: seq<Atom>,
                     ghost nodes: set<Line>) returns (below: int)
      requires n < |stack| && v == Reversed(stack[n + 1..])
      requires Midway(mem, s, yank, past, future, stack[..n + 1], v, nodes)
      modifies this`mem, this`stack
      ensures past != [] && SameData(old(mem), mem) && |stack| == old(|stack|) && -1 <= below < n
      ensures Midway(mem, Top(past).Old(), yank, Front(past), future + [Top(past).Inverse()],
                     stack[..below + 1], Reversed(stack[below + 1..]), nodes)
    {
      hide Midway, SameData, Step.Old, Step.Inverse, Transpose;
      ghost var u := stack[..n + 1];
      TopKind(mem, s, yank, past, future, u, v, nodes);
      below := n;
      match stack[n].kind {
        case UADD =>
          UndoneInsertion(mem, s, yank, past, future, u, v, nodes);
          mem := Link(mem, mem[stack[n].head].back, mem[stack[n].tail].forw);
        case UDEL =>
          UndoneDeletion(mem, s, yank, past, future, u, v, nodes);
          mem := Link(mem, mem[stack[n].head].back, stack[n].head);
          mem := Link(mem, stack[n].tail, mem[stack[n].tail].forw);
        case UMOV | VMOV =>
          UndoneMove(mem, s, yank, past, future, u, v, nodes);
          mem := Transpose(mem, stack[n].head, stack[n].tail, stack[n - 1].head, stack[n - 1].tail);
          below := below - 1;
      }
      stack := stack[below := stack[below].(kind := stack[below].kind.Flip())];
      UndoneEntries(u, stack, below, n, v);
      below := below - 1;
    }

    /** Undoes all recorded edits, last first; on the stack, each is replaced by its inverse. */
    method UndoEntries()
      requires State(mem, ring, yank, steps, stack, origin, file, {}) && steps != []
      modifies this`mem, this`stack
      ensures State(mem, origin, yank, Undone(steps), Reversed(stack), ring, file, {}) && SameData(old(mem), mem)
    {
      hide State, Midway, SameData, Undone, Step.Old, Step.Inverse;
      ghost var past, future, s := steps, [], ring;
      ghost var nodes := Known(steps, ring);
      var n := |stack| - 1;
      assert stack[..n + 1] == stack && Reversed(stack[n + 1..]) == [];
      UndoBegins(mem, ring, yank, steps, stack, origin, file);
      SameDataTrivially(mem);
      assert future + Undone(past) == Undone(past);
      while n >= 0
        invariant -1 <= n < |stack| && SameData(old(mem), mem)
        invariant Midway(mem, s, yank, past, future, stack[..n + 1], Reversed(stack[n + 1..]), nodes)
        invariant Undone(steps) == future + Undone(past)
      {
        ghost var m := mem;
        n := UndoEntry(n, s, past, future, Reversed(stack[n + 1..]), nodes);
        SameDataTwice(old(mem), m, mem);
        UndoneUnfolds(past);
        assert future + ([Top(past).Inverse()] + Undone(Front(past))) ==
          (future + [Top(past).Inverse()]) + Undone(Front(past));
        future, s, past := future + [Top(past).Inverse()], Top(past).Old(), Front(past);
      }
      assert stack[..0] == [] && stack[0..] == stack;
      UndoEnds(old(mem), mem, ring, s, yank, steps, past, future, old(stack), Reversed(stack), origin, file);
    }

    /** Reverses the order of the stack in place. */
    method ReverseStack()
      modifies this`stack
      ensures stack == Reversed(old(stack))
    {
      var n := 0;
      while 2 * n < |stack| - 1
        invariant |stack| == |old(stack)| && 2 * n <= |stack|
        invariant stack == Reversing(old(stack), n)
      {
        ReversedOneMore(old(stack), n);
        var tmp := stack[n];
        stack := stack[n := stack[|stack| - 1 - n]];
        stack := stack[|stack| - 1 - n := tmp];
        n := n + 1;
      }
      ReversedAll(old(stack), n);
    }

    /** Undoes all recorded edits: the links, the stack, and what they stand for. */
    method UndoLinks()
      requires Valid() && steps != []
      modifies this`mem, this`stack, this`cached, this`cachedAddr, this`ring, this`steps, this`origin, this`saved
      ensures State(mem, ring, yank, steps, stack, origin, file, {}) && SameData(old(mem), mem)
      ensures ring == old(origin) && origin == old(ring) && steps == Undone(old(steps))
      ensures ring != [] && ring[0] == head == cached && cachedAddr == 0
      ensures Lines() == old(saved) && saved == old(Lines()) && YankedLines() == old(YankedLines())
      ensures origin != [] && Texts(mem, file, origin[1..]) == saved
    {
      hide State, Texts, SameData, Circular, Undone;
      BufferFacts();
      var first := SearchLineNode(0);
      UndoTexts(mem, ring, yank, steps, stack, origin, file);
      UndoEntries();
      ReverseStack();
      ring, steps, origin, saved := origin, Undone(steps), ring, Lines();
    }

    /** Exchanges the addresses with those that were saved when the stack was cleared. */
    method ExchangeAddresses()
      requires State(mem, ring, yank, steps, stack, origin, file, {}) && yank[0] == yankHead
      requires ring != [] && ring[0] == head == cached && cachedAddr == 0
      requires 0 <= undoCurrent <= undoLast == |ring| - 1 && 0 <= currentAddr <= lastAddr == |origin| - 1
      requires scratchPos == filePos && (!seekWrite ==> filePos == |file|) && Texts(mem, file, origin[1..]) == saved
      modifies this`currentAddr, this`lastAddr, this`modified, this`undoCurrent, this`undoLast, this`undoModified
      ensures Valid()
      ensures currentAddr == old(undoCurrent) && lastAddr == old(undoLast) && modified == old(undoModified)
      ensures undoCurrent == old(currentAddr) && undoLast == old(lastAddr) && undoModified == old(modified)
    {
      hide State, Texts;
      currentAddr, undoCurrent := undoCurrent, currentAddr;
      lastAddr, undoLast := undoLast, lastAddr;
      modified, undoModified := undoModified, modified;
    }

    /** Undoes everything since the stack was cleared. The text and the addresses are again what
        they were then, and what undoing leaves on the stack is a history that leads back. */
    method Undo() returns (ok: bool)
      requires Valid()
      modifies this`mem, this`stack, this`cached, this`cachedAddr, this`ring, this`steps, this`origin, this`saved
      modifies this`currentAddr, this`lastAddr, this`modified, this`undoCurrent, this`undoLast, this`undoModified
      ensures Valid() && ok == (old(steps) != [] && old(undoCurrent) >= 0 && old(undoLast) >= 0)
      ensures ok ==> Lines() == old(saved) && saved == old(Lines()) && YankedLines() == old(YankedLines())
      ensures ok ==>
        ring == old(origin) && origin == old(ring) && steps == Undone(old(steps)) && SameData(old(mem), mem)
      ensures ok ==> currentAddr == old(undoCurrent) && lastAddr == old(undoLast) && modified == old(undoModified)
      ensures ok ==> undoCurrent == old(currentAddr) && undoLast == old(lastAddr) && undoModified == old(modified)
      ensures !ok ==> unchanged(this)
    {
      hide State, Texts, SameData, Circular, Undone, Lines, YankedLines;
      EmptyStack(mem, ring, yank, steps, stack, origin, file);
      if stack == [] || undoCurrent < 0 || undoLast < 0 {
        return false;
      }
      UndoLinks();
      ExchangeAddresses();
      return true;
    }

    /** Undoing twice restores the state as it was, down to every link in memory. The stack too is
        as before, but for which of the two marks of a move its entries carry. */
    method UndoTwice()
      requires Valid() && steps != [] && undoCurrent >= 0 && undoLast >= 0
      modifies this`mem, this`stack, this`cached, this`cachedAddr, this`ring, this`steps, this`origin, this`saved
      modifies this`currentAddr, this`lastAddr, this`modified, this`undoCurrent, this`undoLast, this`undoModified
      ensures Valid() && mem == old(mem) && SameEntries(stack, old(stack))
      ensures currentAddr == old(currentAddr) && lastAddr == old(lastAddr) && modified == old(modified)
      ensures undoCurrent == old(undoCurrent) && undoLast == old(undoLast) && undoModified == old(undoModified)
      ensures ring == old(ring) && steps == old(steps) && origin == old(origin) && saved == old(saved)
    {
      hide State, Texts, SameData, Circular, Undone, Lines, YankedLines, SameEntries;
      StepsWellFormed(mem, ring, yank, steps, stack, origin, file);
      UndoneTwice(steps);
      UndoneUnfolds(steps);
      ghost var m, u := mem, stack;
      var ok := Undo();
      ghost var m' := mem;
      ok := Undo();
      SameDataTwice(m, m', mem);
      SameState(m, mem, ring, yank, steps, stack, u, origin, file);
    }

    /** The address of a node of the buffer. For a node that is not in the buffer this is negative,
        except that an empty buffer gives 0. */
    method GetLineNodeAddr(lp: Line) returns (addr: int)
      requires Circular(mem, ring) && ring[0] == head
      ensures forall i :: 0 <= i < |ring| && ring[i] == lp ==> addr == i
      ensures lp !in ring ==> addr == if |ring| == 1 then 0 else -1
    {
      assert forall i :: 0 <= i < |ring| ==> ring[i] in Elems(ring);
      var p := head;
      addr := 0;
      var looking := p != lp;
      while looking
        invariant 0 <= addr < |ring| && p == ring[addr]
        invariant forall i :: 0 <= i < addr ==> ring[i] != lp
        invariant looking == (p != lp)
        decreases |ring| - addr
      {
        assert mem[p].forw == if addr + 1 < |ring| then ring[addr + 1] else ring[0];
        p := mem[p].forw;
        if p == head {
          return if addr > 0 then -1 else addr;
        }
        addr := addr + 1;
        looking := p != lp;
      }
    }
  }
}
