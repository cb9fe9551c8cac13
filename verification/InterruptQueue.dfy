/** The queue between interrupts and the Lua hook that serves them. */
module InterruptQueue {
  import opened BinBits

  const SLOTS := 32
  const EMPTY_SLOT := 0
  const FIRST_ID := 1
  const MAX_SOURCES := 128

  datatype Element = Element(id: nat, resnum: nat)

  /** What may happen between two steps of the hook, and while a Lua handler runs. */
  datatype Event = Interrupt(id: nat, resnum: nat) | Enable(id: nat) | Disable(id: nat)

  /** How far slot s is behind slot head, around the ring. */
  function Distance(head: nat, s: nat): nat
    requires head < SLOTS && s < SLOTS
  {
    if s >= head then s - head else s + SLOTS - head
  }

  /** The slots from head on hold the pending interrupts, and the others are empty. */
  ghost predicate Holds(queue: seq<Element>, head: nat, pending: seq<Element>) {
    && |queue| == SLOTS && head < SLOTS && |pending| <= SLOTS
    && forall s :: 0 <= s < SLOTS ==>
      if Distance(head, s) < |pending| then queue[s] == pending[Distance(head, s)] && queue[s].id != EMPTY_SLOT
      else queue[s].id == EMPTY_SLOT
  }

  /** An interrupt goes into the slot behind the pending ones, if that is empty, and it is just when
      there are fewer than there are slots. */
  lemma HoldsMore(queue: seq<Element>, head: nat, pending: seq<Element>, e: Element)
    requires Holds(queue, head, pending)
    ensures var w := (head + |pending|) % SLOTS;
      && w < SLOTS && (queue[w].id == EMPTY_SLOT <==> |pending| < SLOTS)
      && (w + 1) % SLOTS == (head + |pending| + 1) % SLOTS
      && (|pending| < SLOTS && e.id != EMPTY_SLOT ==> Holds(queue[w := e], head, pending + [e]))
  {
  }

  /** Emptying the first slot takes the first pending interrupt. */
  lemma HoldsLess(queue: seq<Element>, head: nat, pending: seq<Element>)
    requires Holds(queue, head, pending) && pending != []
    ensures queue[head] == pending[0]
    ensures Holds(queue[head := queue[head].(id := EMPTY_SLOT)], (head + 1) % SLOTS, pending[1..])
    ensures ((head + 1) % SLOTS + |pending[1..]|) % SLOTS == (head + |pending|) % SLOTS
  {
  }

  /** Is the flag of interrupt id set? */
  ghost predicate Flagged(flags: seq<bv32>, id: nat) {
    id < MAX_SOURCES && id / 32 < |flags| && Marked(flags[id / 32], id % 32)
  }

  ghost predicate OnlyInterrupts(events: seq<Event>) {
    forall k :: 0 <= k < |events| ==> events[k].Interrupt?
  }

  class Interrupts {
    // The largest interrupt number of the platform
    const lastId: nat
    const queue: array<Element>
    const flags: array<bv32>
    var readIdx: nat
    var writeIdx: nat
    // Is there a Lua state, and is the hook set in it?
    var luaRunning: bool
    var armed: bool
    // The interrupts in the queue, from slot head on; all that were accepted, and all that were taken out
    ghost var pending: seq<Element>
    ghost var head: nat
    ghost var accepted: seq<Element>
    ghost var consumed: seq<Element>

    ghost predicate Valid()
      reads this`writeIdx, this`armed, this`pending, this`head, this`accepted, this`consumed, queue
    {
      && flags.Length == MAX_SOURCES / 32 && queue.Length == SLOTS && head < SLOTS && Holds(queue[..], head, pending)
      && writeIdx == (head + |pending|) % SLOTS
      && accepted == consumed + pending && (pending != [] ==> armed)
    }

    /** No activation of the hook is running: it is set if and only if an interrupt is pending. */
    ghost predicate Idle()
      reads this, queue
    {
      Valid() && readIdx == head && (armed <==> pending != [])
    }

    constructor (lastId: nat)
      ensures Idle() && accepted == [] && this.lastId == lastId && luaRunning && forall id :: !Enabled(id)
      ensures fresh(queue) && fresh(flags)
    {
      this.lastId := lastId;
      queue := new Element[SLOTS](i => Element(EMPTY_SLOT, 0));
      flags := new bv32[MAX_SOURCES / 32](i => 0);
      readIdx, writeIdx, luaRunning, armed := 0, 0, true, false;
      pending, head, accepted, consumed := [], 0, [], [];
      new;
      forall id: nat ensures !Enabled(id) {
        MarkedNone(id % 32);
      }
    }

    /** Is interrupt id enabled? */
    ghost predicate Enabled(id: nat)
      reads flags
    {
      Flagged(flags[..], id)
    }

    method IsEnabled(id: nat) returns (r: bool)
      requires flags.Length == MAX_SOURCES / 32
      ensures r == Enabled(id)
    {
      if id < MAX_SOURCES {
        Tested(flags[id / 32], id % 32);
        return Test(flags[id / 32], BitOf(id % 32));
      }
      return false;
    }

    method SetEnabled(id: nat)
      requires flags.Length == MAX_SOURCES / 32
      modifies flags
      ensures forall i :: Enabled(i) == (old(Enabled(i)) || (i == id && id < MAX_SOURCES))
    {
      if id < MAX_SOURCES {
        flags[id / 32] := Mark(flags[id / 32], BitOf(id % 32));
        forall i: nat | i < MAX_SOURCES ensures Enabled(i) == (old(Enabled(i)) || i == id) {
          MarkedAfter(old(flags[id / 32]), id % 32, i % 32);
        }
      }
    }

    method SetDisabled(id: nat)
      requires flags.Length == MAX_SOURCES / 32
      modifies flags
      ensures forall i :: Enabled(i) == (old(Enabled(i)) && !(i == id && id < MAX_SOURCES))
    {
      if id < MAX_SOURCES {
        flags[id / 32] := Clear(flags[id / 32], BitOf(id % 32));
        forall i: nat | i < MAX_SOURCES ensures Enabled(i) == (old(Enabled(i)) && i != id) {
          MarkedAfter(old(flags[id / 32]), id % 32, i % 32);
        }
      }
    }

    /** Queues an interrupt and sets the hook. */
    method Add(inttype: nat, resnum: nat) returns (ok: bool)
      requires Valid()
      modifies this`writeIdx, this`armed, this`pending, this`accepted, queue
      ensures Valid() && (old(Idle()) ==> Idle())
      ensures ok == (FIRST_ID <= inttype <= lastId && luaRunning && old(Enabled(inttype)) && old(|pending|) < SLOTS)
      ensures var e := if ok then [Element(inttype, resnum)] else [];
        pending == old(pending) + e && accepted == old(accepted) + e && armed == (old(armed) || ok)
    {
      hide Holds;
      if inttype < FIRST_ID || inttype > lastId {
        return false;
      }
      var enabled := IsEnabled(inttype);
      if !luaRunning || !enabled {
        return false;
      }
      HoldsMore(queue[..], head, pending, Element(inttype, resnum));
      if queue[writeIdx].id != EMPTY_SLOT {
        return false;
      }
      queue[writeIdx] := Element(inttype, resnum);
      pending := pending + [Element(inttype, resnum)];
      accepted := accepted + [Element(inttype, resnum)];
      writeIdx := (writeIdx + 1) % SLOTS;
      armed := true;
      return true;
    }

    /** What happens between two steps of the hook. */
    method Interrupted(events: seq<Event>)
      requires Valid()
      modifies this`writeIdx, this`armed, this`pending, this`accepted, queue, flags
      ensures Valid() && old(pending) <= pending && (old(armed) ==> armed) && (old(Idle()) ==> Idle())
      ensures OnlyInterrupts(events) ==> flags[..] == old(flags[..])
    {
      hide Holds;
      for k := 0 to |events|
        invariant Valid() && old(pending) <= pending && (old(armed) ==> armed) && (old(Idle()) ==> Idle())
        invariant OnlyInterrupts(events) ==> flags[..] == old(flags[..])
      {
        match events[k] {
          case Interrupt(id, resnum) => var ok := Add(id, resnum);
          case Enable(id) => SetEnabled(id);
          case Disable(id) => SetDisabled(id);
        }
      }
    }

    /** An activation of the hook, with whatever happens between its steps: takes exactly the first
        interrupt of the queue, whose handler is called if it is still enabled then. The hook stays set
        if and only if there are others. */
    method Hook(before: seq<seq<Event>>, during: seq<Event>) returns (crt: Element, called: bool)
      requires Idle() && armed && |before| == 4
      modifies this`readIdx, this`writeIdx, this`armed, this`pending, this`head, this`accepted, this`consumed, queue,
               flags
      ensures Idle() && crt == old(pending)[0] && consumed == old(consumed) + [crt] && old(pending)[1..] <= pending
      ensures OnlyInterrupts(before[0]) && OnlyInterrupts(before[1]) && OnlyInterrupts(before[2]) ==>
        called == old(Enabled(crt.id))
    {
      hide Holds, Flagged, Valid, OnlyInterrupts;
      Start();
      crt := Next();
      Interrupted(before[0]);
      EmptySlot();
      Interrupted(before[1]);
      readIdx := (readIdx + 1) % SLOTS;
      Interrupted(before[2]);
      called := IsEnabled(crt.id);
      if called {
        Interrupted(during);
      }
      Interrupted(before[3]);
      Disarm();
    }

    lemma Start()
      requires Valid()
      ensures flags.Length == MAX_SOURCES / 32
    {
    }

    /** The last step of the hook, with interrupts off: the hook is cleared when the queue is empty. */
    method Disarm()
      requires Valid() && readIdx == head && armed
      modifies this`armed
      ensures Idle()
    {
      hide Holds;
      FirstSlot(queue[..], head, pending);
      if queue[readIdx].id == EMPTY_SLOT {
        armed := false;
      }
    }

    /** The interrupt that is served next. */
    method Next() returns (crt: Element)
      requires Idle() && armed
      ensures pending != [] && crt == pending[0]
    {
      hide Holds;
      FirstSlot(queue[..], head, pending);
      crt := queue[readIdx];
    }

    /** Takes the first interrupt out of the queue, before the index moves on. */
    method EmptySlot()
      requires Valid() && readIdx == head && pending != []
      modifies this`pending, this`head, this`consumed, queue
      ensures flags[..] == old(flags[..])
      ensures Valid() && head == (readIdx + 1) % SLOTS && pending == old(pending)[1..]
      ensures consumed == old(consumed) + [old(pending)[0]]
    {
      hide Holds;
      HoldsLess(queue[..], head, pending);
      queue[readIdx] := queue[readIdx].(id := EMPTY_SLOT);
      pending, head, consumed := pending[1..], (head + 1) % SLOTS, consumed + [pending[0]];
    }

    /** Empties the queue and disables all interrupts, when the Lua state is closed. */
    method Cleanup()
      requires Valid()
      modifies this, queue, flags
      ensures Idle() && pending == [] && consumed == old(consumed) && forall id :: !Enabled(id)
    {
      for i := 0 to flags.Length
        modifies flags
        invariant forall j :: 0 <= j < i ==> flags[j] == 0
      {
        flags[i] := 0;
      }
      readIdx, writeIdx := 0, 0;
      forall i | 0 <= i < queue.Length {
        queue[i] := Element(EMPTY_SLOT, EMPTY_SLOT);
      }
      // The hook was one of the state that is closed
      luaRunning, armed := false, false;
      pending, head, accepted := [], 0, consumed;
      forall id: nat ensures !Enabled(id) {
        MarkedNone(id % 32);
      }
    }
  }

  /** The first slot is empty if and only if no interrupt is pending. */
  lemma FirstSlot(queue: seq<Element>, head: nat, pending: seq<Element>)
    requires Holds(queue, head, pending)
    ensures queue[head].id == EMPTY_SLOT <==> pending == []
    ensures pending != [] ==> queue[head] == pending[0]
  {
  }
}
