/** Ring buffers of bytes, filled by interrupts. */
module CharBuffers {
  import opened Bytes
  import opened Powers

  /** The cell i cells behind cell r, in a ring of n cells. */
  function Cell(r: nat, i: nat, n: nat): nat {
    if r + i < n then r + i else if r + i < 2 * n then r + i - n else r + i - 2 * n
  }

  /** The bytes of a ring, count of them from position rptr on. */
  ghost function RingBytes(buf: seq<Byte>, rptr: nat, count: nat): (s: seq<Byte>)
    requires rptr < |buf| && count <= |buf| + 1
    ensures |s| == count
  {
    seq(count, i requires 0 <= i < count => buf[Cell(rptr, i, |buf|)])
  }

  lemma Wrap(p: nat, n: nat)
    requires p < n
    ensures (p + 1) % n == Cell(p, 1, n)
  {
  }

  /** A byte is stored behind the others. */
  lemma RingWritten(buf: seq<Byte>, rptr: nat, count: nat, b: Byte)
    requires rptr < |buf| && count < |buf|
    ensures RingBytes(buf[Cell(rptr, count, |buf|) := b], rptr, count + 1) == RingBytes(buf, rptr, count) + [b]
  {
  }

  /** What a ring of n cells holds of the bytes that were written into it: all of them, or when there are more
      than cells, as many as there are cells and one more; that one has taken the place of the first. */
  function Kept(all: seq<Byte>, n: nat): seq<Byte> {
    if |all| <= n then all else [all[n]] + all[1..n + 1]
  }

  lemma KeptAll(all: seq<Byte>, n: nat)
    ensures |all| <= n ==> Kept(all, n) == all
  {
  }

  /** Writing goes on from what the ring holds. */
  lemma KeptMore(all: seq<Byte>, more: seq<Byte>, n: nat)
    requires 0 < n
    ensures Kept(Kept(all, n) + more, n) == Kept(all + more, n)
  {
    if |all| > n {
      var kept := Kept(all, n);
      assert (kept + more)[1..n + 1] == all[1..n + 1] == (all + more)[1..n + 1];
    }
  }

  /** A byte is stored behind the others, over the first one when the ring is full. */
  lemma RingOverwritten(buf: seq<Byte>, rptr: nat, b: Byte)
    requires rptr < |buf|
    ensures var all := RingBytes(buf, rptr, |buf|) + [b];
      RingBytes(buf[Cell(rptr, |buf|, |buf|) := b], rptr, |buf| + 1) == Kept(all, |buf|)
  {
  }

  /** A ring that holds one byte more than it has cells has the same first and last byte. */
  lemma RingOverfull(buf: seq<Byte>, rptr: nat, count: nat)
    requires rptr < |buf| && count <= |buf| + 1
    ensures Kept(RingBytes(buf, rptr, count), |buf|) == RingBytes(buf, rptr, count)
  {
    var all := RingBytes(buf, rptr, count);
    if count > |buf| {
      assert all[|buf|] == all[0];
      assert all == [all[0]] + all[1..|buf| + 1];
    }
  }

  /** The first byte is taken out. */
  lemma RingRead(buf: seq<Byte>, rptr: nat, count: nat)
    requires rptr < |buf| && 0 < count <= |buf| + 1
    ensures buf[rptr] == RingBytes(buf, rptr, count)[0]
    ensures RingBytes(buf, Cell(rptr, 1, |buf|), count - 1) == RingBytes(buf, rptr, count)[1..]
  {
  }

  class CharBuffer {
    const logsize: nat
    const buf: array<Byte>
    var wptr: nat
    var rptr: nat
    var count: nat

    /** The size is a power of two. */
    ghost predicate Valid()
      reads this
    {
      && buf.Length == Pow2(logsize) && rptr < buf.Length && count <= buf.Length + 1
      && wptr == Cell(rptr, count, buf.Length)
    }

    /** There are not more bytes than cells. */
    ghost predicate InOrder()
      reads this
    {
      Valid() && count <= buf.Length
    }

    /** The bytes that have not been read. */
    ghost function Contents(): (s: seq<Byte>)
      requires Valid()
      reads this, buf
      ensures |s| == count
    {
      RingBytes(buf[..], rptr, count)
    }

    constructor (logsize: nat)
      requires 0 < logsize < 16
      ensures InOrder() && Contents() == [] && fresh(buf) && this.logsize == logsize
    {
      this.logsize := logsize;
      buf := new Byte[Pow2(logsize)](i => 0);
      wptr, rptr, count := 0, 0, 0;
    }

    /** Nothing is written. */
    lemma NothingWritten()
      requires Valid()
      ensures Kept(Contents(), buf.Length) == Contents()
    {
      RingOverfull(buf[..], rptr, count);
    }

    /** Writes a byte. It is refused only when there are more bytes than cells: into a full ring one more
        is written, over the first one, and the ring is not in order any more. */
    method Write(data: Byte) returns (ok: bool)
      requires Valid()
      modifies this, buf
      ensures Valid() && ok == (old(count) <= buf.Length) && count == (if ok then old(count) + 1 else old(count))
      ensures old(InOrder()) ==> (InOrder() <==> old(count) < buf.Length)
      ensures Contents() == Kept(old(Contents()) + [data], buf.Length)
    {
      if count > buf.Length {
        NothingWritten();
        assert (Contents() + [data])[1..count] == Contents()[1..count];
        return false;
      }
      ghost var before := buf[..];
      buf[wptr] := data;
      assert buf[..] == before[wptr := data];
      if count < buf.Length {
        RingWritten(before, rptr, count, data);
      } else {
        RingOverwritten(before, rptr, data);
      }
      Wrap(wptr, buf.Length);
      wptr := (wptr + 1) % buf.Length;
      count := count + 1;
      return true;
    }

    /** Reads the first byte. */
    method Read() returns (ok: bool, data: Byte)
      requires Valid()
      modifies this
      ensures Valid() && ok == (old(count) > 0) && (old(InOrder()) ==> InOrder())
      ensures ok ==> old(Contents()) == [data] + Contents()
      ensures !ok ==> count == 0
    {
      if count == 0 {
        return false, 0;
      }
      RingRead(buf[..], rptr, count);
      data := buf[rptr];
      count := count - 1;
      Wrap(rptr, buf.Length);
      rptr := (rptr + 1) % buf.Length;
      return true, data;
    }

    /** Marks the buffer as empty. */
    method Flush()
      requires Valid()
      modifies this
      ensures InOrder() && Contents() == []
    {
      rptr, wptr, count := 0, 0, 0;
    }
  }
}
