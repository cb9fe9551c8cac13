/** The receiving side of the XMODEM protocol. */
module Xmodem {
  import opened Bytes
  import opened Crc

  const SOH := 0x01
  const STX := 0x02
  const EOT := 0x04
  const ACK: Byte := 0x06
  const NAK: Byte := 0x15
  const CAN: Byte := 0x18
  const START: Byte := 0x43
  const RETRY_LIMIT := 20
  const INITIAL_BUFFER_SIZE := 4096
  const INCREMENT_AMOUNT := 4096
  const ERROR_REMOTECANCEL := -1
  const ERROR_RETRYEXCEED := -3
  const ERROR_OUTOFMEM := -4

  /** What arrives: bytes, and times in which none does. */
  type Arrival = c: int | -1 <= c < 0x100

  type Arrivals = seq<Arrival>

  /** The bytes among what arrives from one moment to another. */
  ghost function Gathered(chars: Arrivals, lo: nat, hi: nat): seq<Byte>
    requires hi <= |chars|
    decreases hi
  {
    if hi <= lo then [] else Gathered(chars, lo, hi - 1) + Arrived(chars[hi - 1])
  }

  function Arrived(c: Arrival): seq<Byte> {
    if c == -1 then [] else [c]
  }

  /** Do the last two bytes hold the check sum of the data? */
  predicate Checked(data: seq<Byte>, hi: Byte, lo: Byte) {
    Holds(Check(DataBits(data)), hi as bv8, lo as bv8)
  }

  /** A record of the given number: the number, its complement, the data, and the check sum. */
  predicate GoodRecord(record: seq<Byte>, number: Byte) {
    && |record| >= 4 && record[0] == number && record[1] == 0xFF - number
    && Checked(record[2..|record| - 2], record[|record| - 2], record[|record| - 1])
  }

  function DataOf(record: seq<Byte>): seq<Byte> {
    if |record| < 4 then [] else record[2..|record| - 2]
  }

  /** The data of all records. */
  ghost function AllData(records: seq<seq<Byte>>): seq<Byte> {
    if records == [] then [] else AllData(records[..|records| - 1]) + DataOf(records[|records| - 1])
  }

  /** The number of record i, which is one more than that of the one before; 255 is followed by 0. */
  function NumberOf(i: nat): Byte {
    (i + 1) % 0x100
  }

  /** A record that was taken: the bytes that have arrived in some time. */
  datatype Taken = Taken(lo: nat, hi: nat, record: seq<Byte>)

  /** The records are numbered one after the other, their check sums are right, and they have arrived in order. */
  ghost predicate InOrder(chars: Arrivals, taken: seq<Taken>, end: nat) {
    && end <= |chars|
    && (forall i :: 0 <= i < |taken| ==> TakenAt(chars, taken[i], NumberOf(i)) && taken[i].hi <= end)
    && (forall i, j :: 0 <= i < j < |taken| ==> taken[i].hi <= taken[j].lo)
  }

  ghost predicate TakenAt(chars: Arrivals, t: Taken, number: Byte) {
    && t.lo <= t.hi <= |chars| && t.record == Gathered(chars, t.lo, t.hi) && GoodRecord(t.record, number)
    && |t.record| in {128 + 4, 1024 + 4}
  }

  /** All records have arrived from moment lo on. */
  ghost predicate TakenFrom(taken: seq<Taken>, lo: nat) {
    forall t :: t in taken ==> lo <= t.lo
  }

  ghost function Records(taken: seq<Taken>): seq<seq<Byte>> {
    seq(|taken|, i requires 0 <= i < |taken| => taken[i].record)
  }

  /** Bytes arrive at n moments in a row. */
  ghost predicate Solid(chars: Arrivals, pos: nat, n: nat) {
    pos + n <= |chars| && forall i :: pos <= i < pos + n ==> chars[i] != -1
  }

  /** A record of bytes arrives from some moment on, and nothing right behind it. */
  ghost predicate ArrivesAt(chars: Arrivals, pos: nat, record: seq<Byte>) {
    && pos + |record| < |chars| && (forall i :: 0 <= i < |record| ==> chars[pos + i] == record[i])
    && chars[pos + |record|] == -1
  }

  /** The byte in front of a record, which tells its length. */
  function MarkOf(record: seq<Byte>): Arrival {
    if |record| == 128 + 4 then SOH else STX
  }

  /** The records arrive one after the other, each with its mark in front; and then the mark of the end, or nothing
      but what is refused. Before a mark there may be silence or other bytes, as far as the patience of the receiver
      allows. The first record has number i. */
  ghost predicate Arrives(chars: Arrivals, pos: nat, patience: nat, records: seq<seq<Byte>>, ends: bool, i: nat)
    decreases |chars| - pos
  {
    if records == [] && !ends then Wasted(chars, pos, patience, NumberOf(i))
    else
      && patience > 0 && pos < |chars|
      && if chars[pos] !in {SOH, STX, EOT, CAN} then Arrives(chars, pos + 1, patience - 1, records, ends, i)
         else if records == [] then chars[pos] == EOT
         else
           && chars[pos] == MarkOf(records[0]) && ArrivesAt(chars, pos + 1, records[0])
           && Arrives(chars, pos + |records[0]| + 2, RETRY_LIMIT, records[1..], ends, i + 1)
  }

  /** Until the patience of the receiver is used up, nothing arrives but silence, bytes that are not the mark of
      anything, and records that are not the one of the given number, or not right. */
  ghost predicate Wasted(chars: Arrivals, pos: nat, patience: nat, number: Byte)
    decreases patience
  {
    || patience == 0 || pos >= |chars|
    || if chars[pos] !in {SOH, STX, EOT, CAN} then Wasted(chars, pos + 1, patience - 1, number)
       else
         var n := SizeFor(chars[pos]);
         && chars[pos] in {SOH, STX} && Solid(chars, pos + 1, n + 4)
         && !GoodRecord(Gathered(chars, pos + 1, pos + n + 5), number)
         && Wasted(chars, pos + n + 5, patience - 1, number)
  }

  /** The number of bytes of data in a record with this mark. */
  function SizeFor(mark: Arrival): nat {
    if mark == SOH then 128 else 1024
  }

  /** A record arrives again and again, with silence behind it. */
  ghost predicate Copies(chars: Arrivals, pos: nat, times: nat, record: seq<Byte>)
    decreases times
  {
    times > 0 ==>
      && pos < |chars| && chars[pos] == MarkOf(record) && ArrivesAt(chars, pos + 1, record)
      && Copies(chars, pos + |record| + 2, times - 1, record)
  }

  /** The records are right, and numbered one after the other from the given one on. */
  ghost predicate Sendable(records: seq<seq<Byte>>, first: nat) {
    forall i :: 0 <= i < |records| ==>
      GoodRecord(records[i], NumberOf(first + i)) && |records[i]| in {128 + 4, 1024 + 4}
  }

  /** What arrives without a break is gathered. */
  lemma {:induction false} GatheredSolid(chars: Arrivals, pos: nat, record: seq<Byte>, n: nat)
    requires ArrivesAt(chars, pos, record) && n <= |record|
    ensures Gathered(chars, pos, pos + n) == record[..n]
  {
    if n > 0 {
      GatheredSolid(chars, pos, record, n - 1);
      assert chars[pos + (n - 1)] == record[n - 1] && record[..n] == record[..n - 1] + [record[n - 1]];
    }
  }

  /** A record that arrives without a break. */
  lemma SolidRecord(chars: Arrivals, pos: nat, record: seq<Byte>)
    requires ArrivesAt(chars, pos, record)
    ensures Solid(chars, pos, |record|) && Gathered(chars, pos, pos + |record|) == record
    ensures pos + |record| < |chars| && chars[pos + |record|] == -1
  {
    GatheredSolid(chars, pos, record, |record|);
    assert record[..|record|] == record;
    forall i | pos <= i < pos + |record| ensures chars[i] != -1 {
      assert chars[pos + (i - pos)] == record[i - pos];
    }
  }

  lemma OneMoreRecord(records: seq<seq<Byte>>, k: nat)
    requires k < |records|
    ensures AllData(records[..k + 1]) == AllData(records[..k]) + DataOf(records[k])
  {
    var some := records[..k + 1];
    assert some[..k] == records[..k];
    hide DataOf;
  }

  /** The first records do not have more data than all of them. */
  lemma {:induction false} SizeOfSome(records: seq<seq<Byte>>, k: nat)
    requires k <= |records|
    ensures |AllData(records[..k])| <= |AllData(records)|
    decreases |records| - k
  {
    if k < |records| {
      OneMoreRecord(records, k);
      hide AllData, DataOf;
      SizeOfSome(records, k + 1);
    } else {
      assert records[..k] == records;
    }
  }

  lemma MoreRecords(taken: seq<Taken>, t: Taken)
    ensures AllData(Records(taken + [t])) == AllData(Records(taken)) + DataOf(t.record)
  {
    var all := Records(taken + [t]);
    assert all[..|all| - 1] == Records(taken);
  }

  class Line {
    const chars: Arrivals
    var pos: nat
    var sent: seq<Byte>

    ghost predicate Valid()
      reads this
    {
      pos <= |chars|
    }

    /** Bytes have arrived from moment lo on, and then nothing. */
    ghost predicate Quiet(lo: nat)
      reads this
    {
      || (lo < pos <= |chars| && Solid(chars, lo, pos - 1 - lo) && chars[pos - 1] == -1)
      || (lo <= pos == |chars| && Solid(chars, lo, pos - lo))
    }

    constructor (chars: Arrivals)
      ensures Valid() && this.chars == chars && pos == 0 && sent == []
    {
      this.chars, pos, sent := chars, 0, [];
    }

    /** The next byte; -1 when none arrives in time. */
    method In() returns (ch: Arrival)
      requires Valid()
      modifies this`pos
      ensures Valid()
      ensures old(pos) < |chars| ==> pos == old(pos) + 1 && ch == chars[old(pos)]
      ensures old(pos) == |chars| ==> pos == old(pos) && ch == -1
    {
      if pos == |chars| {
        return -1;
      }
      ch := chars[pos];
      pos := pos + 1;
    }

    method Out(b: Byte)
      modifies this`sent
      ensures sent == old(sent) + [b]
    {
      sent := sent + [b];
    }

    /** Drops what arrives until nothing does; tells the other side to give up, if that is wanted. */
    method Flush(cancel: bool)
      requires Valid()
      modifies this
      ensures Valid() && old(pos) <= pos && sent == if cancel then old(sent) + [CAN, CAN, CAN] else old(sent)
      ensures Quiet(old(pos))
    {
      var ch := In();
      while ch != -1
        invariant Valid() && old(pos) <= pos && sent == old(sent)
        invariant if ch == -1 then Quiet(old(pos)) else Solid(chars, old(pos), pos - old(pos))
        decreases |chars| - pos, ch
      {
        ch := In();
      }
      if cancel {
        Out(CAN);
        Out(CAN);
        Out(CAN);
      }
    }

    /** Reads a record of n bytes of data. It is taken just when all of it arrives, it has the number that is
        due, and its check sum is right; otherwise it is asked for again. */
    method GetRecord(blocknum: Byte, buf: array<Byte>, n: nat) returns (ok: bool, ghost all: bool)
      requires Valid() && n in {128, 1024} && buf.Length == 1024 + 4
      modifies this, buf
      ensures Solid(chars, old(pos), n + 4) ==> all && pos == old(pos) + n + 4
      ensures Valid() && old(pos) <= pos && sent == if ok then old(sent) else old(sent) + [NAK]
      ensures all ==> buf[..n + 4] == Gathered(chars, old(pos), pos)
      ensures ok <==> all && GoodRecord(buf[..n + 4], blocknum)
    {
      var j := 0;
      all := false;
      while j < n + 4
        invariant Valid() && old(pos) <= pos && j <= n + 4 && sent == old(sent)
        invariant buf[..j] == Gathered(chars, old(pos), pos)
        invariant Solid(chars, old(pos), n + 4) ==> pos == old(pos) + j
      {
        var ch := In();
        if ch == -1 {
          ch := In();
          if ch == -1 {
            Out(NAK);
            return false, false;
          }
        }
        buf[j] := ch;
        j := j + 1;
      }
      all := true;
      ok := Matches(blocknum, buf, n);
      if !ok {
        Out(NAK);
      }
    }
  }

  /** Compares the number, its complement and the check sum of a record. */
  method Matches(blocknum: Byte, buf: array<Byte>, n: nat) returns (ok: bool)
    requires buf.Length >= n + 4
    ensures ok == GoodRecord(buf[..n + 4], blocknum)
  {
    hide Check, DataBits, Low, Holds;
    ghost var record := buf[..n + 4];
    assert record[2..|record| - 2] == buf[2..2 + n];
    if buf[0] != blocknum {
      return false;
    }
    if buf[1] != 0xFF - blocknum {
      return false;
    }
    var chk := CheckSum(buf, 2, n);
    ok := SameSum(chk, buf[2 + n], buf[3 + n]);
  }

  /** Compares a check sum with two bytes. */
  method SameSum(chk: bv32, hi: Byte, lo: Byte) returns (ok: bool)
    ensures ok == Holds(Low(chk), hi as bv8, lo as bv8)
  {
    var h, l := hi as bv8, lo as bv8;
    UpperSum(chk, h);
    LowerSum(chk, l);
    assert Holds(Low(chk), h, l) == (Low(chk) >> 8 == h as bv16 && Low(chk) & 0xFF == l as bv16);
    hide *;
    ok := h as bv32 == (chk >> 8) & 0xFF && l as bv32 == chk & 0xFF;
  }

  /** The upper and the lower byte of a check sum. */
  predicate Holds(sum: bv16, hi: bv8, lo: bv8) {
    sum >> 8 == hi as bv16 && sum & 0xFF == lo as bv16
  }

  lemma UpperSum(chk: bv32, b: bv8)
    ensures b as bv32 == (chk >> 8) & 0xFF <==> Low(chk) >> 8 == b as bv16
  {
  }

  lemma LowerSum(chk: bv32, b: bv8)
    ensures b as bv32 == chk & 0xFF <==> Low(chk) & 0xFF == b as bv16
  {
  }

  /** How often the sender was told that all is well. */
  ghost function Acks(sent: seq<Byte>): nat {
    if sent == [] then 0 else Acks(sent[..|sent| - 1]) + if sent[|sent| - 1] == ACK then 1 else 0
  }

  lemma AcksMore(sent: seq<Byte>, b: Byte)
    ensures Acks(sent + [b]) == Acks(sent) + if b == ACK then 1 else 0
  {
    assert (sent + [b])[..|sent + [b]| - 1] == sent;
  }

  lemma AcksCancelled(sent: seq<Byte>)
    ensures Acks(sent + [CAN, CAN, CAN]) == Acks(sent)
  {
    AcksMore(sent, CAN);
    AcksMore(sent + [CAN], CAN);
    AcksMore(sent + [CAN] + [CAN], CAN);
    assert sent + [CAN, CAN, CAN] == sent + [CAN] + [CAN] + [CAN];
  }

  /** Waits for the next byte; before the first record, that is asked for. */
  method Await(line: Line, starting: bool) returns (ch: Arrival)
    requires line.Valid()
    modifies line
    ensures line.Valid() && Acks(line.sent) == Acks(old(line.sent))
    ensures old(line.pos) < |line.chars| ==> line.pos == old(line.pos) + 1 && ch == line.chars[old(line.pos)]
    ensures old(line.pos) == |line.chars| ==> line.pos == old(line.pos) && ch == -1
  {
    if starting {
      AcksMore(line.sent, START);
      line.Out(START);
    }
    ch := line.In();
  }

  /** Acknowledges the end, and drops what still arrives. */
  method Acknowledge(line: Line)
    requires line.Valid()
    modifies line
    ensures line.Valid() && old(line.pos) <= line.pos && Acks(line.sent) == Acks(old(line.sent)) + 1
  {
    AcksMore(line.sent, ACK);
    line.Out(ACK);
    line.Flush(false);
  }

  /** Drops what still arrives, and cancels the transmission. */
  method GiveUp(line: Line)
    requires line.Valid()
    modifies line
    ensures line.Valid() && old(line.pos) <= line.pos && Acks(line.sent) == Acks(old(line.sent))
  {
    AcksCancelled(line.sent);
    line.Flush(true);
  }

  /** A larger buffer with the same contents. */
  method Enlarge(dest: array<Byte>, limit: nat) returns (p: array<Byte>)
    requires dest.Length <= limit
    ensures fresh(p) && p.Length == limit && p[..dest.Length] == dest[..]
  {
    p := new Byte[limit](_ => 0);
    for i := 0 to dest.Length
      invariant p[..i] == dest[..i]
    {
      p[i] := dest[i];
    }
  }

  /** Puts n bytes of a record behind the first size bytes of the buffer. */
  method Store(dest: array<Byte>, size: nat, buf: array<Byte>, n: nat)
    requires size + n <= dest.Length && n + 2 <= buf.Length && dest != buf
    modifies dest
    ensures dest[..size + n] == old(dest[..size]) + buf[2..n + 2]
  {
    for i := 0 to n
      invariant dest[..size + i] == old(dest[..size]) + buf[2..i + 2]
    {
      dest[size + i] := buf[i + 2];
    }
  }

  ghost predicate Stored(dest: array<Byte>, taken: seq<Taken>)
    reads dest
  {
    var data := AllData(Records(taken)); |data| <= dest.Length && dest[..|data|] == data
  }

  /** Adds the data of a record to the buffer, which is made larger when it is full and there is memory. */
  method Consume(dest0: array<Byte>, size: nat, buf: array<Byte>, n: nat, room: nat, ghost taken: seq<Taken>,
                 ghost t: Taken)
      returns (ok: bool, dest: array<Byte>)
    requires Stored(dest0, taken) && size == |AllData(Records(taken))| && n in {128, 1024} && buf.Length == 1024 + 4
    requires buf != dest0
    requires t.record == buf[..n + 4]
    modifies dest0
    ensures dest == dest0 || fresh(dest)
    ensures ok ==> Stored(dest, taken + [t]) && |AllData(Records(taken + [t]))| == size + n <= dest.Length
    ensures !ok ==>
      dest == dest0 && Stored(dest, taken) && dest.Length < size + n && room < dest.Length + INCREMENT_AMOUNT
  {
    hide Stored;
    dest := dest0;
    StoredFacts(dest, taken);
    if size + n > dest.Length {
      var limit := dest.Length + INCREMENT_AMOUNT;
      if limit > room {
        return false, dest;
      }
      dest := Enlarge(dest, limit);
      StoredInLarger(dest0, dest, taken);
      StoredFacts(dest, taken);
    }
    ghost var data := dest[..size];
    Store(dest, size, buf, n);
    assert DataOf(t.record) == buf[2..n + 2];
    MoreStored(dest, taken, t, data);
    ok := true;
  }

  lemma StoredFacts(dest: array<Byte>, taken: seq<Taken>)
    requires Stored(dest, taken)
    ensures |AllData(Records(taken))| <= dest.Length && dest[..|AllData(Records(taken))|] == AllData(Records(taken))
  {
  }

  /** What becomes of a record: it is asked for again, it is taken, or there is no memory for it. */
  datatype Outcome = Refused | Consumed | NoMemory

  /** Reads a record, and adds its data to the buffer. */
  method TakeRecord(line: Line, number: Byte, buf: array<Byte>, dest0: array<Byte>, size: nat, n: nat, room: nat,
                    ghost taken0: seq<Taken>, ghost record: seq<Byte>)
      returns (outcome: Outcome, dest: array<Byte>, ghost taken: seq<Taken>)
    requires line.Valid() && buf.Length == 1024 + 4 && n in {128, 1024} && buf != dest0
    requires InOrder(line.chars, taken0, line.pos) && Stored(dest0, taken0) && size == |AllData(Records(taken0))|
    requires number == NumberOf(|taken0|)
    modifies line, buf, dest0
    ensures line.Valid() && old(line.pos) <= line.pos && (dest == dest0 || fresh(dest))
    ensures InOrder(line.chars, taken, line.pos) && Stored(dest, taken)
    ensures outcome.Consumed? ==>
      |taken| == |taken0| + 1 && taken[..|taken0|] == taken0 && taken[|taken0|].lo >= old(line.pos)
    ensures !outcome.Consumed? ==> taken == taken0
    ensures |AllData(Records(taken))| == if outcome.Consumed? then size + n else size
    ensures outcome.NoMemory? ==> room < dest.Length + INCREMENT_AMOUNT && dest.Length < size + n
    ensures Solid(line.chars, old(line.pos), n + 4) &&
            !GoodRecord(Gathered(line.chars, old(line.pos), old(line.pos) + n + 4), number) ==>
      outcome == Refused && line.pos == old(line.pos) + n + 4
    ensures ArrivesAt(line.chars, old(line.pos), record) && |record| == n + 4 && GoodRecord(record, number) ==>
      && outcome != Refused && (outcome.Consumed? ==> taken[|taken0|].record == record)
      && (outcome.Consumed? ==> line.pos == old(line.pos) + |record| + 1)
    ensures Acks(line.sent) == Acks(old(line.sent)) + if outcome.Consumed? then 1 else 0
  {
    hide InOrder, Stored, Acks, TakenAt, GoodRecord, Gathered, NumberOf, AllData, Records, ArrivesAt;
    dest, taken := dest0, taken0;
    AcksMore(line.sent, NAK);
    ghost var before := line.pos;
    ghost var all;
    var ok;
    ok, all := line.GetRecord(number, buf, n);
    if ArrivesAt(line.chars, before, record) && |record| == n + 4 {
      SolidRecord(line.chars, before, record);
    }
    InOrderLater(line.chars, taken, before, line.pos);
    KeptStored(dest, taken, old(dest0[..]));
    if !ok {
      return Refused, dest, taken;
    }
    ghost var t := Taken(before, line.pos, buf[..n + 4]);
    OneTaken(line.chars, taken, t, line.pos);
    ghost var after := line.pos;
    line.Flush(false);
    InOrderLater(line.chars, taken, after, line.pos);
    InOrderLater(line.chars, taken + [t], after, line.pos);
    var stored;
    stored, dest := Consume(dest, size, buf, n, room, taken, t);
    if !stored {
      after := line.pos;
      GiveUp(line);
      InOrderLater(line.chars, taken, after, line.pos);
      return NoMemory, dest, taken;
    }
    AcksMore(line.sent, ACK);
    line.Out(ACK);
    return Consumed, dest, taken + [t];
  }

  lemma KeptStored(dest: array<Byte>, taken: seq<Taken>, contents: seq<Byte>)
    requires dest[..] == contents
    ensures Stored(dest, taken) <==>
      var data := AllData(Records(taken)); |data| <= |contents| && contents[..|data|] == data
  {
  }

  /** The first records have been taken, and the others arrive. */
  ghost predicate OnCourse(chars: Arrivals, pos: nat, patience: nat, records: seq<seq<Byte>>, taken: seq<Taken>,
                           ends: bool) {
    && |taken| <= |records| && Records(taken) == records[..|taken|]
    && Arrives(chars, pos, patience, records[|taken|..], ends, |taken|)
  }

  /** The first records have been taken, the next one is coming, with n bytes of data, and then the others. */
  ghost predicate Coming(chars: Arrivals, pos: nat, records: seq<seq<Byte>>, taken: seq<Taken>, n: nat, ends: bool) {
    && |taken| < |records| && Records(taken) == records[..|taken|] && ArrivesAt(chars, pos, records[|taken|])
    && GoodRecord(records[|taken|], NumberOf(|taken|)) && |records[|taken|]| == n + 4
    && Arrives(chars, pos + |records[|taken|]| + 1, RETRY_LIMIT, records[|taken| + 1..], ends, |taken| + 1)
  }

  /** All records have been taken, and what comes is refused. */
  ghost predicate Spoiled(chars: Arrivals, pos: nat, patience: nat, records: seq<seq<Byte>>, taken: seq<Taken>,
                          n: nat) {
    && |taken| == |records| && Solid(chars, pos, n + 4)
    && !GoodRecord(Gathered(chars, pos, pos + n + 4), NumberOf(|taken|))
    && OnCourse(chars, pos + n + 4, patience, records, taken, false)
  }

  /** What comes next: something that is not the mark of a record, the end, or a record; or once all records have been
      taken and the end does not come, only what is refused. */
  lemma ComesNext(chars: Arrivals, pos: nat, patience: nat, records: seq<seq<Byte>>, taken: seq<Taken>, ends: bool)
    requires OnCourse(chars, pos, patience, records, taken, ends) && Sendable(records, 0)
    ensures patience == 0 ==> !ends && Records(taken) == records
    ensures pos >= |chars| && patience > 0 ==> OnCourse(chars, pos, patience - 1, records, taken, ends)
    ensures pos < |chars| && patience > 0 ==>
      && (chars[pos] !in {SOH, STX, EOT, CAN} ==> OnCourse(chars, pos + 1, patience - 1, records, taken, ends))
      && chars[pos] != CAN && (chars[pos] == EOT ==> ends && Records(taken) == records)
      && (chars[pos] in {SOH, STX} ==>
            || Coming(chars, pos + 1, records, taken, SizeFor(chars[pos]), ends)
            || (!ends && Spoiled(chars, pos + 1, patience - 1, records, taken, SizeFor(chars[pos]))))
  {
    hide ArrivesAt, GoodRecord, NumberOf, Records, Solid, Gathered;
    var rest := records[|taken|..];
    assert |taken| == |records| ==> records[..|taken|] == records;
    if rest != [] {
      assert rest[0] == records[|taken|] && rest[1..] == records[|taken| + 1..];
      assert GoodRecord(records[|taken|], NumberOf(0 + |taken|));
    }
  }

  /** One more record has been taken. */
  lemma CourseKept(chars: Arrivals, pos: nat, records: seq<seq<Byte>>, taken: seq<Taken>, t: Taken, ends: bool)
    requires |taken| < |records| && Records(taken) == records[..|taken|] && t.record == records[|taken|]
    requires Arrives(chars, pos, RETRY_LIMIT, records[|taken| + 1..], ends, |taken| + 1)
    ensures OnCourse(chars, pos, RETRY_LIMIT, records, taken + [t], ends)
  {
    hide Arrives;
    var all := Records(taken + [t]);
    assert all[..|taken|] == Records(taken);
    assert all == records[..|taken| + 1];
    assert |taken + [t]| == |taken| + 1;
  }

  lemma RoomForAll(records: seq<seq<Byte>>, taken: seq<Taken>, n: nat)
    requires |taken| < |records| && Records(taken) == records[..|taken|] && |records[|taken|]| == n + 4
    ensures |AllData(Records(taken))| + n <= |AllData(records)|
  {
    OneMoreRecord(records, |taken|);
    SizeOfSome(records, |taken| + 1);
  }

  lemma CourseBegins(chars: Arrivals, pos: nat, records: seq<seq<Byte>>, ends: bool)
    requires Arrives(chars, pos, RETRY_LIMIT, records, ends, 0)
    ensures OnCourse(chars, pos, RETRY_LIMIT, records, [], ends)
  {
    hide Arrives;
    assert Records([]) == records[..0] && records[0..] == records;
  }

  /** The records taken from moment lo up to moment end, the number that is due, and what the buffer holds. */
  ghost predicate Progress(chars: Arrivals, lo: nat, end: nat, taken: seq<Taken>, number: Byte, dest: array<Byte>,
                           size: nat)
    reads dest
  {
    && InOrder(chars, taken, end) && TakenFrom(taken, lo) && number == NumberOf(|taken|)
    && Stored(dest, taken) && size == |AllData(Records(taken))|
  }

  lemma ProgressLater(chars: Arrivals, lo: nat, end: nat, end': nat, taken: seq<Taken>, number: Byte,
                      dest: array<Byte>, size: nat)
    requires Progress(chars, lo, end, taken, number, dest, size) && end <= end' <= |chars|
    ensures Progress(chars, lo, end', taken, number, dest, size)
  {
    InOrderLater(chars, taken, end, end');
  }

  lemma ProgressBegins(chars: Arrivals, lo: nat, dest: array<Byte>)
    requires lo <= |chars|
    ensures Progress(chars, lo, lo, [], 1, dest, 0)
  {
    NextNumber(0);
    NothingTaken(chars, dest, lo);
  }

  /** Reads a record, and adds its data to the buffer; when it is coming, and there is room, that succeeds. When all
      have come, it is refused. */
  method NextRecord(line: Line, number: Byte, buf: array<Byte>, dest0: array<Byte>, size: nat, n: nat, room: nat,
                    ghost lo: nat, ghost taken0: seq<Taken>, ghost records: seq<seq<Byte>>, ghost ends: bool,
                    ghost patience: nat)
      returns (outcome: Outcome, dest: array<Byte>, ghost taken: seq<Taken>)
    requires line.Valid() && buf.Length == 1024 + 4 && n in {128, 1024} && buf != dest0 && lo <= line.pos
    requires Progress(line.chars, lo, line.pos, taken0, number, dest0, size)
    modifies line, buf, dest0
    ensures line.Valid() && old(line.pos) <= line.pos && (dest == dest0 || fresh(dest))
    ensures if outcome.Consumed?
      then Progress(line.chars, lo, line.pos, taken, (number + 1) % 0x100, dest, size + n)
      else Progress(line.chars, lo, line.pos, taken, number, dest, size)
    ensures outcome.NoMemory? ==> room < dest.Length + INCREMENT_AMOUNT && dest.Length < size + n
    ensures Acks(line.sent) - |taken| == Acks(old(line.sent)) - |taken0|
    ensures Coming(line.chars, old(line.pos), records, taken0, n, ends) &&
            |AllData(records)| + INCREMENT_AMOUNT <= room ==>
      outcome.Consumed? && OnCourse(line.chars, line.pos, RETRY_LIMIT, records, taken, ends)
    ensures Spoiled(line.chars, old(line.pos), patience, records, taken0, n) ==>
      outcome.Refused? && OnCourse(line.chars, line.pos, patience, records, taken, false)
  {
    hide InOrder, Stored, Acks, AllData, Records, NumberOf, Arrives, ArrivesAt, OnCourse, GoodRecord, Solid, Gathered;
    ghost var coming := Coming(line.chars, line.pos, records, taken0, n, ends);
    ghost var record := if coming then records[|taken0|] else [];
    outcome, dest, taken := TakeRecord(line, number, buf, dest0, size, n, room, taken0, record);
    NextNumber(|taken0|);
    if outcome.Consumed? {
      assert taken == taken0 + [taken[|taken0|]];
    }
    if coming {
      RoomForAll(records, taken0, n);
      if outcome.Consumed? {
        CourseKept(line.chars, line.pos, records, taken0, taken[|taken0|], ends);
      }
    }
  }

  /** Receives records until the end of the transmission. The buffer holds the data of all records that were
      taken, in order, and each of them was acknowledged once. There is memory for a buffer of room bytes. When
      records arrive as they are sent, and there is room for them, they are the ones that are taken. When only what
      is refused comes after them, the receiver gives up in the end. */
  method Receive(line: Line, dest0: array<Byte>, room: nat,
                 ghost records: seq<seq<Byte>>, ghost ends: bool)
      returns (result: int, dest: array<Byte>, ghost taken: seq<Taken>)
    requires line.Valid() && dest0.Length == INITIAL_BUFFER_SIZE
    modifies line, dest0
    ensures line.Valid() && (dest == dest0 || fresh(dest)) && InOrder(line.chars, taken, line.pos)
    ensures Stored(dest, taken)
    ensures TakenFrom(taken, old(line.pos))
    ensures result >= 0 ==> result == |AllData(Records(taken))|
    ensures result >= 0 || result in {ERROR_REMOTECANCEL, ERROR_RETRYEXCEED, ERROR_OUTOFMEM}
    ensures result == ERROR_OUTOFMEM ==>
      room < dest.Length + INCREMENT_AMOUNT && dest.Length < |AllData(Records(taken))| + 1024
    ensures Arrives(line.chars, old(line.pos), RETRY_LIMIT, records, ends, 0) && Sendable(records, 0) &&
            |AllData(records)| + INCREMENT_AMOUNT <= room ==>
      Records(taken) == records && result == if ends then |AllData(records)| else ERROR_RETRYEXCEED
    ensures Acks(line.sent) ==
      Acks(old(line.sent)) + |taken| + if result >= 0 || result == ERROR_REMOTECANCEL then 1 else 0
  {
    hide Progress, Acks, AllData, Records, Arrives, OnCourse, Sendable, Coming, Spoiled, InOrder, Stored, TakenFrom,
         NumberOf, GoodRecord, Solid, Gathered, ArrivesAt;
    ghost var lo := line.pos;
    ghost var sent := Arrives(line.chars, lo, RETRY_LIMIT, records, ends, 0) && Sendable(records, 0) &&
      |AllData(records)| + INCREMENT_AMOUNT <= room;
    if sent {
      CourseBegins(line.chars, lo, records, ends);
    }
    dest, taken := dest0, [];
    var starting, packnum: Byte, retries: nat := true, 1, RETRY_LIMIT;
    var size: nat := 0;
    var buf := new Byte[1024 + 4](_ => 0);
    ProgressBegins(line.chars, lo, dest);
    while retries > 0
      invariant line.Valid() && lo <= line.pos && fresh(buf) && buf.Length == 1024 + 4 && buf != dest
      invariant (dest == dest0 || fresh(dest)) && Progress(line.chars, lo, line.pos, taken, packnum, dest, size)
      invariant Acks(line.sent) == Acks(old(line.sent)) + |taken|
      invariant sent ==> OnCourse(line.chars, line.pos, retries, records, taken, ends)
      decreases |line.chars| - line.pos, retries
    {
      if sent {
        ComesNext(line.chars, line.pos, retries, records, taken, ends);
      }
      retries := retries - 1;
      ghost var before := line.pos;
      var ch := Await(line, starting);
      ProgressLater(line.chars, lo, before, line.pos, taken, packnum, dest, size);
      if ch != SOH && ch != STX && ch != EOT && ch != CAN {
        continue;
      }
      if ch == EOT || ch == CAN {
        assert sent ==> ch == EOT && ends && Records(taken) == records;
        before := line.pos;
        Acknowledge(line);
        ProgressLater(line.chars, lo, before, line.pos, taken, packnum, dest, size);
        ProgressFacts(line.chars, lo, line.pos, taken, packnum, dest, size);
        result := if ch == EOT then size else ERROR_REMOTECANCEL;
        return;
      }
      var packSz := SizeFor(ch);
      starting := false;
      var outcome;
      outcome, dest, taken := NextRecord(line, packnum, buf, dest, size, packSz, room, lo, taken, records, ends,
                                         retries);
      if outcome.NoMemory? {
        assert !sent;
        ProgressFacts(line.chars, lo, line.pos, taken, packnum, dest, size);
        result := ERROR_OUTOFMEM;
        return;
      }
      if outcome.Consumed? {
        retries := RETRY_LIMIT;
        packnum := (packnum + 1) % 0x100;
        size := size + packSz;
      }
    }
    if sent {
      ComesNext(line.chars, line.pos, retries, records, taken, ends);
      assert !ends && Records(taken) == records;
    }
    ghost var before := line.pos;
    GiveUp(line);
    ProgressLater(line.chars, lo, before, line.pos, taken, packnum, dest, size);
    ProgressFacts(line.chars, lo, line.pos, taken, packnum, dest, size);
    result := ERROR_RETRYEXCEED;
  }

  lemma ProgressFacts(chars: Arrivals, lo: nat, end: nat, taken: seq<Taken>, number: Byte, dest: array<Byte>, size: nat)
    requires Progress(chars, lo, end, taken, number, dest, size)
    ensures InOrder(chars, taken, end) && TakenFrom(taken, lo) && Stored(dest, taken)
    ensures size == |AllData(Records(taken))|
  {
  }

  lemma NextNumber(i: nat)
    ensures NumberOf(i + 1) == (NumberOf(i) + 1) % 0x100 && NumberOf(0) == 1
  {
  }

  lemma NothingTaken(chars: Arrivals, dest: array<Byte>, end: nat)
    requires end <= |chars|
    ensures InOrder(chars, [], end) && Stored(dest, []) && AllData(Records([])) == []
  {
  }

  lemma InOrderLater(chars: Arrivals, taken: seq<Taken>, end: nat, end': nat)
    requires InOrder(chars, taken, end) && end <= end' <= |chars|
    ensures InOrder(chars, taken, end')
  {
  }

  /** One more record is taken. */
  lemma OneTaken(chars: Arrivals, taken: seq<Taken>, t: Taken, end: nat)
    requires InOrder(chars, taken, t.lo) && t.lo <= t.hi == end <= |chars| && t.record == Gathered(chars, t.lo, t.hi)
    requires GoodRecord(t.record, NumberOf(|taken|)) && |t.record| in {128 + 4, 1024 + 4}
    ensures InOrder(chars, taken + [t], end)
  {
    hide TakenAt, NumberOf, GoodRecord, Gathered;
    TakenNow(chars, t, NumberOf(|taken|));
    var more := taken + [t];
    forall i | 0 <= i < |more| ensures TakenAt(chars, more[i], NumberOf(i)) && more[i].hi <= end {
      if i < |taken| {
        assert TakenAt(chars, taken[i], NumberOf(i));
      }
    }
  }

  lemma TakenNow(chars: Arrivals, t: Taken, number: Byte)
    requires t.lo <= t.hi <= |chars| && t.record == Gathered(chars, t.lo, t.hi)
    requires GoodRecord(t.record, number) && |t.record| in {128 + 4, 1024 + 4}
    ensures TakenAt(chars, t, number)
  {
  }

  lemma StoredInLarger(dest: array<Byte>, p: array<Byte>, taken: seq<Taken>)
    requires Stored(dest, taken) && dest.Length <= p.Length && p[..dest.Length] == dest[..]
    ensures Stored(p, taken)
  {
    var n := |AllData(Records(taken))|;
    assert p[..n] == p[..dest.Length][..n] == dest[..n];
  }

  lemma MoreStored(dest: array<Byte>, taken: seq<Taken>, t: Taken, data: seq<Byte>)
    requires data == AllData(Records(taken)) && |data| + |DataOf(t.record)| <= dest.Length
    requires dest[..|data| + |DataOf(t.record)|] == data + DataOf(t.record)
    ensures Stored(dest, taken + [t]) && |AllData(Records(taken + [t]))| == |data| + |DataOf(t.record)|
  {
    MoreRecords(taken, t);
  }

  lemma NumberedAgain(record: seq<Byte>, i: nat)
    requires GoodRecord(record, NumberOf(i))
    ensures !GoodRecord(record, NumberOf(i + 1))
  {
  }

  /** A record that is sent again, because the sender has missed that it was taken, is refused for its number,
      however often it comes, and so that is no more than a waste of time. */
  lemma {:induction false} SentAgain(chars: Arrivals, pos: nat, times: nat, patience: nat, record: seq<Byte>, i: nat)
    requires GoodRecord(record, NumberOf(i)) && |record| in {128 + 4, 1024 + 4}
    requires Copies(chars, pos, times, record) && patience <= 2 * times
    ensures Wasted(chars, pos, patience, NumberOf(i + 1))
    decreases times
  {
    hide ArrivesAt, GoodRecord, NumberOf, Solid, Gathered;
    if patience > 0 {
      SolidRecord(chars, pos + 1, record);
      NumberedAgain(record, i);
      var next := pos + |record| + 1;
      if patience > 1 {
        SentAgain(chars, next + 1, times - 1, patience - 2, record, i);
      }
      assert Wasted(chars, next, patience - 1, NumberOf(i + 1));
    }
  }
}
