/** Packets of the remote procedure call layer: typed values between two signatures. */
module Eluarpc {
  import opened Options
  import opened Bytes

  const TYPE_INT_8: Byte := 1
  const TYPE_INT_16: Byte := 2
  const TYPE_INT_32: Byte := 3
  const TYPE_PTR: Byte := 4
  const TYPE_START: Byte := 5
  const TYPE_END: Byte := 6
  const TYPE_OP_ID: Byte := 7
  const TYPE_SMALL_PTR: Byte := 8
  const TYPE_PKT_SIZE: Byte := 0xA5
  const OP_RES_MOD := 0x80
  const PACKET_SIG := 0x18AF_C284
  const END_SIG := 0xE750_3D7B
  const START_OFFSET := 4
  const PTR_HEADER_SIZE := 6
  const SMALL_PTR_HEADER_SIZE := 4
  const WORDS := 0x1_0000_0000

  /** What can be written, each with its own character in the format. */
  datatype Arg = Op(id: Byte) | Res(id: Byte) | U8(b: Byte) | U16(h: nat) | U32(l: nat) | S32(i: int)
    | Ptr(data: seq<Byte>) | SmallPtr(data: seq<Byte>)
  {
    predicate Valid() {
      match this
      case U16(h) => h < 0x1_0000
      case U32(l) => l < WORDS
      case S32(i) => -0x8000_0000 <= i < 0x8000_0000
      case Ptr(data) => |data| < WORDS
      case SmallPtr(data) => |data| < 0x1_0000
      case _ => true
    }
  }

  /** What is to be read: operations and responses are compared, the others are results. */
  datatype Want = WantOp(id: Byte) | WantRes(id: Byte) | WantU8 | WantU16 | WantU32 | WantS32 | WantPtr | WantSmallPtr

  /** A result; a pointer goes into the packet, or nowhere. */
  datatype Value = Compared | Number(v: int) | Pointer(at: Option<nat>, len: nat)

  function WantOf(a: Arg): Want {
    match a
    case Op(id) => WantOp(id)
    case Res(id) => WantRes(id)
    case U8(_) => WantU8
    case U16(_) => WantU16
    case U32(_) => WantU32
    case S32(_) => WantS32
    case Ptr(_) => WantPtr
    case SmallPtr(_) => WantSmallPtr
  }

  /** A response has the upper bit set, whatever number it has. */
  function Marked(id: Byte): Byte {
    if id < OP_RES_MOD then id + OP_RES_MOD else id
  }

  function Word16(v: nat): seq<Byte> {
    [TYPE_INT_16, ValueByte(v, 0), ValueByte(v, 1)]
  }

  function Word32(v: nat): seq<Byte> {
    [TYPE_INT_32, ValueByte(v, 0), ValueByte(v, 1), ValueByte(v, 2), ValueByte(v, 3)]
  }

  /** A signed number as it is stored. */
  function Unsigned(i: int): nat
    requires -0x8000_0000 <= i < 0x8000_0000
  {
    if i < 0 then i + WORDS else i
  }

  function Signed(v: nat): int {
    if v < 0x8000_0000 then v else v - WORDS
  }

  function Encoded(a: Arg): seq<Byte>
    requires a.Valid()
  {
    match a
    case Op(id) => [TYPE_OP_ID, id]
    case Res(id) => [Marked(id)]
    case U8(b) => [TYPE_INT_8, b]
    case U16(h) => Word16(h)
    case U32(l) => Word32(l)
    case S32(i) => Word32(Unsigned(i))
    case Ptr(data) => [TYPE_PTR] + Word32(|data|) + data
    case SmallPtr(data) => [TYPE_SMALL_PTR] + Word16(|data|) + data
  }

  ghost predicate AllValid(args: seq<Arg>) {
    forall a :: a in args ==> a.Valid()
  }

  ghost function EncodedAll(args: seq<Arg>): seq<Byte>
    requires AllValid(args)
  {
    if args == [] then [] else EncodedAll(args[..|args| - 1]) + Encoded(args[|args| - 1])
  }

  /** A packet behind its size. */
  ghost function Body(args: seq<Arg>): seq<Byte>
    requires AllValid(args)
  {
    [TYPE_START] + Word32(PACKET_SIG) + EncodedAll(args) + [TYPE_END] + Word32(END_SIG)
  }

  ghost function Packet(args: seq<Arg>): seq<Byte>
    requires AllValid(args)
  {
    [TYPE_PKT_SIZE] + Word16((START_OFFSET + |Body(args)|) % 0x1_0000) + Body(args)
  }

  /** The array with some of its bytes replaced. */
  function Spliced(s: seq<Byte>, pos: nat, bytes: seq<Byte>): seq<Byte>
    requires pos + |bytes| <= |s|
  {
    s[..pos] + bytes + s[pos + |bytes|..]
  }

  lemma SplicedTwice(s: seq<Byte>, pos: nat, a: seq<Byte>, b: seq<Byte>)
    requires pos + |a| + |b| <= |s|
    ensures Spliced(Spliced(s, pos, a), pos + |a|, b) == Spliced(s, pos, a + b)
  {
  }

  /** Writes bytes from position p on. */
  method Put(buf: array<Byte>, p: nat, bytes: seq<Byte>) returns (q: nat)
    requires p + |bytes| <= buf.Length
    modifies buf
    ensures q == p + |bytes| && buf[..] == Spliced(old(buf[..]), p, bytes)
  {
    q := p;
    var i := 0;
    while i < |bytes|
      invariant i <= |bytes| && q == p + i
      invariant forall k :: 0 <= k < buf.Length ==> buf[k] == if p <= k < q then bytes[k - p] else old(buf[k])
    {
      buf[q] := bytes[i];
      q := q + 1;
      i := i + 1;
    }
  }

  method WriteU16(buf: array<Byte>, p: nat, v: nat) returns (q: nat)
    requires p + 3 <= buf.Length
    modifies buf
    ensures q == p + 3 && buf[..] == Spliced(old(buf[..]), p, Word16(v))
  {
    q := Put(buf, p, [TYPE_INT_16, v % 0x100, v / 0x100 % 0x100]);
  }

  method WriteU32(buf: array<Byte>, p: nat, v: nat) returns (q: nat)
    requires p + 5 <= buf.Length
    modifies buf
    ensures q == p + 5 && buf[..] == Spliced(old(buf[..]), p, Word32(v))
  {
    q := Put(buf, p, [TYPE_INT_32, v % 0x100, v / 0x100 % 0x100, v / 0x1_0000 % 0x100, v / 0x100_0000 % 0x100]);
  }

  /** The bytes lie at this place already. */
  ghost predicate Lies(s: seq<Byte>, pos: nat, bytes: seq<Byte>) {
    pos + |bytes| <= |s| && s[pos..pos + |bytes|] == bytes
  }

  lemma LiesBehind(s: seq<Byte>, p: nat, front: seq<Byte>, pos: nat, bytes: seq<Byte>)
    requires Lies(s, pos, bytes) && p + |front| <= pos
    ensures Lies(Spliced(s, p, front), pos, bytes)
  {
  }

  lemma SplicedSame(s: seq<Byte>, pos: nat, bytes: seq<Byte>)
    requires Lies(s, pos, bytes)
    ensures Spliced(s, pos, bytes) == s
  {
  }

  /** Behind how many bytes of a value its data begins, and the data. */
  function HeaderSize(a: Arg): nat {
    if a.Ptr? then PTR_HEADER_SIZE else if a.SmallPtr? then SMALL_PTR_HEADER_SIZE else 0
  }

  function DataOf(a: Arg): seq<Byte> {
    match a
    case Ptr(data) => data
    case SmallPtr(data) => data
    case _ => []
  }

  /** Writes one value; without a pointer, the data is left as it lies in the packet. */
  method WriteArg(buf: array<Byte>, p: nat, a: Arg, isNull: bool) returns (q: nat)
    requires a.Valid() && p + |Encoded(a)| <= buf.Length
    requires isNull ==> Lies(buf[..], p + HeaderSize(a), DataOf(a))
    modifies buf
    ensures q == p + |Encoded(a)| && buf[..] == Spliced(old(buf[..]), p, Encoded(a))
  {
    hide Lies;
    match a
    case Op(id) =>
      q := Put(buf, p, [TYPE_OP_ID, id]);
    case Res(id) =>
      q := Put(buf, p, [Marked(id)]);
    case U8(b) =>
      q := Put(buf, p, [TYPE_INT_8, b]);
    case U16(h) =>
      q := WriteU16(buf, p, h);
    case U32(l) =>
      q := WriteU32(buf, p, l);
    case S32(i) =>
      q := WriteU32(buf, p, Unsigned(i));
    case Ptr(data) =>
      q := WritePtr(buf, p, data, isNull);
    case SmallPtr(data) =>
      q := WriteSmallPtr(buf, p, data, isNull);
  }

  /** Writes what a pointer points to, unless it is null. */
  method WriteData(buf: array<Byte>, p: nat, data: seq<Byte>, isNull: bool) returns (q: nat)
    requires p + |data| <= buf.Length && (isNull ==> Lies(buf[..], p, data))
    modifies buf
    ensures q == p + |data| && buf[..] == Spliced(old(buf[..]), p, data)
  {
    if isNull {
      SplicedSame(buf[..], p, data);
      q := p + |data|;
    } else {
      q := Put(buf, p, data);
    }
  }

  method WritePtr(buf: array<Byte>, p: nat, data: seq<Byte>, isNull: bool) returns (q: nat)
    requires p + 6 + |data| <= buf.Length && (isNull ==> Lies(buf[..], p + 6, data))
    modifies buf
    ensures q == p + 6 + |data| && buf[..] == Spliced(old(buf[..]), p, [TYPE_PTR] + Word32(|data|) + data)
  {
    ghost var s := buf[..];
    WordSizes();
    hide Spliced, Word32, Lies;
    q := Put(buf, p, [TYPE_PTR]);
    q := WriteU32(buf, q, |data|);
    SplicedTwice(s, p, [TYPE_PTR], Word32(|data|));
    if isNull {
      LiesBehind(s, p, [TYPE_PTR] + Word32(|data|), p + 6, data);
    }
    q := WriteData(buf, q, data, isNull);
    SplicedTwice(s, p, [TYPE_PTR] + Word32(|data|), data);
  }

  method WriteSmallPtr(buf: array<Byte>, p: nat, data: seq<Byte>, isNull: bool) returns (q: nat)
    requires p + 4 + |data| <= buf.Length && (isNull ==> Lies(buf[..], p + 4, data))
    modifies buf
    ensures q == p + 4 + |data| && buf[..] == Spliced(old(buf[..]), p, [TYPE_SMALL_PTR] + Word16(|data|) + data)
  {
    ghost var s := buf[..];
    WordSizes();
    hide Spliced, Word16, Lies;
    q := Put(buf, p, [TYPE_SMALL_PTR]);
    q := WriteU16(buf, q, |data|);
    SplicedTwice(s, p, [TYPE_SMALL_PTR], Word16(|data|));
    if isNull {
      LiesBehind(s, p, [TYPE_SMALL_PTR] + Word16(|data|), p + 4, data);
    }
    q := WriteData(buf, q, data, isNull);
    SplicedTwice(s, p, [TYPE_SMALL_PTR] + Word16(|data|), data);
  }

  /** The data of the pointers that are null lies in the packet already. */
  ghost predicate InPlace(s: seq<Byte>, args: seq<Arg>, nulls: set<nat>)
    requires AllValid(args)
  {
    forall i :: i in nulls && i < |args| ==> LiesAt(s, args, i)
  }

  ghost predicate LiesAt(s: seq<Byte>, args: seq<Arg>, i: nat)
    requires AllValid(args) && i < |args|
  {
    Lies(s, START_OFFSET + 6 + |EncodedAll(args[..i])| + HeaderSize(args[i]), DataOf(args[i]))
  }

  lemma OneMore(args: seq<Arg>, i: nat)
    requires AllValid(args) && i < |args|
    ensures AllValid(args[..i]) && AllValid(args[..i + 1]) && args[i].Valid()
    ensures EncodedAll(args[..i + 1]) == EncodedAll(args[..i]) + Encoded(args[i])
    ensures |EncodedAll(args[..i + 1])| <= |EncodedAll(args)|
    decreases |args|
  {
    hide Encoded;
    var front := args[..i + 1];
    assert front[..|front| - 1] == args[..i];
    if i + 1 < |args| {
      var most := args[..|args| - 1];
      OneMore(most, i);
      assert most[..i + 1] == args[..i + 1];
    } else {
      assert front == args;
    }
  }

  /** Writes a packet: the size, which is cut to 16 bits, the signature, the values, and the signature again,
      inverted. The data of pointers that are null is left as it is. */
  method GenWrite(buf: array<Byte>, args: seq<Arg>, nulls: set<nat>)
    requires AllValid(args) && |Packet(args)| <= buf.Length && InPlace(buf[..], args, nulls)
    modifies buf
    ensures buf[..] == Spliced(old(buf[..]), 0, Packet(args))
  {
    hide Encoded, Word16, Word32, Spliced, Lies;
    ghost var s := buf[..];
    ghost var written := [TYPE_START];
    WordSizes();
    var p := Put(buf, START_OFFSET, [TYPE_START]);
    p := WriteU32(buf, p, PACKET_SIG);
    SplicedTwice(s, START_OFFSET, written, Word32(PACKET_SIG));
    written := written + Word32(PACKET_SIG);
    ghost var start := written;
    for i := 0 to |args|
      invariant AllValid(args[..i]) && written == start + EncodedAll(args[..i]) && p == START_OFFSET + |written|
      invariant p <= buf.Length && buf[..] == Spliced(s, START_OFFSET, written)
    {
      OneMore(args, i);
      if i in nulls {
        assert LiesAt(s, args, i);
        LiesBehind(s, START_OFFSET, written, p + HeaderSize(args[i]), DataOf(args[i]));
      }
      p := WriteArg(buf, p, args[i], i in nulls);
      SplicedTwice(s, START_OFFSET, written, Encoded(args[i]));
      written := written + Encoded(args[i]);
    }
    assert args[..|args|] == args;
    p := Put(buf, p, [TYPE_END]);
    SplicedTwice(s, START_OFFSET, written, [TYPE_END]);
    written := written + [TYPE_END];
    p := WriteU32(buf, p, END_SIG);
    SplicedTwice(s, START_OFFSET, written, Word32(END_SIG));
    written := written + Word32(END_SIG);
    assert written == Body(args);
    var len := p % 0x1_0000;
    p := Put(buf, 0, [TYPE_PKT_SIZE]);
    p := WriteU16(buf, p, len);
    SizeInFront(s, written, len);
  }

  lemma WordSizes()
    ensures forall v {:trigger Word32(v)} :: |Word32(v)| == 5
    ensures forall v {:trigger Word16(v)} :: |Word16(v)| == 3
  {
  }

  lemma SizeInFront(s: seq<Byte>, body: seq<Byte>, len: nat)
    requires START_OFFSET + |body| <= |s|
    ensures var s1 := Spliced(s, START_OFFSET, body);
      |s1| == |s| && |Word16(len)| == 3
      && Spliced(Spliced(s1, 0, [TYPE_PKT_SIZE]), 1, Word16(len)) == Spliced(s, 0, [TYPE_PKT_SIZE] + Word16(len) + body)
  {
  }

  /** Memory from the beginning of a packet on. */
  type Mem = nat -> Byte

  /** Where the reader is, and whether all was as expected so far. */
  datatype Reader = Reader(pos: nat, ok: bool)

  function Expect(m: Mem, r: Reader, b: Byte): Reader {
    Reader(r.pos + 1, r.ok && m(r.pos) == b)
  }

  function Read16(m: Mem, r: Reader): (Reader, nat) {
    var r := Expect(m, r, TYPE_INT_16);
    var v: nat := m(r.pos) + 0x100 * m(r.pos + 1);
    (r.(pos := r.pos + 2), v)
  }

  function Read32(m: Mem, r: Reader): (Reader, nat) {
    var r := Expect(m, r, TYPE_INT_32);
    var v: nat := m(r.pos) + 0x100 * m(r.pos + 1) + 0x1_0000 * m(r.pos + 2) + 0x100_0000 * m(r.pos + 3);
    (r.(pos := r.pos + 4), v)
  }

  /** A signature of 32 bits, behind the byte that announces it. */
  function ReadSignature(m: Mem, r: Reader, b: Byte, sig: nat): Reader {
    var (r, v) := Read32(m, Expect(m, r, b));
    r.(ok := r.ok && v == sig)
  }

  /** A pointer that is no further than its header is none. */
  function PointerTo(start: nat, header: nat, end: nat, len: nat): Value {
    Pointer(if end == start + header then None else Some(start + header), len)
  }

  function Read(m: Mem, r: Reader, w: Want): (Reader, Value) {
    match w
    case WantOp(id) => (Expect(m, Expect(m, r, TYPE_OP_ID), id), Compared)
    case WantRes(id) => (Expect(m, r, Marked(id)), Compared)
    case WantU8 =>
      var r := Expect(m, r, TYPE_INT_8);
      (r.(pos := r.pos + 1), Number(m(r.pos)))
    case WantU16 =>
      var (r, v) := Read16(m, r);
      (r, Number(v))
    case WantU32 =>
      var (r, v) := Read32(m, r);
      (r, Number(v))
    case WantS32 =>
      var (r, v) := Read32(m, r);
      (r, Number(Signed(v)))
    case WantPtr =>
      var (r', len) := Read32(m, Expect(m, r, TYPE_PTR));
      (r'.(pos := r'.pos + len), PointerTo(r.pos, PTR_HEADER_SIZE, r'.pos + len, len))
    case WantSmallPtr =>
      var (r', len) := Read16(m, Expect(m, r, TYPE_SMALL_PTR));
      (r'.(pos := r'.pos + len), PointerTo(r.pos, SMALL_PTR_HEADER_SIZE, r'.pos + len, len))
  }

  function ReadAll(m: Mem, r: Reader, ws: seq<Want>): (Reader, seq<Value>) {
    if ws == [] then (r, [])
    else
      var (r, vs) := ReadAll(m, r, ws[..|ws| - 1]);
      var (r', v) := Read(m, r, ws[|ws| - 1]);
      (r', vs + [v])
  }

  /** Reads a packet: an error anywhere makes all of it one, but does not end the reading. */
  method GenRead(m: Mem, ws: seq<Want>) returns (ok: bool, vs: seq<Value>)
    ensures (ok, vs) == PacketRead(m, ws)
  {
    hide Read, ReadSignature;
    var r := ReadSignature(m, Reader(START_OFFSET, true), TYPE_START, PACKET_SIG);
    ghost var start := r;
    vs := [];
    for i := 0 to |ws|
      invariant (r, vs) == ReadAll(m, start, ws[..i])
    {
      assert ws[..i + 1][..i] == ws[..i];
      var (r', v) := Read(m, r, ws[i]);
      r, vs := r', vs + [v];
    }
    assert ws[..|ws|] == ws;
    r := ReadSignature(m, r, TYPE_END, END_SIG);
    ok := r.ok;
  }

  function PacketRead(m: Mem, ws: seq<Want>): (bool, seq<Value>) {
    var r := ReadSignature(m, Reader(START_OFFSET, true), TYPE_START, PACKET_SIG);
    var (r, vs) := ReadAll(m, r, ws);
    (ReadSignature(m, r, TYPE_END, END_SIG).ok, vs)
  }

  /** Are these bytes in memory from position p on? */
  ghost predicate At(m: Mem, p: nat, bytes: seq<Byte>) {
    forall i :: 0 <= i < |bytes| ==> m(p + i) == bytes[i]
  }

  lemma AtParts(m: Mem, p: nat, a: seq<Byte>, b: seq<Byte>)
    ensures At(m, p, a + b) <==> At(m, p, a) && At(m, p + |a|, b)
  {
    if At(m, p, a + b) {
      assert forall i :: 0 <= i < |a| ==> (a + b)[i] == a[i];
      forall i | 0 <= i < |b| ensures m(p + |a| + i) == b[i] {
        assert (a + b)[|a| + i] == b[i] && m(p + (|a| + i)) == (a + b)[|a| + i];
      }
    }
    if At(m, p, a) && At(m, p + |a|, b) {
      forall i | 0 <= i < |a + b| ensures m(p + i) == (a + b)[i] {
        if i >= |a| {
          assert m(p + |a| + (i - |a|)) == b[i - |a|];
        }
      }
    }
  }

  lemma AtFew(m: Mem, p: nat, bytes: seq<Byte>)
    ensures |bytes| == 1 ==> (At(m, p, bytes) <==> m(p) == bytes[0])
    ensures |bytes| == 2 ==> (At(m, p, bytes) <==> m(p) == bytes[0] && m(p + 1) == bytes[1])
    ensures |bytes| == 3 ==> (At(m, p, bytes) <==> m(p) == bytes[0] && m(p + 1) == bytes[1] && m(p + 2) == bytes[2])
    ensures |bytes| == 5 ==>
      (At(m, p, bytes) <==>
         && m(p) == bytes[0] && m(p + 1) == bytes[1] && m(p + 2) == bytes[2] && m(p + 3) == bytes[3]
         && m(p + 4) == bytes[4])
  {
    if |bytes| > 0 && At(m, p, bytes) {
      assert m(p + 0) == bytes[0];
    }
  }

  /** A number of 32 bits is read where, and only where, it was written. */
  lemma Number32(m: Mem, r: Reader, v: nat)
    requires r.ok && v < WORDS
    ensures At(m, r.pos, Word32(v)) <==> Read32(m, r) == (Reader(r.pos + 5, true), v)
  {
    AtFew(m, r.pos, Word32(v));
    Packed32(v);
    Unpacked32(m(r.pos + 1), m(r.pos + 2), m(r.pos + 3), m(r.pos + 4));
  }

  lemma Unpacked32(b0: Byte, b1: Byte, b2: Byte, b3: Byte)
    ensures var v: nat := b0 + 0x100 * b1 + 0x1_0000 * b2 + 0x100_0000 * b3;
      v < WORDS && ValueByte(v, 0) == b0 && ValueByte(v, 1) == b1 && ValueByte(v, 2) == b2 && ValueByte(v, 3) == b3
  {
    var q2: nat := b2 + 0x100 * b3;
    var q1: nat := b1 + 0x100 * q2;
    var v: nat := b0 + 0x100 * q1;
    OneByte(b0, q1);
    OneByte(b1, q2);
    OneByte(b2, b3);
    Quotients(v);
  }

  lemma OneByte(b: Byte, q: nat)
    ensures (b + 0x100 * q) % 0x100 == b && (b + 0x100 * q) / 0x100 == q
  {
  }

  lemma Number16(m: Mem, r: Reader, v: nat)
    requires r.ok && v < 0x1_0000
    ensures At(m, r.pos, Word16(v)) <==> Read16(m, r) == (Reader(r.pos + 3, true), v)
  {
    AtFew(m, r.pos, Word16(v));
    Packed16(v);
    Unpacked16(m(r.pos + 1), m(r.pos + 2));
  }

  lemma Unpacked16(b0: Byte, b1: Byte)
    ensures var v: nat := b0 + 0x100 * b1; v < 0x1_0000 && ValueByte(v, 0) == b0 && ValueByte(v, 1) == b1
  {
  }

  /** The result is what was written. An empty block of data comes back as no pointer. */
  ghost predicate Same(m: Mem, a: Arg, v: Value) {
    match a
    case Op(_) => v == Compared
    case Res(_) => v == Compared
    case U8(b) => v == Number(b)
    case U16(h) => v == Number(h)
    case U32(l) => v == Number(l)
    case S32(i) => v == Number(i)
    case Ptr(data) => PointsTo(m, v, data)
    case SmallPtr(data) => PointsTo(m, v, data)
  }

  ghost predicate PointsTo(m: Mem, v: Value, data: seq<Byte>) {
    v.Pointer? && v.len == |data| && (v.at == None <==> data == []) && (v.at.Some? ==> At(m, v.at.value, data))
  }

  /** One value is read as what was written. */
  lemma ReadBack(m: Mem, r: Reader, a: Arg)
    requires r.ok && a.Valid() && At(m, r.pos, Encoded(a))
    ensures var (r', v) := Read(m, r, WantOf(a)); r' == Reader(r.pos + |Encoded(a)|, true) && Same(m, a, v)
  {
    hide At, Word16, Word32, Read16, Read32;
    match a
    case Op(id) => AtFew(m, r.pos, Encoded(a));
    case Res(id) => AtFew(m, r.pos, Encoded(a));
    case U8(b) => AtFew(m, r.pos, Encoded(a));
    case U16(h) => Number16(m, r, h); WordSizes();
    case U32(l) => Number32(m, r, l); WordSizes();
    case S32(i) => Number32(m, r, Unsigned(i)); WordSizes();
    case Ptr(data) =>
      WordSizes();
      AtParts(m, r.pos, [TYPE_PTR] + Word32(|data|), data);
      AtParts(m, r.pos, [TYPE_PTR], Word32(|data|));
      AtFew(m, r.pos, [TYPE_PTR]);
      Number32(m, Expect(m, r, TYPE_PTR), |data|);
    case SmallPtr(data) =>
      WordSizes();
      AtParts(m, r.pos, [TYPE_SMALL_PTR] + Word16(|data|), data);
      AtParts(m, r.pos, [TYPE_SMALL_PTR], Word16(|data|));
      AtFew(m, r.pos, [TYPE_SMALL_PTR]);
      Number16(m, Expect(m, r, TYPE_SMALL_PTR), |data|);
  }

  function Wants(args: seq<Arg>): seq<Want> {
    seq(|args|, i requires 0 <= i < |args| => WantOf(args[i]))
  }

  ghost predicate AllSame(m: Mem, args: seq<Arg>, vs: seq<Value>) {
    |vs| == |args| && forall i :: 0 <= i < |args| ==> Same(m, args[i], vs[i])
  }

  /** All values are read as what was written. */
  lemma {:induction false} ReadBackAll(m: Mem, r: Reader, args: seq<Arg>)
    requires r.ok && AllValid(args) && At(m, r.pos, EncodedAll(args))
    ensures var (r', vs) := ReadAll(m, r, Wants(args));
      r' == Reader(r.pos + |EncodedAll(args)|, true) && AllSame(m, args, vs)
    decreases |args|
  {
    hide Read, At, Encoded, Same;
    if args != [] {
      var front, a := args[..|args| - 1], args[|args| - 1];
      AtParts(m, r.pos, EncodedAll(front), Encoded(a));
      ReadBackAll(m, r, front);
      assert Wants(args)[..|args| - 1] == Wants(front);
      ReadBack(m, Reader(r.pos + |EncodedAll(front)|, true), a);
    }
  }

  /** A signature is accepted just where it was written. */
  lemma SignatureRead(m: Mem, r: Reader, b: Byte, sig: nat)
    requires sig < WORDS
    ensures ReadSignature(m, r, b, sig) == Reader(r.pos + 6, r.ok && At(m, r.pos, [b] + Word32(sig)))
  {
    hide At, Word32;
    WordSizes();
    AtParts(m, r.pos, [b], Word32(sig));
    AtFew(m, r.pos, [b]);
    hide ReadSignature;
    SignatureNumber(m, r, b, sig);
  }

  lemma SignatureNumber(m: Mem, r: Reader, b: Byte, sig: nat)
    requires sig < WORDS
    ensures ReadSignature(m, r, b, sig) == Reader(r.pos + 6, r.ok && m(r.pos) == b && At(m, r.pos + 1, Word32(sig)))
  {
    hide At, Word32;
    var r1 := Expect(m, r, b);
    Number32(m, r1.(ok := true), sig);
    if Read32(m, r1.(ok := true)).0.ok {
      Unpacked32(m(r1.pos + 1), m(r1.pos + 2), m(r1.pos + 3), m(r1.pos + 4));
    }
  }

  /** A packet is read as what was written. */
  lemma RoundTrip(m: Mem, args: seq<Arg>)
    requires AllValid(args) && At(m, 0, Packet(args))
    ensures var (ok, vs) := PacketRead(m, Wants(args)); ok && AllSame(m, args, vs)
  {
    hide At, Word16, Word32, ReadAll, ReadSignature, AllSame;
    WordSizes();
    var e := EncodedAll(args);
    var first, last := [TYPE_START] + Word32(PACKET_SIG), [TYPE_END] + Word32(END_SIG);
    assert Body(args) == first + e + last;
    AtParts(m, 0, [TYPE_PKT_SIZE] + Word16((START_OFFSET + |Body(args)|) % 0x1_0000), Body(args));
    AtParts(m, START_OFFSET, first + e, last);
    AtParts(m, START_OFFSET, first, e);
    SignatureRead(m, Reader(START_OFFSET, true), TYPE_START, PACKET_SIG);
    ReadBackAll(m, Reader(START_OFFSET + 6, true), args);
    SignatureRead(m, Reader(START_OFFSET + 6 + |e|, true), TYPE_END, END_SIG);
  }

  /** What is read without an error is what is written for some value. */
  lemma Accepted(m: Mem, r: Reader, w: Want) returns (a: Arg)
    requires Read(m, r, w).0.ok
    ensures r.ok && a.Valid() && WantOf(a) == w && At(m, r.pos, Encoded(a))
    ensures Read(m, r, w).0 == Reader(r.pos + |Encoded(a)|, true)
  {
    hide At, Word16, Word32;
    WordSizes();
    match w
    case WantOp(id) =>
      a := Op(id);
      AtFew(m, r.pos, Encoded(a));
    case WantRes(id) =>
      a := Res(id);
      AtFew(m, r.pos, Encoded(a));
    case WantU8 =>
      a := U8(m(r.pos + 1));
      AtFew(m, r.pos, Encoded(a));
    case WantU16 =>
      var v := AcceptedNumber16(m, r);
      a := U16(v);
    case WantU32 =>
      var v := AcceptedNumber32(m, r);
      a := U32(v);
    case WantS32 =>
      var v := AcceptedNumber32(m, r);
      a := S32(Signed(v));
    case WantPtr =>
      var n := AcceptedNumber32(m, Expect(m, r, TYPE_PTR));
      a := Ptr(DataAt(m, r.pos + 6, n));
      AtFew(m, r.pos, [TYPE_PTR]);
      AtParts(m, r.pos, [TYPE_PTR], Word32(n));
      DataIs(m, r.pos + 6, n);
      AtParts(m, r.pos, [TYPE_PTR] + Word32(n), DataAt(m, r.pos + 6, n));
    case WantSmallPtr =>
      var n := AcceptedNumber16(m, Expect(m, r, TYPE_SMALL_PTR));
      a := SmallPtr(DataAt(m, r.pos + 4, n));
      AtFew(m, r.pos, [TYPE_SMALL_PTR]);
      AtParts(m, r.pos, [TYPE_SMALL_PTR], Word16(n));
      DataIs(m, r.pos + 4, n);
      AtParts(m, r.pos, [TYPE_SMALL_PTR] + Word16(n), DataAt(m, r.pos + 4, n));
  }

  function DataAt(m: Mem, p: nat, n: nat): seq<Byte> {
    seq(n, i requires 0 <= i < n => m(p + i))
  }

  lemma DataIs(m: Mem, p: nat, n: nat)
    ensures |DataAt(m, p, n)| == n && At(m, p, DataAt(m, p, n))
  {
  }

  lemma AcceptedNumber32(m: Mem, r: Reader) returns (v: nat)
    requires Read32(m, r).0.ok
    ensures r.ok && v < WORDS && At(m, r.pos, Word32(v)) && Read32(m, r) == (Reader(r.pos + 5, true), v)
  {
    Unpacked32(m(r.pos + 1), m(r.pos + 2), m(r.pos + 3), m(r.pos + 4));
    v := Read32(m, r).1;
    Number32(m, r, v);
  }

  lemma AcceptedNumber16(m: Mem, r: Reader) returns (v: nat)
    requires Read16(m, r).0.ok
    ensures r.ok && v < 0x1_0000 && At(m, r.pos, Word16(v)) && Read16(m, r) == (Reader(r.pos + 3, true), v)
  {
    Unpacked16(m(r.pos + 1), m(r.pos + 2));
    v := Read16(m, r).1;
    Number16(m, r, v);
  }

  lemma {:induction false} AcceptedAll(m: Mem, r: Reader, ws: seq<Want>) returns (args: seq<Arg>)
    requires ReadAll(m, r, ws).0.ok
    ensures r.ok && AllValid(args) && Wants(args) == ws && At(m, r.pos, EncodedAll(args))
    ensures ReadAll(m, r, ws).0 == Reader(r.pos + |EncodedAll(args)|, true)
    decreases |ws|
  {
    hide Read, At, Encoded;
    args := [];
    if ws == [] {
      DataIs(m, r.pos, 0);
      assert DataAt(m, r.pos, 0) == [];
    } else {
      var front, w := ws[..|ws| - 1], ws[|ws| - 1];
      var r1 := ReadAll(m, r, front).0;
      var a := Accepted(m, r1, w);
      var before := AcceptedAll(m, r, front);
      args := before + [a];
      assert args[..|args| - 1] == before;
      AtParts(m, r.pos, EncodedAll(before), Encoded(a));
    }
  }

  /** Only what is written for some values is read without an error: whatever is in memory, when reading it
      succeeds there are values of the wanted kinds such that just their packet lies there. */
  lemma OnlyPackets(m: Mem, ws: seq<Want>) returns (args: seq<Arg>)
    requires PacketRead(m, ws).0
    ensures AllValid(args) && Wants(args) == ws && At(m, START_OFFSET, Body(args))
  {
    hide At, Word32, ReadAll, ReadSignature;
    WordSizes();
    SignatureRead(m, Reader(START_OFFSET, true), TYPE_START, PACKET_SIG);
    var r := ReadAll(m, ReadSignature(m, Reader(START_OFFSET, true), TYPE_START, PACKET_SIG), ws).0;
    SignatureRead(m, r, TYPE_END, END_SIG);
    args := AcceptedAll(m, ReadSignature(m, Reader(START_OFFSET, true), TYPE_START, PACKET_SIG), ws);
    var e := EncodedAll(args);
    var first, last := [TYPE_START] + Word32(PACKET_SIG), [TYPE_END] + Word32(END_SIG);
    AtParts(m, START_OFFSET, first, e);
    AtParts(m, START_OFFSET, first + e, last);
    assert Body(args) == first + e + last;
  }

  /** Reads the size of a packet. */
  function SizeRead(m: Mem): (Reader, nat) {
    Read16(m, Expect(m, Reader(0, true), TYPE_PKT_SIZE))
  }

  /** The size that a packet says it has is right, if and only if the packet is smaller than 64 KiB. */
  lemma PacketSize(m: Mem, args: seq<Arg>)
    requires AllValid(args) && At(m, 0, Packet(args))
    ensures SizeRead(m).0.ok && SizeRead(m).1 == |Packet(args)| % 0x1_0000
    ensures SizeRead(m).1 == |Packet(args)| <==> |Packet(args)| < 0x1_0000
  {
    hide At, Word16, Word32;
    WordSizes();
    var len := (START_OFFSET + |Body(args)|) % 0x1_0000;
    AtParts(m, 0, [TYPE_PKT_SIZE] + Word16(len), Body(args));
    AtParts(m, 0, [TYPE_PKT_SIZE], Word16(len));
    AtFew(m, 0, [TYPE_PKT_SIZE]);
    Number16(m, Expect(m, Reader(0, true), TYPE_PKT_SIZE), len);
  }

  /** Memory that begins with these bytes. */
  function MemoryOf(s: seq<Byte>): Mem {
    (i: nat) => if i < |s| then s[i] else 0
  }

  /** Writing values and reading values of the same kinds gives them back. */
  method WriteAndRead(buf: array<Byte>, args: seq<Arg>, nulls: set<nat>) returns (ok: bool, vs: seq<Value>)
    requires AllValid(args) && |Packet(args)| <= buf.Length && InPlace(buf[..], args, nulls)
    modifies buf
    ensures ok && AllSame(MemoryOf(buf[..]), args, vs)
  {
    hide AllValid, Packet, PacketRead, At, AllSame, MemoryOf, Wants, InPlace;
    ghost var s := buf[..];
    GenWrite(buf, args, nulls);
    InMemory(s, buf[..], Packet(args));
    ok, vs := GenRead(MemoryOf(buf[..]), Wants(args));
    RoundTrip(MemoryOf(buf[..]), args);
  }

  lemma InMemory(s: seq<Byte>, s': seq<Byte>, front: seq<Byte>)
    requires |front| <= |s| && s' == Spliced(s, 0, front)
    ensures At(MemoryOf(s'), 0, front)
  {
    forall i | 0 <= i < |front| ensures MemoryOf(s')(0 + i) == front[i] {
      assert s'[i] == front[i];
    }
  }
}
