/** The records of a write-once file system: how they lie on the flash, and the files that they make up. */
module WofsLog {
  import opened Bytes

  type Flash = seq<Byte>

  const MAX_NAME := 30
  const FILE_DELETED: Byte := 0xAA
  const END_MARKER: Byte := 0xFF

  /** A closed file: the address of its name, the name, whether it is marked as deleted, its contents. */
  datatype Record = Record(addr: nat, name: seq<Byte>, deleted: bool, data: seq<Byte>)

  /** The next multiple of 4. */
  function Align(x: nat): nat {
    (x + 3) / 4 * 4
  }

  /** The addresses of the deletion mark, the size and the data of a record, and of the next record. */
  function DelAddr(r: Record): nat {
    Align(r.addr + |r.name| + 1)
  }

  function SizeAddr(r: Record): nat {
    DelAddr(r) + 4
  }

  function DataAddr(r: Record): nat {
    DelAddr(r) + 8
  }

  function NextAddr(r: Record): nat {
    Align(DataAddr(r) + |r.data|)
  }

  lemma Aligned(x: nat)
    ensures x <= Align(x) < x + 4 && Align(x) % 4 == 0
    ensures x % 4 == 0 ==> Align(x) == x
  {
  }

  /** Alignment does not pass a multiple of 4. */
  lemma AlignedBelow(x: nat, m: nat)
    requires x <= m && m % 4 == 0
    ensures Align(x) <= m
  {
  }

  /** The bytes s are at address a. */
  ghost predicate At(f: Flash, a: nat, s: seq<Byte>) {
    a + |s| <= |f| && forall i :: 0 <= i < |s| ==> f[a + i] == s[i]
  }

  /** From address a on, nothing has been written. */
  ghost predicate Blank(f: Flash, a: nat) {
    a <= |f| && forall i :: a <= i < |f| ==> f[i] == END_MARKER
  }

  ghost predicate BlankField(f: Flash, a: nat, n: nat) {
    a + n <= |f| && forall i :: a <= i < a + n ==> f[i] == END_MARKER
  }

  /** The number in the 4 bytes from address a on. */
  function SizeAt(f: Flash, a: nat): nat
    requires a + 4 <= |f|
  {
    var b0: nat, b1: nat, b2: nat, b3: nat := f[a], f[a + 1], f[a + 2], f[a + 3];
    b0 + 0x100 * b1 + 0x1_0000 * b2 + 0x100_0000 * b3
  }

  /** Names that the file system can hold. */
  ghost predicate GoodName(name: seq<Byte>) {
    |name| <= MAX_NAME && 0 !in name && (name != [] ==> name[0] != END_MARKER)
  }

  ghost predicate NameAt(f: Flash, r: Record) {
    r.addr % 4 == 0 && GoodName(r.name) && At(f, r.addr, r.name + [0])
  }

  ghost predicate RecordAt(f: Flash, r: Record) {
    && NextAddr(r) + 4 <= |f| && NameAt(f, r) && At(f, DataAddr(r), r.data)
    && (r.deleted <==> f[DelAddr(r)] == FILE_DELETED) && (!r.deleted ==> BlankField(f, DelAddr(r), 4))
    && SizeAt(f, SizeAddr(r)) == |r.data|
  }

  /** The address of record k; the end, behind the last one. */
  function AddrAt(log: seq<Record>, end: nat, k: nat): nat {
    if k < |log| then log[k].addr else end
  }

  /** The records lie on the flash one after the other, and end at an address where an end marker still
      has room. */
  ghost predicate Logged(f: Flash, log: seq<Record>, end: nat) {
    && end % 4 == 0 && end + 4 <= |f| && AddrAt(log, end, 0) == 0
    && (forall k :: 0 <= k < |log| ==> RecordAt(f, log[k]))
    && (forall k {:trigger NextAddr(log[k])} :: 0 <= k < |log| ==> NextAddr(log[k]) == AddrAt(log, end, k + 1))
  }

  lemma Extents(r: Record)
    ensures r.addr + |r.name| + 1 <= DelAddr(r) && DataAddr(r) + |r.data| <= NextAddr(r) && NextAddr(r) % 4 == 0
    ensures DelAddr(r) < r.addr + |r.name| + 5 && NextAddr(r) < DataAddr(r) + |r.data| + 4
    ensures DelAddr(r) % 4 == 0
  {
  }

  lemma Ahead(r: Record)
    ensures r.addr < NextAddr(r)
  {
    Extents(r);
  }

  /** Earlier records lie below later ones, and all of them below the end. */
  lemma {:induction false} InOrder(f: Flash, log: seq<Record>, end: nat, i: nat, k: nat)
    requires Logged(f, log, end) && i < k <= |log|
    ensures NextAddr(log[i]) <= AddrAt(log, end, k)
    decreases k
  {
    hide RecordAt, NextAddr;
    assert NextAddr(log[k - 1]) == AddrAt(log, end, k);
    if i < k - 1 {
      InOrder(f, log, end, i, k - 1);
      Ahead(log[k - 1]);
    }
  }

  ghost predicate SameIn(f: Flash, f': Flash, lo: nat, hi: nat) {
    |f'| == |f| && forall i :: lo <= i < hi && i < |f| ==> f'[i] == f[i]
  }

  /** A record stays when its part of the flash stays. */
  lemma RecordKept(f: Flash, f': Flash, r: Record)
    requires RecordAt(f, r) && SameIn(f, f', r.addr, NextAddr(r))
    ensures RecordAt(f', r)
  {
    hide Align;
    Extents(r);
    hide DelAddr, NextAddr, SizeAt;
    AtKept(f, f', r.addr, r.name + [0]);
    AtKept(f, f', DataAddr(r), r.data);
    SizeKept(f, f', SizeAddr(r));
  }

  lemma AtKept(f: Flash, f': Flash, a: nat, s: seq<Byte>)
    requires At(f, a, s) && SameIn(f, f', a, a + |s|)
    ensures At(f', a, s)
  {
  }

  lemma SizeKept(f: Flash, f': Flash, a: nat)
    requires a + 4 <= |f| && SameIn(f, f', a, a + 4)
    ensures SizeAt(f', a) == SizeAt(f, a)
  {
  }

  lemma SameWithin(f: Flash, f': Flash, lo: nat, hi: nat, lo': nat, hi': nat)
    requires SameIn(f, f', lo, hi) && lo <= lo' && hi' <= hi
    ensures SameIn(f, f', lo', hi')
  {
  }

  lemma BlankKept(f: Flash, f': Flash, a: nat, b: nat)
    requires Blank(f, a) && a <= b <= |f| && SameIn(f, f', b, |f|)
    ensures Blank(f', b)
  {
  }

  lemma BlankPart(f: Flash, a: nat, b: nat, n: nat)
    requires Blank(f, a) && a <= b && b + n <= |f|
    ensures BlankField(f, b, n)
  {
  }

  lemma FieldKept(f: Flash, f': Flash, a: nat, n: nat, b: nat, m: nat)
    requires BlankField(f, a, n) && SameIn(f, f', b, b + m) && a <= b && b + m <= a + n
    ensures BlankField(f', b, m) && BlankField(f, b, m)
  {
  }

  lemma SameSelf(f: Flash, lo: nat, hi: nat)
    ensures SameIn(f, f, lo, hi)
  {
  }

  /** The flash after bytes b are programmed from address a on. */
  function Programmed(f: Flash, a: nat, b: seq<Byte>): (f': Flash)
    requires a + |b| <= |f|
    ensures |f'| == |f|
  {
    f[..a] + b + f[a + |b|..]
  }

  lemma ProgrammedAt(f: Flash, a: nat, b: seq<Byte>)
    requires a + |b| <= |f|
    ensures var f' := Programmed(f, a, b);
      At(f', a, b) && SameIn(f, f', 0, a) && SameIn(f, f', a + |b|, |f|)
  {
  }

  /** Programming behind the end leaves all records. */
  lemma LoggedKept(f: Flash, f': Flash, log: seq<Record>, end: nat)
    requires Logged(f, log, end) && SameIn(f, f', 0, end)
    ensures Logged(f', log, end)
  {
    forall k | 0 <= k < |log| ensures RecordAt(f', log[k]) {
      InOrder(f, log, end, k, |log|);
      RecordKept(f, f', log[k]);
    }
  }

  /** What names are compared by: letters without regard to case. */
  function Lower(c: Byte): Byte {
    if 0x41 <= c <= 0x5A then c + 0x20 else c
  }

  function Key(name: seq<Byte>): (k: seq<Byte>)
    ensures |k| == |name|
  {
    seq(|name|, i requires 0 <= i < |name| => Lower(name[i]))
  }

  /** Only this much of a name is compared. */
  function Cut(name: seq<Byte>): seq<Byte> {
    if |name| > MAX_NAME then name[..MAX_NAME] else name
  }

  /** The files: those that are not deleted, by name. */
  ghost function Files(log: seq<Record>): map<seq<Byte>, seq<Byte>> {
    if log == [] then map[]
    else
      var r, rest := log[|log| - 1], log[..|log| - 1];
      if r.deleted then Files(rest) else Files(rest)[Key(r.name) := r.data]
  }

  /** No two files have the same name. */
  ghost predicate Unique(log: seq<Record>) {
    forall i, j :: 0 <= i < j < |log| && !log[i].deleted && !log[j].deleted ==> Key(log[i].name) != Key(log[j].name)
  }

  ghost predicate HasFile(log: seq<Record>, key: seq<Byte>, k: nat) {
    k < |log| && !log[k].deleted && Key(log[k].name) == key
  }

  /** The files are just the records that are not deleted. */
  lemma {:induction false} FilesAre(log: seq<Record>)
    requires Unique(log)
    ensures forall k :: 0 <= k < |log| && !log[k].deleted ==>
      Key(log[k].name) in Files(log) && Files(log)[Key(log[k].name)] == log[k].data
    ensures forall key :: key in Files(log) ==> exists k :: HasFile(log, key, k)
  {
    hide Key;
    if log != [] {
      var rest := log[..|log| - 1];
      FilesAre(rest);
      forall key | key in Files(log) ensures exists k :: HasFile(log, key, k) {
        if key in Files(rest) {
          var k :| HasFile(rest, key, k);
          assert HasFile(log, key, k);
        } else {
          assert HasFile(log, key, |log| - 1);
        }
      }
    }
  }

  /** The record of a file. */
  lemma FindFile(log: seq<Record>, key: seq<Byte>) returns (k: nat)
    requires Unique(log) && key in Files(log)
    ensures HasFile(log, key, k) && Files(log)[key] == log[k].data
  {
    FilesAre(log);
    k :| HasFile(log, key, k);
  }

  lemma NoFile(log: seq<Record>, key: seq<Byte>)
    requires Unique(log) && forall k :: 0 <= k < |log| ==> !HasFile(log, key, k)
    ensures key !in Files(log)
  {
    FilesAre(log);
  }

  function Marked(log: seq<Record>, k: nat): seq<Record>
    requires k < |log|
  {
    log[k := log[k].(deleted := true)]
  }

  /** Marking the record of a file as deleted removes just that file. */
  lemma FilesMarked(log: seq<Record>, k: nat)
    requires Unique(log) && k < |log| && !log[k].deleted
    ensures Unique(Marked(log, k)) && Files(Marked(log, k)) == Files(log) - {Key(log[k].name)}
  {
    var log', key := Marked(log, k), Key(log[k].name);
    UniqueMarked(log, k);
    hide Key, Files, Unique, HasFile;
    forall x | x in Files(log') ensures x in Files(log) && x != key && Files(log')[x] == Files(log)[x] {
      var i := FindFile(log', x);
      MarkedHas(log, k, x, i);
      FileAt(log, x, i);
      FileAt(log', x, i);
    }
    forall x | x in Files(log) && x != key ensures x in Files(log') {
      var i := FindFile(log, x);
      MarkedHas(log, k, x, i);
      FileAt(log', x, i);
    }
  }

  lemma UniqueMarked(log: seq<Record>, k: nat)
    requires Unique(log) && k < |log|
    ensures Unique(Marked(log, k))
  {
  }

  lemma MarkedHas(log: seq<Record>, k: nat, key: seq<Byte>, i: nat)
    requires Unique(log) && k < |log| && !log[k].deleted
    ensures HasFile(Marked(log, k), key, i) <==> HasFile(log, key, i) && key != Key(log[k].name)
    ensures i < |log| ==> Marked(log, k)[i].data == log[i].data
  {
    hide Key;
  }

  lemma FileAt(log: seq<Record>, key: seq<Byte>, k: nat)
    requires Unique(log) && HasFile(log, key, k)
    ensures key in Files(log) && Files(log)[key] == log[k].data
  {
    FilesAre(log);
  }

  /** A new record adds its file. */
  lemma FilesAdded(log: seq<Record>, r: Record)
    requires Unique(log) && Key(r.name) !in Files(log) && !r.deleted
    ensures Unique(log + [r]) && Files(log + [r]) == Files(log)[Key(r.name) := r.data]
  {
    UniqueAdded(log, r);
    assert (log + [r])[..|log|] == log;
    hide Unique, Key;
  }

  lemma UniqueAdded(log: seq<Record>, r: Record)
    requires Unique(log) && Key(r.name) !in Files(log)
    ensures Unique(log + [r])
  {
    hide Key;
    forall i | 0 <= i < |log| && !log[i].deleted ensures Key(log[i].name) != Key(r.name) {
      FileAt(log, Key(log[i].name), i);
    }
  }

  /** What a directory tells of a file. */
  datatype Entry = Entry(name: seq<Byte>, size: nat)

  /** The entries of the files from record k on. */
  ghost function Listing(log: seq<Record>, k: nat): seq<Entry>
    decreases |log| - k
  {
    if k >= |log| then []
    else (if log[k].deleted then [] else [Entry(log[k].name, |log[k].data|)]) + Listing(log, k + 1)
  }

  /** A directory lists the files, each of them with its size. */
  lemma {:induction false} Listed(log: seq<Record>, k: nat, e: Entry)
    requires k <= |log|
    ensures e in Listing(log, k) <==> exists i :: k <= i < |log| && IsEntry(log, i, e)
    decreases |log| - k
  {
    if k < |log| {
      Listed(log, k + 1, e);
      if IsEntry(log, k, e) {
        assert Listing(log, k)[0] == e;
      }
    }
  }

  ghost predicate IsEntry(log: seq<Record>, i: nat, e: Entry)
    requires i < |log|
  {
    !log[i].deleted && e == Entry(log[i].name, |log[i].data|)
  }

  /** What a directory lists is what can be opened: a name, as far as letter case does not matter, is
      listed if and only if it is that of a file, and with the size of that file. */
  lemma ListingIsFiles(log: seq<Record>, name: seq<Byte>)
    requires Unique(log)
    ensures Key(name) in Files(log) <==> exists e :: e in Listing(log, 0) && Key(e.name) == Key(name)
    ensures forall e :: e in Listing(log, 0) && Key(e.name) == Key(name) ==> e.size == |Files(log)[Key(name)]|
  {
    hide Key, Files, Unique;
    forall e | e in Listing(log, 0) && Key(e.name) == Key(name)
      ensures Key(name) in Files(log) && e.size == |Files(log)[Key(name)]|
    {
      Listed(log, 0, e);
      var i :| 0 <= i < |log| && IsEntry(log, i, e);
      FileAt(log, Key(name), i);
    }
    if Key(name) in Files(log) {
      var k := FindFile(log, Key(name));
      var e := Entry(log[k].name, |log[k].data|);
      assert IsEntry(log, k, e);
      Listed(log, 0, e);
    }
  }

  /** No file is listed twice. */
  lemma {:induction false} ListedOnce(log: seq<Record>, k: nat)
    requires Unique(log) && k <= |log|
    ensures forall i, j :: 0 <= i < j < |Listing(log, k)| ==>
      Key(Listing(log, k)[i].name) != Key(Listing(log, k)[j].name)
    decreases |log| - k
  {
    hide Key;
    if k < |log| {
      ListedOnce(log, k + 1);
      if !log[k].deleted {
        var rest := Listing(log, k + 1);
        forall j | 0 <= j < |rest| ensures Key(rest[j].name) != Key(log[k].name) {
          Listed(log, k + 1, rest[j]);
        }
        assert Listing(log, k) == [Entry(log[k].name, |log[k].data|)] + rest;
      }
    }
  }

  const DELETION_MARK: seq<Byte> := [FILE_DELETED, 0xFF, 0xFF, 0xFF]

  /** A record after its deletion mark is programmed. */
  lemma RecordMarked(f: Flash, r: Record)
    requires RecordAt(f, r) && !r.deleted
    ensures DelAddr(r) + 4 <= NextAddr(r) <= |f|
    ensures RecordAt(Programmed(f, DelAddr(r), DELETION_MARK), r.(deleted := true))
  {
    hide Align;
    Extents(r);
    var r', f' := r.(deleted := true), Programmed(f, DelAddr(r), DELETION_MARK);
    assert DelAddr(r') == DelAddr(r) && NextAddr(r') == NextAddr(r);
    ProgrammedAt(f, DelAddr(r), DELETION_MARK);
    assert f'[DelAddr(r) + 0] == DELETION_MARK[0];
    hide DelAddr, NextAddr, SizeAt, Programmed;
    AtKept(f, f', r.addr, r.name + [0]);
    AtKept(f, f', DataAddr(r), r.data);
    SizeKept(f, f', SizeAddr(r));
  }

  /** Programming the deletion mark of record k. */
  lemma LoggedMarked(f: Flash, log: seq<Record>, end: nat, k: nat)
    requires Logged(f, log, end) && k < |log| && !log[k].deleted
    ensures DelAddr(log[k]) + 4 <= end <= |f| && BlankField(f, DelAddr(log[k]), 4)
    ensures Logged(Programmed(f, DelAddr(log[k]), DELETION_MARK), Marked(log, k), end)
    ensures SameIn(f, Programmed(f, DelAddr(log[k]), DELETION_MARK), end, |f|)
  {
    hide RecordAt, Align;
    assert RecordAt(f, log[k]);
    RecordMarked(f, log[k]);
    BlankMark(f, log[k]);
    InOrder(f, log, end, k, |log|);
    Extents(log[k]);
    var f', log' := Programmed(f, DelAddr(log[k]), DELETION_MARK), Marked(log, k);
    ProgrammedAt(f, DelAddr(log[k]), DELETION_MARK);
    hide DelAddr, NextAddr, Programmed;
    forall i | 0 <= i < |log'| ensures RecordAt(f', log'[i]) {
      if i < k {
        InOrder(f, log, end, i, k);
        RecordKept(f, f', log[i]);
      } else if i > k {
        InOrder(f, log, end, k, i);
        RecordKept(f, f', log[i]);
      }
    }
    forall i {:trigger NextAddr(log'[i])} | 0 <= i < |log'| ensures NextAddr(log'[i]) == AddrAt(log', end, i + 1) {
      MarkedNext(log, k, i);
      assert AddrAt(log', end, i + 1) == AddrAt(log, end, i + 1);
    }
  }

  lemma BlankMark(f: Flash, r: Record)
    requires RecordAt(f, r) && !r.deleted
    ensures BlankField(f, DelAddr(r), 4)
  {
  }

  lemma MarkedNext(log: seq<Record>, k: nat, i: nat)
    requires k < |log| && i < |log|
    ensures NextAddr(Marked(log, k)[i]) == NextAddr(log[i]) && DataAddr(Marked(log, k)[i]) == DataAddr(log[i])
  {
  }

  /** The record w that is being written: its name is on the flash, its size is not yet. */
  ghost predicate Started(f: Flash, w: Record, end: nat) {
    && w.addr == end && !w.deleted && NameAt(f, w) && BlankField(f, DelAddr(w), 8) && At(f, DataAddr(w), w.data)
    && DataAddr(w) + |w.data| + 4 <= |f| && Blank(f, DataAddr(w) + |w.data|)
  }

  /** A name is programmed at the end. */
  lemma RecordStarted(f: Flash, name: seq<Byte>, end: nat)
    requires Blank(f, end) && end % 4 == 0 && GoodName(name) && |f| % 4 == 0 && end + |name| + 15 <= |f|
    ensures Started(Programmed(f, end, name + [0]), Record(end, name, false, []), end) && BlankField(f, end, |name| + 1)
    ensures SameIn(f, Programmed(f, end, name + [0]), 0, end)
  {
    hide Align, At, Blank, BlankField, SameIn, GoodName;
    var w, f' := Record(end, name, false, []), Programmed(f, end, name + [0]);
    Extents(w);
    ProgrammedAt(f, end, name + [0]);
    hide DelAddr, Programmed;
    var a := end + |name| + 1;
    SameWithin(f, f', a, |f|, DelAddr(w), |f|);
    BlankKept(f, f', end, DelAddr(w));
    BlankPart(f', DelAddr(w), DelAddr(w), 8);
    BlankPart(f, end, end, |name| + 1);
    SameSelf(f', DataAddr(w), |f|);
    BlankKept(f', f', DelAddr(w), DataAddr(w));
    NothingAt(f', DataAddr(w));
  }

  lemma NothingAt(f: Flash, a: nat)
    requires a <= |f|
    ensures At(f, a, [])
  {
  }

  /** Data is programmed behind what is there of a record. */
  lemma RecordExtended(f: Flash, w: Record, end: nat, data: seq<Byte>)
    requires Started(f, w, end) && DataAddr(w) + |w.data| + |data| + 4 <= |f|
    ensures var a := DataAddr(w) + |w.data|; var f' := Programmed(f, a, data);
      && BlankField(f, a, |data|) && Started(f', w.(data := w.data + data), end) && SameIn(f, f', 0, end)
  {
    hide Align, At, Blank, BlankField, SameIn, GoodName;
    var a, w' := DataAddr(w) + |w.data|, w.(data := w.data + data);
    var f' := Programmed(f, a, data);
    Extents(w);
    assert DelAddr(w') == DelAddr(w);
    ProgrammedAt(f, a, data);
    hide DelAddr, Programmed;
    SameWithin(f, f', 0, a, w.addr, w.addr + |w.name| + 1);
    SameWithin(f, f', 0, a, DelAddr(w), DelAddr(w) + 8);
    SameWithin(f, f', 0, a, DataAddr(w), a);
    SameWithin(f, f', 0, a, 0, end);
    AtKept(f, f', w.addr, w.name + [0]);
    FieldKept(f, f', DelAddr(w), 8, DelAddr(w), 8);
    AtKept(f, f', DataAddr(w), w.data);
    AtJoined(f', DataAddr(w), w.data, data);
    BlankPart(f, a, a, |data|);
    BlankKept(f, f', a, a + |data|);
  }

  lemma AtJoined(f: Flash, a: nat, s: seq<Byte>, t: seq<Byte>)
    requires At(f, a, s) && At(f, a + |s|, t)
    ensures At(f, a, s + t)
  {
    forall i | 0 <= i < |s + t| ensures f[a + i] == (s + t)[i] {
      if i >= |s| {
        assert f[a + |s| + (i - |s|)] == t[i - |s|];
      }
    }
  }

  /** The 4 bytes of a size. */
  function SizeBytes(n: nat): (b: seq<Byte>)
    ensures |b| == 4
  {
    [ValueByte(n, 0), ValueByte(n, 1), ValueByte(n, 2), ValueByte(n, 3)]
  }

  lemma SizeRead(f: Flash, a: nat, n: nat)
    requires At(f, a, SizeBytes(n)) && n < 0x1_0000_0000
    ensures SizeAt(f, a) == n
  {
    hide ValueByte;
    Packed32(n);
    var s := SizeBytes(n);
    assert f[a + 0] == s[0] && f[a + 1] == s[1] && f[a + 2] == s[2] && f[a + 3] == s[3];
  }

  lemma RoomBehind(f: Flash, w: Record, end: nat)
    requires Started(f, w, end) && |f| % 4 == 0
    ensures NextAddr(w) + 4 <= |f|
  {
    hide Align, At, NameAt, Blank, BlankField;
    AlignedBelow(DataAddr(w) + |w.data|, |f| - 4);
  }

  /** The size is programmed: the record is complete, and the next one may follow. */
  lemma RecordClosed(f: Flash, w: Record, end: nat)
    requires Started(f, w, end) && |f| % 4 == 0 && |f| < 0x1_0000_0000
    ensures SizeAddr(w) + 4 <= |f|
    ensures var f' := Programmed(f, SizeAddr(w), SizeBytes(|w.data|));
      && BlankField(f, SizeAddr(w), 4) && RecordAt(f', w) && Blank(f', NextAddr(w)) && SameIn(f, f', 0, end)
  {
    hide Align, At, Blank, BlankField, SameIn, GoodName;
    var s := SizeBytes(|w.data|);
    var f' := Programmed(f, SizeAddr(w), s);
    Extents(w);
    RoomBehind(f, w, end);
    ProgrammedAt(f, SizeAddr(w), s);
    hide DelAddr, NextAddr, Programmed, SizeBytes, SizeAt;
    SameWithin(f, f', 0, SizeAddr(w), w.addr, w.addr + |w.name| + 1);
    SameWithin(f, f', 0, SizeAddr(w), DelAddr(w), DelAddr(w) + 4);
    SameWithin(f, f', DataAddr(w), |f|, DataAddr(w), DataAddr(w) + |w.data|);
    SameWithin(f, f', DataAddr(w), |f|, NextAddr(w), |f|);
    SameWithin(f, f', 0, SizeAddr(w), 0, end);
    SameSelf(f, SizeAddr(w), SizeAddr(w) + 4);
    AtKept(f, f', w.addr, w.name + [0]);
    AtKept(f, f', DataAddr(w), w.data);
    FieldKept(f, f', DelAddr(w), 8, DelAddr(w), 4);
    FieldKept(f, f, DelAddr(w), 8, SizeAddr(w), 4);
    NotMarked(f', DelAddr(w));
    BlankKept(f, f', DataAddr(w) + |w.data|, NextAddr(w));
    SizeRead(f', SizeAddr(w), |w.data|);
  }

  lemma NotMarked(f: Flash, a: nat)
    requires BlankField(f, a, 4)
    ensures f[a] != FILE_DELETED
  {
  }

  /** A record is added behind the others. */
  lemma LoggedAdded(f: Flash, log: seq<Record>, end: nat, w: Record)
    requires Logged(f, log, end) && RecordAt(f, w) && w.addr == end
    ensures Logged(f, log + [w], NextAddr(w))
  {
    hide RecordAt, NextAddr;
    var log', end' := log + [w], NextAddr(w);
    NextEnd(f, w);
    forall i {:trigger NextAddr(log'[i])} | 0 <= i < |log'| ensures NextAddr(log'[i]) == AddrAt(log', end', i + 1) {
      if i < |log| {
        assert NextAddr(log[i]) == AddrAt(log, end, i + 1);
      }
    }
  }

  lemma NextEnd(f: Flash, w: Record)
    requires RecordAt(f, w)
    ensures NextAddr(w) % 4 == 0 && NextAddr(w) + 4 <= |f|
  {
  }

  /** A name that begins with the end marker leaves the end where it was, but not all is blank behind it. */
  lemma MarkerWritten(f: Flash, log: seq<Record>, end: nat, name: seq<Byte>)
    requires Logged(f, log, end) && Blank(f, end) && end + |name| + 1 <= |f| && name != []
    ensures var f' := Programmed(f, end, name + [0]);
      && Logged(f', log, end) && (f'[end] == END_MARKER <==> name[0] == END_MARKER) && !Blank(f', end)
  {
    hide Logged, RecordAt;
    var f', b := Programmed(f, end, name + [0]), name + [0];
    ProgrammedAt(f, end, b);
    LoggedKept(f, f', log, end);
    hide Programmed;
    assert f'[end + 0] == b[0] && f'[end + |name|] == b[|name|];
  }
}
