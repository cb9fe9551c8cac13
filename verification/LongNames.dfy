/** Long file names, in pieces of 13 units in directory entries of a FAT volume. */
module LongNames {
  import opened Bytes

  type Word = w: int | 0 <= w < 0x1_0000

  const MAX_LFN := 30
  const AM_LFN := 0x0F
  const LDIR_ORD := 0
  const LDIR_ATTR := 11
  const LDIR_TYPE := 12
  const LDIR_CHKSUM := 13
  const LDIR_FST_CLUS_LO := 26
  const FILLER: Word := 0xFFFF

  /** Where the units of a piece are in an entry. */
  const LFN_OFS: seq<nat> := [1, 3, 5, 7, 9, 14, 16, 18, 20, 22, 24, 28, 30]

  /** The units of names: neither the terminator nor the filler. */
  ghost predicate Name(name: seq<Word>) {
    0 < |name| <= MAX_LFN && 0 !in name && FILLER !in name
  }

  /** The buffer holds a name and its terminator. */
  ghost predicate Holds(buf: seq<Word>, name: seq<Word>) {
    |buf| == MAX_LFN + 1 && Name(name) && buf[..|name|] == name && buf[|name|] == 0
  }

  /** The number of entries for the pieces of a name. */
  function Pieces(name: seq<Word>): nat {
    (|name| + 12) / 13
  }

  /** Unit p of a name that is filled up behind its terminator. */
  function Unit(name: seq<Word>, p: nat): Word {
    if p < |name| then name[p] else if p == |name| then 0 else FILLER
  }

  function LoadWord(dir: seq<Byte>, o: nat): Word
    requires o + 1 < |dir|
  {
    dir[o] + 0x100 * (dir[o + 1] as int)
  }

  lemma Between(s: nat)
    requires s < 13
    ensures 0 < LFN_OFS[s] <= 30
    ensures LFN_OFS[s] !in {LDIR_ATTR, LDIR_TYPE, LDIR_CHKSUM, LDIR_FST_CLUS_LO, LDIR_FST_CLUS_LO + 1}
    ensures LFN_OFS[s] + 1 !in {LDIR_ATTR, LDIR_TYPE, LDIR_CHKSUM, LDIR_FST_CLUS_LO, LDIR_FST_CLUS_LO + 1}
  {
  }

  /** Unit s of an entry. */
  function UnitAt(dir: seq<Byte>, s: nat): Word
    requires |dir| == 32 && s < 13
  {
    Between(s);
    LoadWord(dir, LFN_OFS[s])
  }

  /** The fields of an entry besides the units and the order. */
  ghost predicate Fields(dir: seq<Byte>, sum: Byte) {
    && |dir| == 32 && dir[LDIR_ATTR] == AM_LFN && dir[LDIR_TYPE] == 0 && dir[LDIR_CHKSUM] == sum
    && LoadWord(dir, LDIR_FST_CLUS_LO) == 0
  }

  /** Is piece ord the last one? */
  predicate Last(name: seq<Word>, ord: nat) {
    13 * ord >= |name|
  }

  /** The entry holds piece ord of the name. */
  ghost predicate Piece(dir: seq<Byte>, name: seq<Word>, ord: nat, sum: Byte) {
    && |dir| == 32 && 0 < ord <= Pieces(name)
    && dir[LDIR_ORD] == (if Last(name, ord) then ord + 0x40 else ord)
    && Fields(dir, sum) && forall s :: 0 <= s < 13 ==> UnitAt(dir, s) == Unit(name, 13 * (ord - 1) + s)
  }

  lemma PieceFacts(name: seq<Word>, ord: nat)
    requires Name(name) && 0 < ord <= Pieces(name)
    ensures ord <= 3 && 13 * (ord - 1) < |name| && (Last(name, ord) <==> ord == Pieces(name))
  {
  }

  method StoreWord(dir: array<Byte>, o: nat, w: Word)
    requires o + 1 < dir.Length
    modifies dir
    ensures LoadWord(dir[..], o) == w
    ensures forall k :: 0 <= k < dir.Length && k != o && k != o + 1 ==> dir[k] == old(dir[k])
  {
    dir[o] := w % 0x100;
    dir[o + 1] := w / 0x100;
  }

  /** Units that lie apart stay when another one is stored. */
  lemma Apart(s: nat, t: nat)
    requires s < t < 13
    ensures LFN_OFS[s] + 2 <= LFN_OFS[t]
  {
  }

  /** Stores unit s of an entry. */
  method StoreUnit(dir: array<Byte>, s: nat, w: Word)
    requires dir.Length == 32 && s < 13
    modifies dir
    ensures forall t :: 0 <= t < 13 ==> UnitAt(dir[..], t) == if t == s then w else old(UnitAt(dir[..], t))
    ensures forall sum :: old(Fields(dir[..], sum)) ==> Fields(dir[..], sum)
  {
    Between(s);
    StoreWord(dir, LFN_OFS[s], w);
    forall t | 0 <= t < 13 && t != s ensures UnitAt(dir[..], t) == old(UnitAt(dir[..], t)) {
      Between(t);
      if t < s {
        Apart(t, s);
      } else {
        Apart(s, t);
      }
    }
  }

  /** Stores the order of an entry. */
  method StoreOrder(dir: array<Byte>, ord: Byte)
    requires dir.Length == 32
    modifies dir
    ensures dir[LDIR_ORD] == ord && (forall sum :: old(Fields(dir[..], sum)) ==> Fields(dir[..], sum))
    ensures forall t :: 0 <= t < 13 ==> UnitAt(dir[..], t) == old(UnitAt(dir[..], t))
  {
    dir[LDIR_ORD] := ord;
    forall t | 0 <= t < 13 ensures UnitAt(dir[..], t) == old(UnitAt(dir[..], t)) {
      Between(t);
    }
  }

  /** Puts piece ord of the name in the buffer into a directory entry. */
  method FitLfn(lfnbuf: array<Word>, dir: array<Byte>, ord0: nat, sum: Byte, ghost name: seq<Word>)
    requires Holds(lfnbuf[..], name) && dir.Length == 32 && 0 < ord0 <= Pieces(name)
    modifies dir
    ensures Piece(dir[..], name, ord0, sum)
  {
    hide UnitAt, LoadWord;
    PieceFacts(name, ord0);
    var ord := ord0;
    dir[LDIR_CHKSUM] := sum;
    dir[LDIR_ATTR] := AM_LFN;
    dir[LDIR_TYPE] := 0;
    StoreWord(dir, LDIR_FST_CLUS_LO, 0);
    assert Fields(dir[..], sum);
    hide Fields;
    ghost var p := 13 * (ord0 - 1);
    var i := (ord - 1) * 13;
    var s: nat, wc: Word := 0, 0;
    while s < 13
      invariant s <= 13 && Fields(dir[..], sum)
      invariant forall t :: 0 <= t < s ==> UnitAt(dir[..], t) == Unit(name, p + t)
      invariant if p + s <= |name| then i == p + s && wc != FILLER else i == |name| + 1 && wc == FILLER
    {
      if wc != FILLER {
        wc := lfnbuf[i];
        i := i + 1;
      }
      assert wc == Unit(name, p + s);
      StoreUnit(dir, s, wc);
      if wc == 0 {
        wc := FILLER;
      }
      s := s + 1;
    }
    if wc == FILLER || lfnbuf[i] == 0 {
      ord := ord + 0x40;
    }
    StoreOrder(dir, ord);
  }

  /** From position p on, the buffer holds the name and its terminator. */
  ghost predicate Picked(buf: seq<Word>, name: seq<Word>, p: nat) {
    |buf| == MAX_LFN + 1 && |name| <= MAX_LFN && (forall k :: p <= k < |name| ==> buf[k] == name[k]) && buf[|name|] == 0
  }

  /** Picks the piece that an entry holds into the buffer; fails when the buffer is too short, for which
      the terminator and a cell behind it are counted. */
  method PickLfn(lfnbuf: array<Word>, dir: array<Byte>, ghost name: seq<Word>, ghost ord: nat,
                 ghost sum: Byte) returns (ok: bool)
    requires lfnbuf.Length == MAX_LFN + 1 && Name(name) && Piece(dir[..], name, ord, sum)
    modifies lfnbuf
    ensures ok == !(Last(name, ord) && |name| >= MAX_LFN - 1)
    ensures ok && (Last(name, ord) || Picked(old(lfnbuf[..]), name, 13 * ord)) ==>
      Picked(lfnbuf[..], name, 13 * (ord - 1))
  {
    PieceFacts(name, ord);
    ghost var p := 13 * (ord - 1);
    var i: nat := (dir[LDIR_ORD] % 0x40 - 1) * 13;
    var s: nat, wc: Word := 0, 1;
    while s < 13
      invariant s <= 13 && (s > 0 || wc == 1)
      invariant if p + s <= |name| then i == p + s && wc != 0 else i == |name| + 1 && wc == 0
      invariant i <= MAX_LFN && forall k :: p <= k < i ==> lfnbuf[k] == Unit(name, k)
      invariant forall k :: i <= k < lfnbuf.Length ==> lfnbuf[k] == old(lfnbuf[k])
    {
      var uc := UnitAt(dir[..], s);
      assert uc == Unit(name, p + s);
      if wc != 0 {
        if i >= MAX_LFN {
          return false;
        }
        wc := uc;
        lfnbuf[i] := wc;
        i := i + 1;
      } else {
        if uc != FILLER {
          return false;
        }
      }
      s := s + 1;
    }
    if dir[LDIR_ORD] / 0x40 % 2 == 1 {
      if i >= MAX_LFN {
        return false;
      }
      lfnbuf[i] := 0;
    }
    return true;
  }

  /** Upper case of units; only the terminator is converted to the terminator. */
  ghost predicate KeepsEnd(upper: Word -> Word) {
    forall w :: upper(w) == 0 <==> w == 0
  }

  /** The buffer agrees with the name from p up to q, without regard to case. */
  ghost predicate Agrees(upper: Word -> Word, buf: seq<Word>, name: seq<Word>, p: nat, q: nat) {
    forall k :: p <= k < q && k < |name| && k < |buf| ==> upper(buf[k]) == upper(name[k])
  }

  /** Compares the piece that an entry holds with the name in the buffer. */
  method CmpLfn(upper: Word -> Word, lfnbuf: array<Word>, dir: array<Byte>, ghost name: seq<Word>, ghost ord: nat,
                ghost sum: Byte)
    returns (matched: bool)
    requires lfnbuf.Length == MAX_LFN + 1 && Name(name) && Piece(dir[..], name, ord, sum) && KeepsEnd(upper)
    ensures matched == (Agrees(upper, lfnbuf[..], name, 13 * (ord - 1), 13 * ord)
                        && (Last(name, ord) ==> |name| < MAX_LFN && lfnbuf[|name|] == 0))
  {
    hide UnitAt;
    PieceFacts(name, ord);
    ghost var p, buf := 13 * (ord - 1), lfnbuf[..];
    var i: nat := (dir[LDIR_ORD] % 0x40 - 1) * 13;
    var s: nat, wc: Word := 0, 1;
    while s < 13
      invariant s <= 13 && (s > 0 || wc == 1)
      invariant if p + s <= |name| then i == p + s && wc != 0
        else i == |name| + 1 <= MAX_LFN && wc == 0 && lfnbuf[|name|] == 0
      invariant Agrees(upper, buf, name, p, i)
    {
      var uc := UnitAt(dir[..], s);
      assert uc == Unit(name, p + s);
      if wc != 0 {
        wc := upper(uc);
        if i >= MAX_LFN {
          return false;
        }
        if wc != upper(lfnbuf[i]) {
          assert i < |name| ==> upper(buf[i]) != upper(name[i]);
          return false;
        }
        i := i + 1;
      } else {
        if uc != FILLER {
          return false;
        }
      }
      s := s + 1;
    }
    if dir[LDIR_ORD] / 0x40 % 2 == 1 && wc != 0 && lfnbuf[i] != 0 {
      return false;
    }
    return true;
  }

  /** The entries hold all pieces of the name, the last one first. */
  ghost predicate Registered(entries: seq<array<Byte>>, name: seq<Word>, sum: Byte)
    reads entries
  {
    |entries| == Pieces(name) && forall k :: 0 <= k < |entries| ==> Piece(entries[k][..], name, |entries| - k, sum)
  }

  /** The number of entries that a name takes up, with the one for the short name. */
  method EntriesFor(lfnbuf: array<Word>, ghost name: seq<Word>) returns (ne: nat)
    requires Holds(lfnbuf[..], name)
    ensures ne == Pieces(name) + 1
  {
    ne := 0;
    while lfnbuf[ne] != 0
      invariant ne <= |name|
      decreases |name| - ne
    {
      assert lfnbuf[..][ne] == name[..][ne];
      ne := ne + 1;
    }
    assert lfnbuf[..|name|] == lfnbuf[..][..|name|];
    assert ne == |name|;
    ne := (ne + 25) / 13;
  }

  /** Stores the name in the buffer in consecutive entries, the last piece first. */
  method Register(lfnbuf: array<Word>, entries: seq<array<Byte>>, sum: Byte, ghost name: seq<Word>)
    requires Holds(lfnbuf[..], name) && |entries| == Pieces(name)
    requires forall k :: 0 <= k < |entries| ==> entries[k].Length == 32
    requires forall i, k :: 0 <= i < k < |entries| ==> entries[i] != entries[k]
    modifies entries
    ensures Registered(entries, name, sum)
  {
    hide Piece, Holds;
    var ne := EntriesFor(lfnbuf, name);
    ne := ne - 1;
    ghost var before := lfnbuf[..];
    var k := 0;
    while ne > 0
      invariant k + ne == |entries| && lfnbuf[..] == before
      invariant forall j :: 0 <= j < k ==> Piece(entries[j][..], name, |entries| - j, sum)
    {
      FitLfn(lfnbuf, entries[k], ne, sum, name);
      ne := ne - 1;
      k := k + 1;
    }
  }

  /** Reads the entries in front of that of a short name: is there a long name that belongs to it? */
  method ReadName(lfnbuf: array<Word>, entries: seq<array<Byte>>, sfnSum: Byte, ghost name: seq<Word>,
                  ghost sum0: Byte) returns (found: bool)
    requires lfnbuf.Length == MAX_LFN + 1 && Name(name) && Registered(entries, name, sum0)
    modifies lfnbuf
    ensures found == (|name| < MAX_LFN - 1 && sfnSum == sum0)
    ensures found ==> Holds(lfnbuf[..], name)
  {
    hide Name, Fields;
    var ord: nat, sum: Byte := 0xFF, 0xFF;
    NameLength(name);
    for k := 0 to |entries|
      invariant k > 0 ==> sum == sum0
      invariant k > 0 && |name| < MAX_LFN - 1 ==>
        ord == |entries| - k && Picked(lfnbuf[..], name, 13 * (|entries| - k))
      invariant k == 0 || |name| >= MAX_LFN - 1 ==> ord == 0xFF
    {
      var dir := entries[k];
      assert Piece(dir[..], name, |entries| - k, sum0);
      PieceIs(dir[..], name, |entries| - k, sum0);
      var c: nat := dir[LDIR_ORD];
      if c / 0x40 % 2 == 1 {
        sum := dir[LDIR_CHKSUM];
        c := c - 0x40;
        ord := c;
      }
      var ok := c == ord && sum == dir[LDIR_CHKSUM];
      if ok {
        ok := PickLfn(lfnbuf, dir, name, |entries| - k, sum0);
      }
      ord := if ok then ord - 1 else 0xFF;
    }
    found := ord == 0 && sum == sfnSum;
    PickedAll(lfnbuf[..], name);
  }

  lemma NameLength(name: seq<Word>)
    requires Name(name)
    ensures 0 < |name| <= MAX_LFN && Last(name, Pieces(name)) && 0 < Pieces(name) <= 3
  {
  }

  lemma PieceIs(dir: seq<Byte>, name: seq<Word>, ord: nat, sum: Byte)
    requires Name(name) && Piece(dir, name, ord, sum)
    ensures dir[LDIR_ORD] == (if ord == Pieces(name) then ord + 0x40 else ord) && dir[LDIR_CHKSUM] == sum
    ensures 0 < ord <= 3
    ensures Last(name, ord) <==> ord == Pieces(name)
  {
  }

  lemma PickedAll(buf: seq<Word>, name: seq<Word>)
    requires Name(name)
    ensures Picked(buf, name, 0) ==> Holds(buf, name)
  {
  }

  /** Compares the entries in front of that of a short name with the name that is looked for, which is in
      the buffer. */
  method FindName(upper: Word -> Word, lfnbuf: array<Word>, entries: seq<array<Byte>>, sfnSum: Byte,
                  ghost sought: seq<Word>,
                  ghost name: seq<Word>, ghost sum0: Byte) returns (found: bool)
    requires Holds(lfnbuf[..], sought) && Name(name) && Registered(entries, name, sum0) && KeepsEnd(upper)
    ensures found == (|name| < MAX_LFN && sfnSum == sum0 && SameName(upper, sought, name))
  {
    hide Name, Fields, KeepsEnd, Agrees, UnitAt, SameName;
    var ord: nat, sum: Byte := 0xFF, 0xFF;
    NameLength(name);
    ghost var buf := lfnbuf[..];
    for k := 0 to |entries|
      invariant k > 0 ==> sum == sum0
      invariant k == 0 ==> ord == 0xFF
      invariant k > 0 ==> ord == |entries| - k || ord == 0xFF
      invariant k > 0 ==> (ord == |entries| - k <==>
        Agrees(upper, buf, name, 13 * (|entries| - k), 13 * |entries|) && |name| < MAX_LFN && buf[|name|] == 0)
    {
      var dir := entries[k];
      assert Piece(dir[..], name, |entries| - k, sum0);
      PieceIs(dir[..], name, |entries| - k, sum0);
      AgreesMore(upper, buf, name, 13 * (|entries| - k - 1), 13 * (|entries| - k), 13 * |entries|);
      var c: nat := dir[LDIR_ORD];
      if c / 0x40 % 2 == 1 {
        sum := dir[LDIR_CHKSUM];
        c := c - 0x40;
        ord := c;
      }
      var ok := c == ord && sum == dir[LDIR_CHKSUM];
      if ok {
        ok := CmpLfn(upper, lfnbuf, dir, name, |entries| - k, sum0);
      }
      ord := if ok then ord - 1 else 0xFF;
    }
    AgreesAll(upper, buf, sought, name);
    found := ord == 0 && sum == sfnSum;
  }

  /** The names are equal after conversion to upper case. */
  ghost predicate SameName(upper: Word -> Word, a: seq<Word>, b: seq<Word>) {
    |a| == |b| && forall k :: 0 <= k < |a| ==> upper(a[k]) == upper(b[k])
  }

  lemma AgreesMore(upper: Word -> Word, buf: seq<Word>, name: seq<Word>, p: nat, q: nat, r: nat)
    requires p <= q <= r
    ensures Agrees(upper, buf, name, p, r) <==> Agrees(upper, buf, name, p, q) && Agrees(upper, buf, name, q, r)
    ensures Agrees(upper, buf, name, r, r)
  {
  }

  lemma AgreesAll(upper: Word -> Word, buf: seq<Word>, sought: seq<Word>, name: seq<Word>)
    requires Holds(buf, sought) && Name(name) && KeepsEnd(upper)
    ensures Agrees(upper, buf, name, 0, 13 * Pieces(name)) && buf[|name|] == 0 <==> SameName(upper, sought, name)
  {
    forall k | 0 <= k < |sought| ensures buf[k] == sought[k] {
      assert buf[..|sought|][k] == sought[k];
    }
    if |sought| < |name| {
      assert upper(buf[|sought|]) == 0 && upper(name[|sought|]) != 0;
    }
  }
}
