/** How the write-once file system looks for a file: it reads the flash record by record, whatever is there. */
module WofsScan {
  import opened Bytes
  import opened WofsLog

  /** What is read as a record: where, the name, whether it is marked as deleted, and the size. */
  datatype Seen = Seen(addr: nat, name: seq<Byte>, deleted: bool, size: nat)

  function MarkAddr(s: Seen): nat {
    Align(s.addr + |s.name| + 1)
  }

  function BaseAddr(s: Seen): nat {
    MarkAddr(s) + 8
  }

  /** Where the next record is looked for; addresses are added as machine words. */
  function Next(s: Seen): nat {
    Align((BaseAddr(s) + s.size) % 0x1_0000_0000) % 0x1_0000_0000
  }

  ghost predicate SeenAt(f: Flash, s: Seen) {
    && s.addr < |f| && f[s.addr] != END_MARKER && |s.name| <= MAX_NAME && 0 !in s.name && At(f, s.addr, s.name)
    && BaseAddr(s) <= |f| && (|s.name| < MAX_NAME ==> f[s.addr + |s.name|] == 0)
    && s.deleted == (f[MarkAddr(s)] == FILE_DELETED) && s.size == SizeAt(f, MarkAddr(s) + 4)
  }

  predicate Hits(s: Seen, fname: seq<Byte>) {
    !s.deleted && Key(Cut(fname)) == Key(Cut(s.name))
  }

  function ScanAddr(seen: seq<Seen>, i: nat): nat
    requires i <= |seen|
  {
    if i == 0 then 0 else Next(seen[i - 1])
  }

  /** Records are read one after the other. */
  ghost predicate Chain(f: Flash, seen: seq<Seen>) {
    forall i :: 0 <= i < |seen| ==> SeenAt(f, seen[i]) && seen[i].addr == ScanAddr(seen, i)
  }

  lemma ChainMore(f: Flash, seen: seq<Seen>, s: Seen)
    requires Chain(f, seen) && SeenAt(f, s) && s.addr == ScanAddr(seen, |seen|)
    ensures Chain(f, seen + [s]) && ScanAddr(seen + [s], |seen| + 1) == Next(s)
  {
    hide SeenAt, Next;
    var more := seen + [s];
    forall i | 0 <= i < |more| ensures SeenAt(f, more[i]) && more[i].addr == ScanAddr(more, i) {
      if i < |seen| {
        assert more[i] == seen[i];
      }
    }
  }

  /** None of the first n records read has the name. */
  ghost predicate NoneHits(seen: seq<Seen>, n: int, fname: seq<Byte>) {
    forall i :: 0 <= i < n && i < |seen| ==> !Hits(seen[i], fname)
  }

  /** The search for a name reads all of seen; it stops at the first record of that name, or at an end marker. */
  ghost predicate Scan(f: Flash, seen: seq<Seen>, stop: nat, fname: seq<Byte>) {
    && Chain(f, seen) && NoneHits(seen, |seen| - 1, fname)
    && (Found(seen, fname) || (ScanAddr(seen, |seen|) == stop < |f| && f[stop] == END_MARKER))
  }

  ghost predicate Found(seen: seq<Seen>, fname: seq<Byte>) {
    seen != [] && Hits(seen[|seen| - 1], fname)
  }

  lemma ScanBegins(seen: seq<Seen>, fname: seq<Byte>)
    ensures ScanAddr(seen, 0) == 0 && (seen == [] ==> !Found(seen, fname))
  {
  }

  /** The search reads record k; if it has the name, it is the last one. */
  lemma SeenNext(f: Flash, seen: seq<Seen>, stop: nat, fname: seq<Byte>, k: nat)
    requires Scan(f, seen, stop, fname) && k < |seen|
    ensures SeenAt(f, seen[k]) && seen[k].addr == ScanAddr(seen, k) && ScanAddr(seen, k + 1) == Next(seen[k])
    ensures k < |seen| - 1 ==> !Hits(seen[k], fname)
    ensures k == |seen| - 1 ==> (Hits(seen[k], fname) <==> Found(seen, fname))
  {
    hide SeenAt, Hits, Next;
  }

  lemma ScanEnds(f: Flash, seen: seq<Seen>, stop: nat, fname: seq<Byte>)
    requires Scan(f, seen, stop, fname)
    ensures !Found(seen, fname) ==> ScanAddr(seen, |seen|) == stop < |f| && f[stop] == END_MARKER
    ensures seen == [] ==> !Found(seen, fname)
  {
  }

  /** A closed record as the search sees it; one that is being written has no size yet. */
  function SeenOf(r: Record): Seen {
    Seen(r.addr, r.name, r.deleted, |r.data|)
  }

  function Unfinished(r: Record): Seen {
    Seen(r.addr, r.name, false, 0xFFFF_FFFF)
  }

  ghost function SeenAll(log: seq<Record>): (s: seq<Seen>)
    ensures |s| == |log|
  {
    seq(|log|, i requires 0 <= i < |log| => SeenOf(log[i]))
  }

  lemma RecordSeen(f: Flash, r: Record)
    requires RecordAt(f, r) && |f| < 0x8000_0000
    ensures SeenAt(f, SeenOf(r)) && Next(SeenOf(r)) == NextAddr(r) && BaseAddr(SeenOf(r)) == DataAddr(r)
  {
    hide Align;
    NameSeen(f, r);
    Extents(r);
    NoWrap(DataAddr(r), |r.data|);
    assert MarkAddr(SeenOf(r)) == DelAddr(r);
  }

  lemma NoWrap(a: nat, n: nat)
    requires Align(a + n) < 0x8000_0000
    ensures Align((a + n) % 0x1_0000_0000) % 0x1_0000_0000 == Align(a + n)
  {
    Aligned(a + n);
    assert (a + n) % 0x1_0000_0000 == a + n;
  }

  /** A name on the flash as the search reads it. */
  lemma NameSeen(f: Flash, r: Record)
    requires NameAt(f, r)
    ensures At(f, r.addr, r.name) && r.addr + |r.name| < |f| && f[r.addr + |r.name|] == 0 && f[r.addr] != END_MARKER
  {
    var s := r.name + [0];
    assert f[r.addr + 0] == s[0] && f[r.addr + |r.name|] == s[|r.name|];
    forall i | 0 <= i < |r.name| ensures f[r.addr + i] == r.name[i] {
      assert f[r.addr + i] == s[i];
    }
  }

  /** Going on by 2^32 - 1 bytes leads to the byte before. */
  lemma WrapBack(a: nat)
    requires 0 < a < 0x8000_0000 && a % 4 == 0
    ensures Align((a + 0xFFFF_FFFF) % 0x1_0000_0000) % 0x1_0000_0000 == a
  {
    assert (a + 0xFFFF_FFFF) % 0x1_0000_0000 == a - 1;
  }

  /** The search takes a record that is being written for one of 2^32 - 1 bytes, and goes on where its data begins. */
  lemma UnfinishedSeen(f: Flash, w: Record, end: nat)
    requires Started(f, w, end) && |f| < 0x8000_0000
    ensures SeenAt(f, Unfinished(w)) && Next(Unfinished(w)) == DataAddr(w) == BaseAddr(Unfinished(w)) < |f|
    ensures f[DataAddr(w)] == END_MARKER <==> w.data == [] || w.data[0] == END_MARKER
  {
    hide Align;
    var a := DelAddr(w);
    NameSeen(f, w);
    Extents(w);
    WrapBack(DataAddr(w));
    assert MarkAddr(Unfinished(w)) == a;
    assert f[a] == END_MARKER;
    assert f[a + 4] == END_MARKER && f[a + 5] == END_MARKER && f[a + 6] == END_MARKER && f[a + 7] == END_MARKER;
    if w.data != [] {
      assert f[DataAddr(w) + 0] == w.data[0];
    }
  }

  /** The records are what a search reads first. */
  lemma LogSeen(f: Flash, log: seq<Record>, end: nat, n: nat)
    requires Logged(f, log, end) && n <= |log| && |f| < 0x8000_0000
    ensures Chain(f, SeenAll(log[..n])) && ScanAddr(SeenAll(log[..n]), n) == AddrAt(log, end, n)
  {
    hide RecordAt, SeenAt, NextAddr, Next;
    var seen := SeenAll(log[..n]);
    forall i | 0 <= i < n ensures SeenAt(f, seen[i]) && Next(seen[i]) == AddrAt(log, end, i + 1) {
      RecordSeen(f, log[i]);
      assert NextAddr(log[i]) == AddrAt(log, end, i + 1);
    }
  }

  lemma HitsFile(log: seq<Record>, fname: seq<Byte>, k: nat)
    requires k < |log| && |log[k].name| <= MAX_NAME
    ensures Hits(SeenOf(log[k]), fname) <==> HasFile(log, Key(Cut(fname)), k)
  {
  }

  lemma NamesFit(f: Flash, log: seq<Record>, end: nat, k: nat)
    requires Logged(f, log, end) && k < |log|
    ensures |log[k].name| <= MAX_NAME
  {
    assert RecordAt(f, log[k]);
  }

  /** The search for the name of a file ends at its record. */
  lemma FileScanned(f: Flash, log: seq<Record>, end: nat, fname: seq<Byte>, k: nat, stop: nat)
    requires Logged(f, log, end) && |f| < 0x8000_0000 && Unique(log) && HasFile(log, Key(Cut(fname)), k)
    ensures Scan(f, SeenAll(log[..k + 1]), stop, fname) && Found(SeenAll(log[..k + 1]), fname)
  {
    hide Key, Cut, Logged, Chain, Hits, HasFile;
    FileIndex(log, Key(Cut(fname)), k);
    LogSeen(f, log, end, k + 1);
    var seen := SeenAll(log[..k + 1]);
    forall i | 0 <= i < |seen| ensures Hits(seen[i], fname) <==> i == k {
      NamesFit(f, log, end, i);
      HitsFile(log, fname, i);
    }
  }

  lemma FileIndex(log: seq<Record>, key: seq<Byte>, k: nat)
    requires Unique(log) && HasFile(log, key, k)
    ensures k < |log| && forall i :: 0 <= i < |log| && HasFile(log, key, i) ==> i == k
  {
  }

  lemma NoneHit(f: Flash, log: seq<Record>, end: nat, fname: seq<Byte>)
    requires Logged(f, log, end) && Unique(log) && Key(Cut(fname)) !in Files(log)
    ensures NoneHits(SeenAll(log), |log|, fname)
  {
    hide Key, Cut, Hits, HasFile, Logged, Files;
    forall i | 0 <= i < |log| ensures !Hits(SeenOf(log[i]), fname) {
      NamesFit(f, log, end, i);
      HitsFile(log, fname, i);
      if HasFile(log, Key(Cut(fname)), i) {
        FileAt(log, Key(Cut(fname)), i);
      }
    }
  }

  /** Without a file of the name, the search ends at the end marker behind the records. */
  lemma NoneScanned(f: Flash, log: seq<Record>, end: nat, fname: seq<Byte>)
    requires Logged(f, log, end) && |f| < 0x8000_0000 && Unique(log) && Key(Cut(fname)) !in Files(log)
    requires f[end] == END_MARKER
    ensures Scan(f, SeenAll(log), end, fname) && !Found(SeenAll(log), fname)
  {
    hide Key, Cut, Files, Chain, Hits, Unique, RecordAt;
    LogSeen(f, log, end, |log|);
    NoneHit(f, log, end, fname);
    assert log[..|log|] == log;
  }

  /** While w is being written: the search for its name ends at it, and takes it for a very large file. */
  lemma UnfinishedScanned(f: Flash, log: seq<Record>, end: nat, w: Record, fname: seq<Byte>, stop: nat)
    requires Logged(f, log, end) && |f| < 0x8000_0000 && Unique(log) && Key(Cut(fname)) !in Files(log)
    requires Started(f, w, end) && Key(Cut(fname)) == Key(w.name)
    ensures var seen := SeenAll(log) + [Unfinished(w)]; Scan(f, seen, stop, fname) && Found(seen, fname)
  {
    UnfinishedReached(f, log, end, w, fname);
    assert |w.name| <= MAX_NAME;
  }

  lemma UnfinishedReached(f: Flash, log: seq<Record>, end: nat, w: Record, fname: seq<Byte>)
    requires Logged(f, log, end) && |f| < 0x8000_0000 && Unique(log) && Key(Cut(fname)) !in Files(log)
    requires Started(f, w, end)
    ensures var seen := SeenAll(log) + [Unfinished(w)];
      Chain(f, seen) && NoneHits(seen, |log|, fname) && ScanAddr(seen, |seen|) == DataAddr(w) < |f|
  {
    hide Key, Cut, Files, Chain, Hits, DataAddr, SeenAt, Next, Logged, Started, Unique;
    LogSeen(f, log, end, |log|);
    NoneHit(f, log, end, fname);
    UnfinishedSeen(f, w, end);
    StartedAt(f, w, end);
    assert log[..|log|] == log;
    ChainMore(f, SeenAll(log), Unfinished(w));
    var seen := SeenAll(log) + [Unfinished(w)];
    forall i | 0 <= i < |log| && i < |seen| ensures !Hits(seen[i], fname) {
      assert seen[i] == SeenAll(log)[i];
    }
  }

  lemma StartedAt(f: Flash, w: Record, end: nat)
    requires Started(f, w, end)
    ensures w.addr == end && |w.name| <= MAX_NAME
  {
  }

  /** While w is being written, the search for another name that no file has goes on where the data of w begins. It
      ends there if and only if no data has been written, or the first byte of it is an end marker. */
  lemma SearchInData(f: Flash, log: seq<Record>, end: nat, w: Record, fname: seq<Byte>)
    requires Logged(f, log, end) && |f| < 0x8000_0000 && Unique(log) && Key(Cut(fname)) !in Files(log)
    requires Started(f, w, end) && Key(Cut(fname)) != Key(w.name)
    ensures var seen := SeenAll(log) + [Unfinished(w)];
      && !Found(seen, fname)
      && (Scan(f, seen, DataAddr(w), fname) <==> w.data == [] || w.data[0] == END_MARKER)
  {
    UnfinishedReached(f, log, end, w, fname);
    UnfinishedSeen(f, w, end);
    assert |w.name| <= MAX_NAME;
  }

  /** Data that looks like a record is found: here it is that of a file called "a" of no bytes. */
  const FILE_A: seq<Byte> := [0x61, 0, 0, 0, 0xFF, 0xFF, 0xFF, 0xFF, 0, 0, 0, 0]

  lemma FoundInData(f: Flash, log: seq<Record>, end: nat, w: Record)
    requires Logged(f, log, end) && |f| < 0x8000_0000 && Unique(log) && Key([0x61]) !in Files(log)
    requires Started(f, w, end) && Key(w.name) != Key([0x61]) && w.data == FILE_A
    ensures var s := Seen(DataAddr(w), [0x61], false, 0); var seen := SeenAll(log) + [Unfinished(w), s];
      Scan(f, seen, 0, [0x61]) && Found(seen, [0x61])
  {
    hide Logged, Chain, Key, DataAddr, Started, Unique, SeenAt, Files, Next, NoneHits;
    var s, seen := Seen(DataAddr(w), [0x61], false, 0), SeenAll(log) + [Unfinished(w)];
    UnfinishedReached(f, log, end, w, [0x61]);
    FileInData(f, w, end);
    ChainMore(f, seen, s);
    NotHit(log, w);
    assert seen + [s] == SeenAll(log) + [Unfinished(w), s];
    NoneHitsMore(seen, s, |log|, [0x61]);
  }

  lemma NoneHitsMore(seen: seq<Seen>, s: Seen, n: nat, fname: seq<Byte>)
    requires NoneHits(seen, n, fname) && |seen| == n + 1 && !Hits(seen[n], fname)
    ensures NoneHits(seen + [s], n + 1, fname)
  {
    hide Hits;
    forall i | 0 <= i < n + 1 ensures !Hits((seen + [s])[i], fname) {
      assert (seen + [s])[i] == seen[i];
    }
  }

  lemma NotHit(log: seq<Record>, w: Record)
    requires Key(w.name) != Key([0x61])
    ensures |w.name| <= MAX_NAME ==> !Hits((SeenAll(log) + [Unfinished(w)])[|log|], [0x61])
  {
  }

  lemma FileInData(f: Flash, w: Record, end: nat)
    requires Started(f, w, end) && w.data == FILE_A && |f| < 0x8000_0000
    ensures SeenAt(f, Seen(DataAddr(w), [0x61], false, 0)) && |w.name| <= MAX_NAME
    ensures Hits(Seen(DataAddr(w), [0x61], false, 0), [0x61])
  {
    var a := DataAddr(w);
    Extents(w);
    assert FILE_A[1] == 0 && FILE_A[4] == 0xFF && FILE_A[8] == 0 && FILE_A[9] == 0;
    assert FILE_A[10] == 0 && FILE_A[11] == 0;
    DataIs(f, w, end);
    hide DataAddr, Started;
    assert Align(a + 1 + 1) == a + 4;
    assert f[a + 0] == FILE_A[0] == 0x61 && f[a + 1] == FILE_A[1] && f[a + 4] == FILE_A[4];
    assert f[a + 8] == FILE_A[8] && f[a + 9] == FILE_A[9] && f[a + 10] == FILE_A[10] && f[a + 11] == FILE_A[11];
  }

  lemma DataIs(f: Flash, w: Record, end: nat)
    requires Started(f, w, end)
    ensures DataAddr(w) + |w.data| <= |f| && DataAddr(w) % 4 == 0
    ensures forall i :: 0 <= i < |w.data| ==> f[DataAddr(w) + i] == w.data[i]
  {
    Extents(w);
  }

  /** A name that begins with the end marker is never found: when it has been written to the flash, the search for
      it still ends in front of it, and so does any other search that ended there. No other file can be made. */
  lemma MarkerName(f: Flash, log: seq<Record>, end: nat, name: seq<Byte>, fname: seq<Byte>)
    requires Logged(f, log, end) && Unique(log) && Blank(f, end) && end + |name| + 1 <= |f| && |f| < 0x8000_0000
    requires name != [] && name[0] == END_MARKER && Key(Cut(fname)) !in Files(log)
    ensures var f' := Programmed(f, end, name + [0]);
      Scan(f', SeenAll(log), end, fname) && !Found(SeenAll(log), fname) && !Blank(f', end)
  {
    MarkerWritten(f, log, end, name);
    hide Programmed;
    NoneScanned(Programmed(f, end, name + [0]), log, end, fname);
  }
}
