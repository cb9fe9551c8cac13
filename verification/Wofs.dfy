/** A file system on flash that is only written once: a log of records, the last of which makes up a
    file; one file at a time is open for writing. */
module Wofs {
  import opened Options
  import opened Bytes
  import opened WofsLog
  import opened WofsScan

  const TOTAL_MAX_FDS := 8
  const UNUSED := 0xFFFF_FFFF
  const WOFS_MIN_NEEDED_SIZE := 11
  const WOFS_DEL_FIELD_SIZE := 4
  const ROMFS_SIZE_LEN := 4
  const ROMFS_ALIGN := 4

  /** The name by which the end of the records is looked for. */
  const NO_NAME: seq<Byte> := [1]

  /** A descriptor: where the data begins, the position, the size, and what the file was opened for. */
  datatype Fd = Fd(baseaddr: nat, offset: nat, size: nat, read: bool, write: bool, append: bool)
  {
    predicate Empty() {
      baseaddr == UNUSED && offset == UNUSED && size == UNUSED
    }

    predicate Writes() {
      write || append
    }

    /** The descriptor is one of this record. */
    ghost predicate Of(r: Record) {
      baseaddr == DataAddr(r) && size == |r.data| && offset <= size
    }
  }

  datatype Flags = Flags(creat: bool, excl: bool, trunc: bool, wronly: bool, rdwr: bool, append: bool)
  {
    predicate Writes() {
      wronly || rdwr || append
    }

    /** Is a new file to be made? */
    predicate Creates(present: bool) {
      if present then trunc && (wronly || rdwr) else creat
    }
  }

  datatype Whence = SeekSet | SeekCur | SeekEnd

  datatype Errno = ENFILE | EEXIST | EACCES | EROFS | ENOSPC | ENOENT | EINVAL | EBADF

  datatype Result<T> = Ok(value: T) | Error(errno: Errno)

  /** Do the names agree, as far as they are compared? */
  predicate SameName(a: seq<Byte>, b: seq<Byte>) {
    Key(Cut(a)) == Key(Cut(b))
  }

  /** The number of descriptors in use among the first n. */
  ghost function Used(fds: seq<Fd>, n: nat): nat
    requires n <= |fds|
  {
    if n == 0 then 0 else Used(fds, n - 1) + (if fds[n - 1].Empty() then 0 else 1)
  }

  lemma {:induction false} UsedChanged(fds: seq<Fd>, fds': seq<Fd>, i: nat, n: nat)
    requires n <= |fds| == |fds'| && i < |fds| && forall k :: 0 <= k < |fds| && k != i ==> fds'[k] == fds[k]
    ensures Used(fds', n) + (if i < n && !fds[i].Empty() then 1 else 0) ==
      Used(fds, n) + (if i < n && !fds'[i].Empty() then 1 else 0)
  {
    if n > 0 {
      UsedChanged(fds, fds', i, n - 1);
    }
  }

  lemma {:induction false} AllUsed(fds: seq<Fd>, n: nat)
    requires n <= |fds|
    ensures Used(fds, n) <= n
    ensures Used(fds, n) == n <==> forall k :: 0 <= k < n ==> !fds[k].Empty()
    ensures 0 < Used(fds, n) <==> exists k :: 0 <= k < n && !fds[k].Empty()
  {
    if n > 0 {
      AllUsed(fds, n - 1);
    }
  }

  class Wofs {
    const maxSize: nat
    const fds: array<Fd>
    var flash: Flash
    // Is there a file open in write mode?
    var writing: bool
    var numFd: nat
    // The records of closed files, the address behind them, and the record that is being written
    ghost var log: seq<Record>
    ghost var end: nat
    ghost var open: Record
    // For each descriptor the record that it belongs to; |log| stands for the one being written
    ghost var owner: seq<nat>

    /** What is on the flash. */
    ghost predicate Stored()
      reads this`flash, this`writing, this`log, this`end, this`open
    {
      && |flash| == maxSize && maxSize % 4 == 0 && maxSize < 0x8000_0000 && Logged(flash, log, end) && Unique(log)
      && (if writing then Started(flash, open, end) && Key(open.name) !in Files(log) else Blank(flash, end))
    }

    /** The record that owner k stands for. */
    ghost function RecordOf(k: nat): Record
      reads this`log, this`open
    {
      if k < |log| then log[k] else open
    }

    ghost predicate OwnerFits(i: nat)
      requires i < fds.Length && i < |owner|
      reads this`log, this`open, this`owner, this`writing, fds
    {
      !fds[i].Empty() ==>
        && owner[i] <= |log| && fds[i].Of(RecordOf(owner[i])) && (owner[i] == |log| ==> writing)
        && (owner[i] < |log| ==> !fds[i].Writes())
    }

    ghost predicate Descriptors()
      reads this`log, this`open, this`owner, this`writing, this`numFd, fds
    {
      && fds.Length == TOTAL_MAX_FDS == |owner| && numFd == Used(fds[..], TOTAL_MAX_FDS)
      && (forall i :: 0 <= i < TOTAL_MAX_FDS ==> OwnerFits(i))
      && (forall i, j :: 0 <= i < j < TOTAL_MAX_FDS && !fds[i].Empty() && !fds[j].Empty() && owner[i] == owner[j] ==>
        owner[i] < |log|)
    }

    ghost predicate Valid()
      reads this, fds
    {
      Stored() && Descriptors()
    }

    /** The files, by name in lower case. */
    ghost function Contents(): map<seq<Byte>, seq<Byte>>
      reads this`log
    {
      Files(log)
    }

    /** The file system takes itself to be writing, but no descriptor can write. */
    ghost predicate Stuck()
      reads this`writing, fds
    {
      writing && forall i :: 0 <= i < fds.Length && !fds[i].Empty() ==> !fds[i].Writes()
    }

    /** A formatted flash has no files. */
    constructor (maxSize: nat)
      requires maxSize % 4 == 0 && 4 <= maxSize < 0x8000_0000
      ensures Valid() && this.maxSize == maxSize && Contents() == map[] && !writing && fresh(fds)
    {
      this.maxSize := maxSize;
      flash := seq(maxSize, i => END_MARKER);
      writing := false;
      numFd := 0;
      fds := new Fd[TOTAL_MAX_FDS](i => Fd(UNUSED, UNUSED, UNUSED, false, false, false));
      log, end, owner := [], 0, seq(TOTAL_MAX_FDS, i => 0);
      new;
      AllUsed(fds[..], TOTAL_MAX_FDS);
    }

    /** Writes bytes to the flash; none of them may have been written before. */
    method Program(addr: nat, bytes: seq<Byte>)
      requires addr + |bytes| <= |flash| && BlankField(flash, addr, |bytes|)
      modifies this`flash
      ensures flash == Programmed(old(flash), addr, bytes)
    {
      flash := flash[..addr] + bytes + flash[addr + |bytes|..];
    }

    /** Reads the name of the record at address i. */
    method ReadName(i: nat, ghost s: Seen) returns (fsname: seq<Byte>, j: nat)
      requires SeenAt(flash, s) && i == s.addr
      ensures fsname == s.name && j == |s.name|
    {
      fsname, j := [], 0;
      while j < MAX_NAME
        invariant j <= |s.name| && fsname == s.name[..j]
      {
        assert j < |s.name| ==> flash[i + j] == s.name[j];
        var c := flash[i + j];
        if c == 0 {
          break;
        }
        fsname := fsname + [c];
        j := j + 1;
      }
    }

    /** Looks for a file by name; without one, last is set to where the search has ended. */
    method OpenFile(fname: seq<Byte>, last0: nat, ghost seen: seq<Seen>, ghost stop: nat)
        returns (found: bool, base: nat, size: nat, last: nat, nameaddr: nat)
      requires Scan(flash, seen, stop, fname)
      ensures found == Found(seen, fname)
      ensures found ==>
        var s := seen[|seen| - 1]; base == BaseAddr(s) && size == s.size && nameaddr == s.addr && last == last0
      ensures !found ==> last == stop
    {
      hide Key, Cut, Align, SeenAt, Scan, Found, SizeAt, ScanAddr, Hits;
      var i := 0;
      ghost var k: nat := 0;
      ScanBegins(seen, fname);
      base, size, last, nameaddr := 0, 0, last0, 0;
      while true
        invariant k <= |seen| && i == ScanAddr(seen, k) && (k == |seen| ==> !Found(seen, fname))
        decreases |seen| - k
      {
        if k < |seen| {
          SeenNext(flash, seen, stop, fname, k);
          SeenHere(seen[k]);
        } else {
          ScanEnds(flash, seen, stop, fname);
        }
        if flash[i] == END_MARKER {
          return false, 0, 0, i, 0;
        }
        assert k < |seen|;
        var fsname, j := ReadName(i, seen[k]);
        j := Align(i + j + 1);
        var isDeleted := flash[j] == FILE_DELETED;
        j := j + WOFS_DEL_FIELD_SIZE;
        var fsize := SizeAt(flash, j);
        j := j + ROMFS_SIZE_LEN;
        HitsWhat(seen[k], fname);
        if SameName(fname, fsname) && !isDeleted {
          return true, j, fsize, last0, i;
        }
        i := Align((j + fsize) % 0x1_0000_0000) % 0x1_0000_0000;
        k := k + 1;
      }
    }

    lemma SeenHere(s: Seen)
      requires SeenAt(flash, s)
      ensures s.addr < |flash| && flash[s.addr] != END_MARKER && BaseAddr(s) <= |flash|
      ensures s.deleted == (flash[MarkAddr(s)] == FILE_DELETED) && s.size == SizeAt(flash, MarkAddr(s) + 4)
    {
    }

    /** Does the search find something of this name: a file, or the one that is being written? */
    ghost predicate Present(path: seq<Byte>)
      reads this`log, this`writing, this`open
    {
      Key(Cut(path)) in Files(log) || (writing && Key(Cut(path)) == Key(open.name))
    }

    /** The search for the name does not read the data of a file that is being written as if it were records. */
    ghost predicate Searchable(path: seq<Byte>)
      reads this`log, this`writing, this`open
    {
      writing && !Present(path) ==> open.data == [] || open.data[0] == END_MARKER
    }

    /** What the search for a name reads. */
    lemma Searched(path: seq<Byte>) returns (seen: seq<Seen>, stop: nat, k: nat)
      requires Stored() && Searchable(path)
      ensures Scan(flash, seen, stop, path) && Found(seen, path) == Present(path)
      ensures Key(Cut(path)) in Files(log) ==>
        && HasFile(log, Key(Cut(path)), k) && k < |log| && seen != [] && seen[|seen| - 1] == SeenOf(log[k])
        && BaseAddr(seen[|seen| - 1]) == DataAddr(log[k])
      ensures Present(path) && Key(Cut(path)) !in Files(log) ==> seen != [] && seen[|seen| - 1] == Unfinished(open)
      ensures !Present(path) ==> stop == if writing then DataAddr(open) else end
    {
      hide Key, Cut, Files, Unique, Logged, Scan, Found;
      stop, k := if writing then DataAddr(open) else end, 0;
      if Key(Cut(path)) in Files(log) {
        k := FindFile(log, Key(Cut(path)));
        FileScanned(flash, log, end, path, k, stop);
        seen := SeenAll(log[..k + 1]);
      } else if !writing {
        EndHere();
        NoneScanned(flash, log, end, path);
        seen := SeenAll(log);
      } else {
        seen := SeenAll(log) + [Unfinished(open)];
        if Key(Cut(path)) == Key(open.name) {
          UnfinishedScanned(flash, log, end, open, path, stop);
        } else {
          SearchInData(flash, log, end, open, path);
        }
      }
    }

    /** What is found at the address of record k. */
    lemma RecordHere(k: nat)
      requires Stored() && k < |log|
      ensures RecordAt(flash, log[k]) && NextAddr(log[k]) == AddrAt(log, end, k + 1) && NextAddr(log[k]) <= end
      ensures log[k].addr == AddrAt(log, end, k) < |flash| && flash[log[k].addr] != END_MARKER
    {
      hide Files, Unique, Started;
      var s := log[k].name + [0];
      assert flash[log[k].addr + 0] == s[0];
      InOrder(flash, log, end, k, |log|);
    }

    lemma Fields(k: nat)
      requires Stored() && k < |log|
      ensures NameAt(flash, log[k]) && DataAddr(log[k]) < |flash|
      ensures (flash[DelAddr(log[k])] == FILE_DELETED <==> log[k].deleted)
      ensures SizeAt(flash, SizeAddr(log[k])) == |log[k].data|
    {
    }

    lemma StartsHere()
      requires Stored()
      ensures AddrAt(log, end, 0) == 0 && end < |flash| == maxSize && (writing || flash[end] == END_MARKER)
    {
    }

    lemma EndHere()
      requires Stored()
      ensures !writing ==> flash[end] == END_MARKER
    {
    }

    /** Marks the file at base as deleted. */
    method Invalidate(base: nat, ghost k: nat)
      requires Valid() && !writing && k < |log| && !log[k].deleted && base == DataAddr(log[k])
      modifies this`flash, this`log
      ensures Valid() && log == Marked(old(log), k) && Contents() == old(Contents()) - {Key(old(log)[k].name)}
      ensures |log| == old(|log|) && forall i :: 0 <= i < |log| ==> log[i].data == old(log)[i].data
    {
      hide Files, Unique, Logged, Blank, BlankField, SameIn, Programmed, Fd.Of;
      LoggedMarked(flash, log, end, k);
      FilesMarked(log, k);
      BlankKept(flash, Programmed(flash, DelAddr(log[k]), DELETION_MARK), end, end);
      Program(base - ROMFS_SIZE_LEN - WOFS_DEL_FIELD_SIZE, DELETION_MARK);
      ghost var log0 := log;
      log := Marked(log, k);
      forall i | 0 <= i < TOTAL_MAX_FDS ensures OwnerFits(i) {
        assert old(OwnerFits(i));
        if !fds[i].Empty() {
          SameFd(fds[i], log0, k, owner[i]);
        }
      }
    }

    /** No descriptor belongs to a record that is being written, when there is none. */
    lemma NoWriter(i: nat)
      requires Descriptors() && !writing && i < TOTAL_MAX_FDS && !fds[i].Empty()
      ensures owner[i] < |log|
    {
      assert OwnerFits(i);
    }

    /** Is there a file of the name that no file is supposed to have? */
    ghost predicate Named()
      reads this`log
    {
      Key(Cut(NO_NAME)) in Files(log)
    }

    /** A file is made anew while there is another one of the name that is searched for to find the end of
        the records: the end is not found. */
    ghost predicate Astray(path: seq<Byte>, flags: Flags)
      reads this`log
    {
      Named() && Key(path) in Files(log) && Key(path) != Key(Cut(NO_NAME)) && flags.Creates(true)
    }

    /** Finds the end of the records, and writes the name of a new file there, if there is room for it. The
        search is for a name that there is no file of; if there is one, it must be known where the end is. */
    method Create(path: seq<Byte>, firstfree0: nat) returns (base: Option<nat>)
      requires Valid() && !writing && GoodName(path) && Key(path) !in Files(log)
      requires Named() ==> firstfree0 == end
      modifies this`flash, this`writing, this`open
      ensures Valid() && base.None? == (end + |path| + 15 > maxSize) && writing == base.Some?
      ensures base.None? ==> flash == old(flash) && open == old(open)
      ensures base.Some? ==> open == Record(end, path, false, []) && base.value == DataAddr(open)
    {
      hide Files, Unique, Logged, Blank, BlankField, SameIn, Programmed, Started, GoodName, Fd.Of, Key, Align, NO_NAME,
           DelAddr, Scan, Found, Cut;
      StartsHere();
      AtEnd();
      ghost var seen, stop, k := Searched(NO_NAME);
      var found, b, size, firstfree, nameaddr := OpenFile(NO_NAME, firstfree0, seen, stop);
      assert firstfree == end;
      if maxSize - firstfree + 1 < |path| + 1 + WOFS_MIN_NEEDED_SIZE + WOFS_DEL_FIELD_SIZE {
        return None;
      }
      RecordStarted(flash, path, end);
      LoggedKept(flash, Programmed(flash, end, path + [0]), log, end);
      Program(firstfree, path + [0]);
      firstfree := firstfree + |path| + 1;
      firstfree := Align(firstfree);
      firstfree := firstfree + ROMFS_SIZE_LEN + WOFS_DEL_FIELD_SIZE;
      writing := true;
      open := Record(end, path, false, []);
      NewData(open);
      forall i | 0 <= i < TOTAL_MAX_FDS ensures OwnerFits(i) {
        assert old(OwnerFits(i));
      }
      base := Some(firstfree);
    }

    lemma AtEnd()
      requires Stored()
      ensures end + 4 <= maxSize && end % 4 == 0 && (!writing ==> Blank(flash, end))
    {
    }

    /** The first descriptor that is not in use; -1 when all are. */
    method FindEmptyFd() returns (i: int)
      requires fds.Length == TOTAL_MAX_FDS
      ensures -1 <= i < TOTAL_MAX_FDS
      ensures i >= 0 ==> fds[i].Empty() && forall k :: 0 <= k < i ==> !fds[k].Empty()
      ensures i < 0 ==> forall k :: 0 <= k < TOTAL_MAX_FDS ==> !fds[k].Empty()
    {
      i := 0;
      while i < TOTAL_MAX_FDS
        invariant 0 <= i <= TOTAL_MAX_FDS && forall k :: 0 <= k < i ==> !fds[k].Empty()
      {
        if fds[i].Empty() {
          return;
        }
        i := i + 1;
      }
      return -1;
    }

    /** Enters a descriptor, which belongs to record k, at a place that is not in use. */
    method EnterFd(fd: Fd, ghost k: nat) returns (i: nat)
      requires Valid() && numFd < TOTAL_MAX_FDS && k <= |log| && fd.Of(RecordOf(k)) && fd.baseaddr < UNUSED
      requires (k == |log| ==> writing) && (k < |log| ==> !fd.Writes())
      requires k == |log| ==> forall j :: 0 <= j < TOTAL_MAX_FDS && !fds[j].Empty() ==> owner[j] < |log|
      modifies this`numFd, this`owner, fds
      ensures Valid() && numFd == old(numFd) + 1 && i < TOTAL_MAX_FDS && old(fds[i]).Empty() && fds[i] == fd
      ensures owner[i] == k
      ensures forall j :: 0 <= j < TOTAL_MAX_FDS && j != i ==> fds[j] == old(fds[j]) && owner[j] == old(owner[j])
    {
      hide Stored, Used, Fd.Of;
      AllUsed(fds[..], TOTAL_MAX_FDS);
      var e := FindEmptyFd();
      assert e >= 0;
      i := e;
      ghost var fds0 := fds[..];
      fds[i] := fd;
      owner := owner[i := k];
      numFd := numFd + 1;
      UsedChanged(fds0, fds[..], i, TOTAL_MAX_FDS);
      forall j | 0 <= j < TOTAL_MAX_FDS ensures OwnerFits(j) {
        assert old(OwnerFits(j));
      }
    }

    /** The bytes of the file that a descriptor is one of. */
    ghost function DataOf(i: nat): seq<Byte>
      requires i < |owner|
      reads this`owner, this`log, this`open
    {
      RecordOf(owner[i]).data
    }

    /** The part of Open that makes a new file. One of the same name is deleted before it is known whether
        there is room for the new one. */
    method OpenNew(path: seq<Byte>, present: bool, base0: nat, firstfree: nat, read: bool, write: bool, append: bool,
                   ghost k: nat)
      returns (res: Result<nat>)
      requires Valid() && !writing && GoodName(path) && numFd < TOTAL_MAX_FDS && present == (Key(path) in Contents())
      requires present ==>
        HasFile(log, Key(path), k) && base0 == DataAddr(log[k]) && (Named() ==> Key(path) == Key(Cut(NO_NAME)))
      requires !present ==> firstfree == end
      modifies this`flash, this`writing, this`numFd, this`log, this`open, this`owner, fds
      ensures Valid() && Contents() == old(Contents()) - {Key(path)}
      ensures res.Error? ==> res.errno == ENOSPC && end + |path| + 15 > maxSize && !writing && numFd == old(numFd)
      ensures res.Error? ==> forall j :: 0 <= j < TOTAL_MAX_FDS ==> fds[j] == old(fds[j])
      ensures res.Ok? ==>
        end + |path| + 15 <= maxSize && writing && open == Record(end, path, false, []) && numFd == old(numFd) + 1
      ensures res.Ok? ==> res.value < TOTAL_MAX_FDS && old(fds[res.value]).Empty() && owner[res.value] == |log|
      ensures res.Ok? ==> fds[res.value] == Fd(DataAddr(open), 0, 0, read, write, append)
      ensures forall j :: 0 <= j < TOTAL_MAX_FDS && (res.Ok? ==> j != res.value) ==>
        fds[j] == old(fds[j]) && (!fds[j].Empty() ==> DataOf(j) == old(DataOf(j)))
    {
      hide Files, Stored, GoodName, Key, Used, OwnerFits, HasFile, DataAddr;
      FileOf(path, k);
      NoneTwice(Contents(), Key(path));
      if present {
        Invalidate(base0, k);
      }
      ghost var log1 := log;
      NoWriters();
      var base := Create(path, firstfree);
      if base.None? {
        return Error(ENOSPC);
      }
      BaseFits(open);
      var fd := EnterFd(Fd(base.value, 0, 0, read, write, append), |log|);
      res := Ok(fd);
    }

    /** The part of OpenNew that goes wrong when there is a file of the name that no file is supposed to have:
        the file is deleted, and the new name would be written to whatever address the uninitialised variable
        has, here called junk. */
    method OpenAstray(path: seq<Byte>, base0: nat, junk: nat, ghost k: nat) returns (firstfree: nat)
      requires Valid() && !writing && Astray(path, Flags(true, false, true, true, false, false))
      requires HasFile(log, Key(path), k) && base0 == DataAddr(log[k])
      modifies this`flash, this`log
      ensures Valid() && Contents() == old(Contents()) - {Key(path)} && firstfree == junk
    {
      hide Files, Stored, Key, Used, OwnerFits, HasFile, DataAddr;
      FileOf(path, k);
      Invalidate(base0, k);
      ghost var seen, stop, n := Searched(NO_NAME);
      var found, b, size, nameaddr;
      found, b, size, firstfree, nameaddr := OpenFile(NO_NAME, junk, seen, stop);
    }

    /** Looks for the file that is being written. It is found, as one of 2^32 - 1 bytes, whatever has been written. */
    method OpenUnfinished(path: seq<Byte>) returns (found: bool, base: nat, size: nat)
      requires Valid() && writing && Key(Cut(path)) == Key(open.name)
      ensures found && base == DataAddr(open) && size == 0xFFFF_FFFF
    {
      hide Key, Cut, Files, Stored, Descriptors, Scan, Found;
      ghost var seen, stop, k := Searched(path);
      NotAFile();
      var last, nameaddr;
      found, base, size, last, nameaddr := OpenFile(path, 0, seen, stop);
    }

    lemma NotAFile()
      requires Stored() && writing
      ensures Key(open.name) !in Files(log)
    {
    }

    /** Makes a file, for reading only, while another one is being written that has no data yet. The search for the
        end of the records ends where that data will begin, and the name of the new file is written there. */
    method OpenWithin(path: seq<Byte>)
      requires Valid() && writing && open.data == [] && !Present(path) && !Present(NO_NAME) && GoodName(path)
      requires DataAddr(open) + |path| + 15 <= maxSize
      modifies this`flash
      ensures flash == Programmed(old(flash), DataAddr(open), path + [0]) && !Stored()
    {
      hide Key, Cut, Files, Logged, Unique, Scan, Found, NO_NAME;
      ghost var seen, stop, k := Searched(path);
      var found, base, size, firstfree, nameaddr := OpenFile(path, 0, seen, stop);
      seen, stop, k := Searched(NO_NAME);
      found, base, size, firstfree, nameaddr := OpenFile(NO_NAME, firstfree, seen, stop);
      Program(firstfree, path + [0]);
      assert flash[DataAddr(open)] == (path + [0])[0];
    }

    lemma FileOf(path: seq<Byte>, k: nat)
      ensures HasFile(log, Key(path), k) ==> k < |log| && !log[k].deleted && Key(log[k].name) == Key(path)
    {
    }

    lemma NoWriters()
      requires Descriptors() && !writing
      ensures forall j :: 0 <= j < TOTAL_MAX_FDS && !fds[j].Empty() ==> owner[j] < |log|
    {
      forall j | 0 <= j < TOTAL_MAX_FDS && !fds[j].Empty() ensures owner[j] < |log| {
        NoWriter(j);
      }
    }

    lemma BaseFits(r: Record)
      requires Stored() && writing && r == open
      ensures DataAddr(r) < UNUSED
    {
    }

    /** Opening a file of this name goes well. While another one is being written, the search must not read its data,
        what is opened must not be that file, and a new one must not be made. */
    ghost predicate Safe(path: seq<Byte>, flags: Flags)
      reads this`log, this`writing, this`open, this`numFd
    {
      numFd < TOTAL_MAX_FDS ==>
        && Searchable(path)
        && (Present(path) && Key(Cut(path)) !in Files(log) ==> flags.Writes() || (flags.creat && flags.excl))
        && (flags.Creates(Present(path)) && !(writing && flags.Writes()) &&
            !(flags.creat && flags.excl && Present(path)) ==>
              !writing && GoodName(path) && !Astray(path, flags))
    }

    /** Opens a file. */
    method Open(path: seq<Byte>, flags: Flags) returns (res: Result<nat>)
      requires Valid() && Safe(path, flags)
      modifies this`flash, this`writing, this`numFd, this`log, this`open, this`owner, fds
      ensures Valid()
      ensures var present := old(Present(path));
        match res
        case Error(ENFILE) => old(numFd) == TOTAL_MAX_FDS
        case Error(EEXIST) => flags.creat && flags.excl && present
        case Error(EACCES) => flags.Writes() && !flags.Creates(present)
        case Error(EROFS) => flags.Writes() && old(writing)
        case Error(ENOENT) => !present && !flags.Creates(present)
        case Error(ENOSPC) => flags.Creates(present) && end + |path| + 15 > maxSize
        case Error(_) => false
        case Ok(i) =>
          && old(numFd) < TOTAL_MAX_FDS && !(flags.creat && flags.excl && present) && (present || flags.creat)
          && (flags.Writes() ==> flags.Creates(present) && !old(writing))
      ensures res.Error? && res.errno != ENOSPC ==> flash == old(flash) && log == old(log) && open == old(open)
      ensures res.Error? ==> writing == old(writing) && numFd == old(numFd)
      ensures res == Error(ENOSPC) ==> Contents() == old(Contents()) - {Key(path)}
      ensures res.Ok? ==>
        res.value < TOTAL_MAX_FDS && old(fds[res.value]).Empty() && !fds[res.value].Empty() && numFd == old(numFd) + 1
      ensures res.Ok? && !flags.Creates(Key(Cut(path)) in old(Contents())) ==>
        && Key(Cut(path)) in Contents() && DataOf(res.value) == Contents()[Key(Cut(path))] && owner[res.value] < |log|
        && flash == old(flash) && log == old(log) && open == old(open) && writing == old(writing)
      ensures res.Ok? && flags.Creates(Key(Cut(path)) in old(Contents())) ==>
        && writing && open == Record(end, path, false, []) && owner[res.value] == |log|
        && Contents() == old(Contents()) - {Key(path)}
      ensures res.Ok? ==>
        && fds[res.value].offset == 0 && fds[res.value].append == flags.append
        && fds[res.value].write == (flags.wronly || flags.rdwr) && fds[res.value].read == !flags.wronly
      ensures forall j :: 0 <= j < TOTAL_MAX_FDS && (res.Ok? ==> j != res.value) ==>
        fds[j] == old(fds[j]) && (!fds[j].Empty() ==> DataOf(j) == old(DataOf(j)))
      ensures res.Ok? && flags.Creates(Key(Cut(path)) in old(Contents())) ==> (Stuck() <==> !flags.Writes())
      ensures old(Stuck()) ==> Stuck()
    {
      hide Files, Stored, GoodName, Key, Cut, Used, OwnerFits, HasFile, DataAddr, Descriptors, Scan, Found;
      FdsHere();
      if numFd == TOTAL_MAX_FDS {
        return Error(ENFILE);
      }
      ghost var seen, stop, k := Searched(path);
      var present, base, size, firstfree, nameaddr := OpenFile(path, 0, seen, stop);
      var mustCreate := false;
      if flags.creat {
        if flags.excl && present {
          return Error(EEXIST);
        }
        mustCreate := !present;
      }
      if flags.trunc && (flags.wronly || flags.rdwr) && present {
        mustCreate := true;
      }
      var read, write := true, false;
      if flags.wronly {
        read, write := false, true;
      } else if flags.rdwr {
        read, write := true, true;
      }
      if (write || flags.append) && !mustCreate {
        return Error(EACCES);
      }
      if (write || flags.append) && writing {
        return Error(EROFS);
      }
      if mustCreate {
        ShortName(path);
        NothingWrites();
        res := OpenNew(path, present, base, firstfree, read, write, flags.append, k);
        if res.Ok? {
          BaseFits(open);
        }
      } else {
        if !present {
          return Error(ENOENT);
        }
        RecordFits(path, k);
        var fd := EnterFd(Fd(base, 0, size, read, write, flags.append), k);
        res := Ok(fd);
      }
    }

    lemma FdsHere()
      requires Valid()
      ensures fds.Length == TOTAL_MAX_FDS == |owner| && numFd <= TOTAL_MAX_FDS
    {
      AllUsed(fds[..], TOTAL_MAX_FDS);
    }

    lemma NothingWrites()
      requires Descriptors() && !writing
      ensures forall j :: 0 <= j < TOTAL_MAX_FDS && !fds[j].Empty() ==> !fds[j].Writes()
    {
      forall j | 0 <= j < TOTAL_MAX_FDS && !fds[j].Empty() ensures !fds[j].Writes() {
        assert OwnerFits(j);
      }
    }

    lemma ShortName(path: seq<Byte>)
      ensures GoodName(path) ==> Cut(path) == path
    {
    }

    lemma RecordFits(path: seq<Byte>, k: nat)
      requires Stored() && HasFile(log, Key(Cut(path)), k)
      ensures k < |log| && DataAddr(log[k]) < UNUSED
      ensures Key(Cut(path)) in Contents() && Contents()[Key(Cut(path))] == log[k].data
    {
      FileAt(log, Key(Cut(path)), k);
      assert RecordAt(flash, log[k]);
    }

    /** What a descriptor for writing belongs to. */
    lemma Writer(fd: nat)
      requires Descriptors() && fd < TOTAL_MAX_FDS && !fds[fd].Empty()
      ensures (fds[fd].Writes() ==> owner[fd] == |log|) && (owner[fd] == |log| ==> writing)
      ensures owner[fd] <= |log| && fds[fd].baseaddr == DataAddr(RecordOf(owner[fd])) && fds[fd].size == |DataOf(fd)|
      ensures fds[fd].offset <= fds[fd].size
      ensures owner[fd] == |log| ==>
        forall j :: 0 <= j < TOTAL_MAX_FDS && j != fd && !fds[j].Empty() ==> owner[j] < |log|
    {
      assert OwnerFits(fd);
      forall j | 0 <= j < TOTAL_MAX_FDS && j != fd && !fds[j].Empty() ensures owner[fd] == |log| ==> owner[j] < |log| {
        assert OwnerFits(j);
      }
    }

    /** Replaces a descriptor. */
    method SetFd(i: nat, fd: Fd)
      requires Descriptors() && i < TOTAL_MAX_FDS && !fds[i].Empty()
      requires fd.baseaddr == fds[i].baseaddr && fd.baseaddr < UNUSED
      requires fd.write == fds[i].write && fd.append == fds[i].append && fd.size == fds[i].size && fd.offset <= fd.size
      modifies fds
      ensures Descriptors() && fds[i] == fd && !fd.Empty()
      ensures forall j :: 0 <= j < TOTAL_MAX_FDS && j != i ==> fds[j] == old(fds[j])
    {
      hide Used;
      ghost var fds0 := fds[..];
      fds[i] := fd;
      UsedChanged(fds0, fds[..], i, TOTAL_MAX_FDS);
      forall j | 0 <= j < TOTAL_MAX_FDS ensures OwnerFits(j) {
        assert old(OwnerFits(j));
      }
    }

    /** Writes at the end of a file; less than asked for, when there is not enough room left. */
    method Write(fd: nat, data: seq<Byte>) returns (res: Result<nat>)
      requires Valid() && fd < TOTAL_MAX_FDS && !fds[fd].Empty() && |data| < 0x8000_0000
      modifies this`flash, this`open, fds
      ensures Valid() && !fds[fd].Empty() && fds[fd].Writes() == old(fds[fd]).Writes()
      ensures if !old(fds[fd]).Writes() then res == Error(EINVAL) && flash == old(flash) && fds[fd] == old(fds[fd])
              else res.Ok?
      ensures res.Ok? ==>
        && res.value <= |data| && DataOf(fd) == old(DataOf(fd)) + data[..res.value] && owner[fd] == |log|
        && fds[fd].offset == (if old(fds[fd].append) then old(fds[fd].size) else old(fds[fd].offset)) + res.value
      ensures res.Ok? && (old(fds[fd].append) || old(fds[fd].offset == fds[fd].size)) ==>
        if DataAddr(open) + old(|open.data|) + |data| <= maxSize - ROMFS_ALIGN then res.value == |data|
        else res.value < |data| && DataAddr(open) + |open.data| == maxSize - ROMFS_ALIGN
      ensures res.Ok? && !(old(fds[fd].append) || old(fds[fd].offset == fds[fd].size)) ==> res.value == 0
      ensures open == old(open).(data := open.data) && (res.Error? ==> open == old(open)) && (old(Stuck()) ==> Stuck())
      ensures forall j :: 0 <= j < TOTAL_MAX_FDS && j != fd ==>
        fds[j] == old(fds[j]) && (!fds[j].Empty() ==> DataOf(j) == old(DataOf(j)))
    {
      hide Stored, Descriptors, DataAddr, DelAddr, Used;
      FdsHere();
      Writer(fd);
      if !fds[fd].Writes() {
        return Error(EINVAL);
      }
      BaseFits(open);
      if fds[fd].append {
        SetFd(fd, fds[fd].(offset := fds[fd].size));
      }
      if fds[fd].offset != fds[fd].size {
        assert DataOf(fd) == old(DataOf(fd)) + data[..0];
        return Ok(0);
      }
      var len: nat := |data|;
      RoomForData();
      if fds[fd].baseaddr + fds[fd].size + len > maxSize - ROMFS_ALIGN {
        len := maxSize - (fds[fd].baseaddr + fds[fd].size) - ROMFS_ALIGN;
      }
      Extend(fd, data[..len]);
      SameBase(open, old(open));
      res := Ok(len);
    }

    lemma RoomForData()
      requires Stored() && writing
      ensures DataAddr(open) + |open.data| <= maxSize - ROMFS_ALIGN
    {
    }

    /** Appends bytes to the record that is being written. */
    method Extend(fd: nat, data: seq<Byte>)
      requires Valid() && fd < TOTAL_MAX_FDS && !fds[fd].Empty() && owner[fd] == |log| && writing
      requires fds[fd].offset == fds[fd].size && DataAddr(open) + |open.data| + |data| <= maxSize - ROMFS_ALIGN
      modifies this`flash, this`open, fds
      ensures Valid() && open == old(open).(data := old(open.data) + data)
      ensures fds[fd].offset == old(fds[fd].offset) + |data| && !fds[fd].Empty()
      ensures forall j :: 0 <= j < TOTAL_MAX_FDS && j != fd ==>
        fds[j] == old(fds[j]) && (!fds[j].Empty() ==> owner[j] < |log|)
      ensures fds[fd] == old(fds[fd]).(offset := fds[fd].offset, size := fds[fd].offset)
    {
      hide Files, Unique, Logged, Blank, BlankField, SameIn, Programmed, Started, Key, Align, DelAddr, Used;
      Writer(fd);
      RecordExtended(flash, open, end, data);
      LoggedKept(flash, Programmed(flash, DataAddr(open) + |open.data|, data), log, end);
      BaseFits(open);
      Program(fds[fd].offset + fds[fd].baseaddr, data);
      ghost var fds0 := fds[..];
      open := open.(data := open.data + data);
      fds[fd] := fds[fd].(offset := fds[fd].offset + |data|, size := fds[fd].size + |data|);
      SameBase(open, old(open));
      UsedChanged(fds0, fds[..], fd, TOTAL_MAX_FDS);
      forall j | 0 <= j < TOTAL_MAX_FDS ensures OwnerFits(j) {
        assert old(OwnerFits(j));
      }
    }

    /** Closes a descriptor. A file that was open for writing is complete now. */
    method Close(fd: nat)
      requires Valid() && fd < TOTAL_MAX_FDS && !fds[fd].Empty()
      modifies this`flash, this`writing, this`numFd, this`log, this`end, fds
      ensures Valid() && fds[fd].Empty() && numFd == old(numFd) - 1
      ensures if old(fds[fd]).Writes()
        then !writing && Contents() == old(Contents())[Key(open.name) := open.data] && open.data == old(DataOf(fd))
        else flash == old(flash) && log == old(log) && writing == old(writing) && end == old(end)
      ensures old(Stuck()) ==> Stuck()
      ensures forall j :: 0 <= j < TOTAL_MAX_FDS && j != fd ==>
        fds[j] == old(fds[j]) && (!fds[j].Empty() ==> DataOf(j) == old(DataOf(j)))
    {
      hide Stored, Used, DataAddr, SizeBytes;
      Writer(fd);
      if fds[fd].Writes() {
        Complete(fd);
      }
      CloseFd(fd);
    }

    /** Marks a descriptor as not in use. */
    method CloseFd(fd: nat)
      requires fd < TOTAL_MAX_FDS && fds.Length == TOTAL_MAX_FDS == |owner| && !fds[fd].Empty()
      requires numFd == Used(fds[..], TOTAL_MAX_FDS)
      requires forall i :: 0 <= i < TOTAL_MAX_FDS && i != fd ==> OwnerFits(i)
      requires forall i, j ::
        0 <= i < j < TOTAL_MAX_FDS && i != fd && j != fd && !fds[i].Empty() && !fds[j].Empty() &&
        owner[i] == owner[j] ==>
        owner[i] < |log|
      modifies this`numFd, fds
      ensures Descriptors() && fds[fd].Empty() && numFd == old(numFd) - 1
      ensures forall j :: 0 <= j < TOTAL_MAX_FDS && j != fd ==> fds[j] == old(fds[j])
    {
      hide Used, Fd.Of;
      ghost var fds0 := fds[..];
      AllUsed(fds0, TOTAL_MAX_FDS);
      fds[fd] := Fd(UNUSED, UNUSED, UNUSED, false, false, false);
      UsedChanged(fds0, fds[..], fd, TOTAL_MAX_FDS);
      numFd := numFd - 1;
      forall i | 0 <= i < TOTAL_MAX_FDS ensures OwnerFits(i) {
        if i != fd {
          assert old(OwnerFits(i));
        }
      }
    }

    /** Writes the size of the file that was open for writing. */
    method Complete(fd: nat)
      requires Valid() && fd < TOTAL_MAX_FDS && !fds[fd].Empty() && owner[fd] == |log| && writing
      modifies this`flash, this`writing, this`log, this`end
      ensures Stored() && !writing && log == old(log) + [open]
      ensures Contents() == old(Contents())[Key(open.name) := open.data]
      ensures forall j :: 0 <= j < TOTAL_MAX_FDS && j != fd ==>
        OwnerFits(j) && (!fds[j].Empty() ==> owner[j] < old(|log|))
    {
      hide Files, Unique, Logged, Blank, BlankField, SameIn, Programmed, Started, Key, Align, DelAddr, NextAddr,
           RecordAt, Used, SizeBytes;
      Writer(fd);
      OpenIsNew();
      RecordClosed(flash, open, end);
      LoggedKept(flash, Programmed(flash, SizeAddr(open), SizeBytes(|open.data|)), log, end);
      LoggedAdded(Programmed(flash, SizeAddr(open), SizeBytes(|open.data|)), log, end, open);
      FilesAdded(log, open);
      Program(fds[fd].baseaddr - ROMFS_SIZE_LEN, SizeBytes(fds[fd].size));
      log := log + [open];
      end := NextAddr(open);
      writing := false;
      forall j | 0 <= j < TOTAL_MAX_FDS && j != fd ensures OwnerFits(j) {
        assert old(OwnerFits(j));
      }
    }

    lemma OpenIsNew()
      requires Stored() && writing
      ensures !open.deleted && open.addr == end && Key(open.name) !in Files(log)
    {
    }

    /** Reads from the position on. */
    method Read(fd: nat, len: nat) returns (res: Result<seq<Byte>>)
      requires Valid() && fd < TOTAL_MAX_FDS && !fds[fd].Empty()
      modifies fds
      ensures Valid() && !fds[fd].Empty() && forall j :: 0 <= j < TOTAL_MAX_FDS && j != fd ==> fds[j] == old(fds[j])
      ensures if !old(fds[fd]).read then res == Error(EBADF) && fds[fd] == old(fds[fd]) else res.Ok?
      ensures res.Ok? ==>
        && |res.value| == (if len < |DataOf(fd)| - old(fds[fd].offset) then len else |DataOf(fd)| - old(fds[fd].offset))
        && fds[fd] == old(fds[fd]).(offset := old(fds[fd].offset) + |res.value|)
        && res.value == DataOf(fd)[old(fds[fd].offset)..fds[fd].offset]
    {
      hide Stored, DataAddr, Used;
      Writer(fd);
      var actlen: nat := if len < fds[fd].size - fds[fd].offset then len else fds[fd].size - fds[fd].offset;
      if !fds[fd].read {
        return Error(EBADF);
      }
      DataHere(owner[fd]);
      var a := fds[fd].offset + fds[fd].baseaddr;
      SliceAt(flash, fds[fd].baseaddr, DataOf(fd), fds[fd].offset, actlen);
      var bytes := flash[a..a + actlen];
      SetFd(fd, fds[fd].(offset := fds[fd].offset + actlen));
      res := Ok(bytes);
    }

    /** The data of a record is on the flash. */
    lemma DataHere(k: nat)
      requires Stored() && k <= |log| && (k == |log| ==> writing)
      ensures At(flash, DataAddr(RecordOf(k)), RecordOf(k).data) && DataAddr(RecordOf(k)) < UNUSED
    {
    }

    /** Moves the position, which stays inside of the file. */
    method Seek(fd: nat, whence: Whence, off: int) returns (res: Option<nat>)
      requires Valid() && fd < TOTAL_MAX_FDS && !fds[fd].Empty() && -0x8000_0000 <= off < 0x8000_0000
      modifies fds
      ensures Valid() && !fds[fd].Empty() && forall j :: 0 <= j < TOTAL_MAX_FDS && j != fd ==> fds[j] == old(fds[j])
      ensures var pos := off
        + (match whence case SeekSet => 0 case SeekCur => old(fds[fd].offset) case SeekEnd => old(fds[fd].size));
        if 0 <= pos <= old(fds[fd].size) then res == Some(pos) && fds[fd] == old(fds[fd]).(offset := pos)
        else res == None && fds[fd] == old(fds[fd])
    {
      hide Stored, DataAddr, Used;
      Writer(fd);
      DataHere(owner[fd]);
      SizeFits(owner[fd]);
      var newpos := match whence
        case SeekSet => off % 0x1_0000_0000
        case SeekCur => (fds[fd].offset + off) % 0x1_0000_0000
        case SeekEnd => (fds[fd].size + off) % 0x1_0000_0000;
      if newpos > fds[fd].size {
        return None;
      }
      SetFd(fd, fds[fd].(offset := newpos));
      res := Some(newpos);
    }

    lemma SizeFits(k: nat)
      requires Stored() && k <= |log| && (k == |log| ==> writing)
      ensures |RecordOf(k).data| < 0x8000_0000
    {
    }

    /** Gives the next entry of the directory from address off on. */
    method ReadDir(off0: nat, ghost k0: nat) returns (pent: Option<Entry>, off: nat, ghost k: nat)
      requires Stored() && !writing && k0 <= |log| && off0 == AddrAt(log, end, k0)
      ensures pent.None? ==> Listing(log, k0) == [] && off == off0
      ensures pent.Some? ==>
        k0 < k <= |log| && off == AddrAt(log, end, k) && Listing(log, k0) == [pent.value] + Listing(log, k)
    {
      hide Files, Unique, Started, RecordAt, NameAt, Logged, Align;
      off, k := off0, k0;
      StartsHere();
      while true
        invariant k0 <= k <= |log| && off == AddrAt(log, end, k) && Listing(log, k) == Listing(log, k0)
        decreases |log| - k
      {
        if k < |log| {
          RecordHere(k);
        }
        if flash[off] == END_MARKER {
          return None, off0, k;
        }
        Fields(k);
        var fname;
        fname, off := ReadDirName(off, log[k]);
        off := Align(off);
        var isDeleted := flash[off] == FILE_DELETED;
        off := off + WOFS_DEL_FIELD_SIZE;
        var fsize := SizeAt(flash, off);
        off := off + ROMFS_SIZE_LEN;
        off := off + fsize;
        off := Align(off);
        k := k + 1;
        if !isDeleted {
          return Some(Entry(fname, fsize)), off, k;
        }
      }
    }

    /** Reads a name up to its end; the offset is moved behind it. */
    method ReadDirName(off0: nat, ghost r: Record) returns (fname: seq<Byte>, off: nat)
      requires NameAt(flash, r) && off0 == r.addr
      ensures fname == r.name && off == r.addr + |r.name| + 1
    {
      ghost var s := r.name + [0];
      fname, off := [], off0;
      ghost var j := 0;
      while true
        invariant j <= |r.name| && off == off0 + j && fname == r.name[..j]
        decreases |r.name| - j
      {
        assert flash[off0 + j] == s[j];
        var c := flash[off];
        off := off + 1;
        if c == 0 {
          return;
        }
        fname := fname + [c];
        j := j + 1;
      }
    }

    /** What making a file, writing to it and closing it do together: if there is room, the name stands for
        exactly the bytes written, and no other file has changed. */
    method Store(path: seq<Byte>, data: seq<Byte>) returns (res: Result<nat>)
      requires Valid() && !writing && GoodName(path) && |data| < 0x8000_0000
      requires !Astray(path, Flags(true, false, true, true, false, false))
      modifies this, fds
      ensures Valid() && !writing && numFd == old(numFd)
      ensures match res
        case Error(ENFILE) => old(numFd) == TOTAL_MAX_FDS && Contents() == old(Contents())
        case Error(ENOSPC) => old(end) + |path| + 15 > maxSize && Contents() == old(Contents()) - {Key(path)}
        case Error(_) => false
        case Ok(n) => n <= |data| && Contents() == old(Contents())[Key(path) := data[..n]]
      ensures old(numFd) < TOTAL_MAX_FDS && old(end) + |path| + 15 <= maxSize ==> res.Ok?
      ensures res.Ok? ==>
        (res.value == |data| <==> DataAddr(Record(old(end), path, false, [])) + |data| <= maxSize - ROMFS_ALIGN)
    {
      hide Files, Stored, GoodName, Key, Used, OwnerFits, DataAddr, Descriptors, Stuck;
      ShortName(path);
      FdsHere();
      var fd := Open(path, Flags(true, false, true, true, false, false));
      if fd.Error? {
        NoneTwice(old(Contents()), Key(path));
        return Error(fd.errno);
      }
      Writer(fd.value);
      res := Write(fd.value, data);
      SameBase(open, Record(old(end), path, false, []));
      assert open.data == data[..res.value];
      Put(old(Contents()), Key(path), open.data);
      Close(fd.value);
    }
  }

  lemma HitsWhat(s: Seen, fname: seq<Byte>)
    ensures Hits(s, fname) <==> SameName(fname, s.name) && !s.deleted
  {
  }

  lemma Put(m: map<seq<Byte>, seq<Byte>>, key: seq<Byte>, v: seq<Byte>)
    ensures (m - {key})[key := v] == m[key := v]
  {
  }

  lemma SameBase(r: Record, r': Record)
    requires r.addr == r'.addr && r.name == r'.name
    ensures DataAddr(r) == DataAddr(r')
  {
  }

  lemma SliceAt(f: Flash, a: nat, s: seq<Byte>, o: nat, n: nat)
    requires At(f, a, s) && o + n <= |s|
    ensures a + o + n <= |f| && f[a + o..a + o + n] == s[o..o + n]
  {
    var t := f[a + o..a + o + n];
    forall i | 0 <= i < n ensures t[i] == s[o + i] {
      assert f[a + (o + i)] == s[o + i];
    }
  }

  lemma NoneTwice(m: map<seq<Byte>, seq<Byte>>, key: seq<Byte>)
    ensures key !in m ==> m - {key} == m
  {
  }

  lemma NewData(r: Record)
    ensures DataAddr(r) == Align(r.addr + |r.name| + 1) + 8
  {
  }

  lemma SameFd(fd: Fd, log: seq<Record>, k: nat, i: nat)
    requires k < |log|
    ensures i < |log| ==> (fd.Of(Marked(log, k)[i]) <==> fd.Of(log[i]))
  {
  }
}
