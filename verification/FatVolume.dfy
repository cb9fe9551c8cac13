/** A FAT volume behind a window of one sector that is written back when it moves on. */
module FatVolume {
  import opened Bytes
  import opened FatEntries
  import opened FatChains

  /** The sectors as a reader of the volume sees them: the window takes precedence over the disk.
      Further copies of the table are left out. */
  ghost function View(disk: Disk, win: Sector, winsect: nat, g: Geometry): Disk {
    map s | s in disk && !g.Mirrored(s) :: if s == winsect && winsect != 0 then win else disk[s]
  }

  /** Sector s of copy c of the table. */
  function CopyOf(g: Geometry, s: nat, c: nat): nat {
    s + c * g.sectsFat
  }

  /** All copies of the table are the same. */
  ghost predicate SameCopies(disk: Disk, g: Geometry) {
    forall s, c ::
      g.fatbase <= s < g.fatbase + g.sectsFat && 0 <= c < g.nFats && s in disk && CopyOf(g, s, c) in disk ==>
      disk[CopyOf(g, s, c)] == disk[s]
  }

  /** The disk after the window is written to its sector, and in the table to all copies. */
  ghost function WrittenBack(disk: Disk, win: Sector, winsect: nat, g: Geometry): Disk {
    map s | s in disk ::
      if s == winsect || (winsect < g.fatbase + g.sectsFat && IsCopy(g, winsect, s, g.nFats)) then win else disk[s]
  }

  /** Is x one of the first n copies of sector s of the table? */
  ghost predicate IsCopy(g: Geometry, s: nat, x: nat, n: nat) {
    exists c :: 0 <= c < n && x == CopyOf(g, s, c)
  }

  lemma Times(a: nat, b: nat, n: nat)
    ensures a <= b ==> a * n <= b * n
    ensures (a + 1) * n == a * n + n
  {
    if a <= b {
      assert (b - a) * n >= 0;
    }
  }

  lemma CopyFacts(g: Geometry, s: nat, c: nat)
    requires g.Valid() && g.fatbase <= s < g.fatbase + g.sectsFat && c < g.nFats
    ensures CopyOf(g, s, c) < g.fatbase + g.nFats * g.sectsFat && (c == 0 ==> CopyOf(g, s, c) == s)
    ensures 0 < c ==> g.Mirrored(CopyOf(g, s, c))
    ensures CopyOf(g, s, c) < g.total
  {
    var n := g.sectsFat;
    Times(c, 0, n);
    Times(c + 1, g.nFats, n);
    Times(1, c, n);
    assert 0 * n == 0 && 1 * n == n;
    CopyInside(g, s, c, n);
  }

  lemma CopyInside(g: Geometry, s: nat, c: nat, n: nat)
    requires g.Valid() && g.fatbase <= s < g.fatbase + n && n == g.sectsFat
    requires c * n + n <= g.nFats * n && (c > 0 ==> n <= c * n) && (c == 0 ==> c * n == 0)
    ensures CopyOf(g, s, c) < g.fatbase + g.nFats * g.sectsFat && (c == 0 ==> CopyOf(g, s, c) == s)
    ensures 0 < c ==> g.Mirrored(CopyOf(g, s, c))
    ensures CopyOf(g, s, c) < g.total
  {
    var k, m := c * n, g.nFats * n;
    assert 0 <= (g.maxClust - 2) * g.csize;
  }

  /** Different sectors of the table have different copies. */
  lemma CopiesApart(g: Geometry, s: nat, c: nat, s': nat, c': nat)
    requires g.Valid() && g.fatbase <= s < g.fatbase + g.sectsFat && g.fatbase <= s' < g.fatbase + g.sectsFat
    requires CopyOf(g, s, c) == CopyOf(g, s', c')
    ensures s == s' && c == c'
  {
    Times(c, 0, g.sectsFat);
    Times(c', 0, g.sectsFat);
    Times(c + 1, c', g.sectsFat);
    Times(c' + 1, c, g.sectsFat);
  }

  lemma WrittenBackCopies(disk: Disk, win: Sector, winsect: nat, g: Geometry)
    requires g.Valid() && SameCopies(disk, g) && g.fatbase <= winsect && !g.Mirrored(winsect)
    requires forall s: nat :: s < g.total ==> s in disk
    ensures SameCopies(WrittenBack(disk, win, winsect, g), g)
  {
    var disk' := WrittenBack(disk, win, winsect, g);
    forall s, c | g.fatbase <= s < g.fatbase + g.sectsFat && 0 <= c < g.nFats && s in disk && CopyOf(g, s, c) in disk
      ensures disk'[CopyOf(g, s, c)] == disk'[s]
    {
      CopyFacts(g, s, c);
      CopyFacts(g, s, 0);
      assert disk[CopyOf(g, s, c)] == disk[s];
      if winsect < g.fatbase + g.sectsFat {
        if s == winsect {
          assert IsCopy(g, winsect, CopyOf(g, s, c), g.nFats);
        } else {
          if IsCopy(g, winsect, CopyOf(g, s, c), g.nFats) {
            var c' :| 0 <= c' < g.nFats && CopyOf(g, s, c) == CopyOf(g, winsect, c');
            CopiesApart(g, s, c, winsect, c');
          }
          if IsCopy(g, winsect, s, g.nFats) {
            var c' :| 0 <= c' < g.nFats && s == CopyOf(g, winsect, c');
            CopiesApart(g, s, 0, winsect, c');
          }
        }
      }
    }
  }

  lemma WrittenBackView(disk: Disk, win: Sector, winsect: nat, g: Geometry, winsect': nat, win': Sector)
    requires g.Valid() && g.fatbase <= winsect && !g.Mirrored(winsect) && winsect in disk
    requires winsect' != 0 ==> winsect' in disk && win' == WrittenBack(disk, win, winsect, g)[winsect']
    ensures View(WrittenBack(disk, win, winsect, g), win', winsect', g) == View(disk, win, winsect, g)
  {
    forall s | s in disk && !g.Mirrored(s) && s != winsect && winsect < g.fatbase + g.sectsFat
      ensures !IsCopy(g, winsect, s, g.nFats)
    {
      if IsCopy(g, winsect, s, g.nFats) {
        var c :| 0 <= c < g.nFats && s == CopyOf(g, winsect, c);
        CopyFacts(g, winsect, c);
      }
    }
  }

  /** The disk after the window is written to the first n copies of its sector. */
  ghost function Copied(disk: Disk, win: Sector, winsect: nat, g: Geometry, n: nat): Disk {
    map s | s in disk :: if IsCopy(g, winsect, s, n) then win else disk[s]
  }

  lemma OneCopy(g: Geometry, disk: Disk, win: Sector, winsect: nat)
    requires winsect in disk
    ensures CopyOf(g, winsect, 0) == winsect && disk[winsect := win] == Copied(disk, win, winsect, g, 1)
  {
    assert IsCopy(g, winsect, CopyOf(g, winsect, 0), 1);
  }

  lemma MoreCopies(g: Geometry, disk: Disk, win: Sector, winsect: nat, n: nat)
    requires g.Valid() && 0 < n < g.nFats && g.fatbase <= winsect < g.fatbase + g.sectsFat
    requires forall s: nat :: s in disk <==> s < g.total
    ensures CopyOf(g, winsect, n) == CopyOf(g, winsect, n - 1) + g.sectsFat && CopyOf(g, winsect, n) in disk
    ensures Copied(disk, win, winsect, g, n)[CopyOf(g, winsect, n) := win] == Copied(disk, win, winsect, g, n + 1)
  {
    Times(n - 1, 0, g.sectsFat);
    CopyFacts(g, winsect, n);
    hide CopyOf;
    forall x ensures IsCopy(g, winsect, x, n + 1) <==> IsCopy(g, winsect, x, n) || x == CopyOf(g, winsect, n) {
    }
  }

  lemma AllCopies(g: Geometry, disk: Disk, win: Sector, winsect: nat)
    requires winsect < g.fatbase + g.sectsFat && 1 <= g.nFats
    ensures Copied(disk, win, winsect, g, g.nFats) == WrittenBack(disk, win, winsect, g)
  {
    assert CopyOf(g, winsect, 0) == winsect;
  }

  lemma NoCopies(g: Geometry, disk: Disk, win: Sector, winsect: nat)
    requires winsect >= g.fatbase + g.sectsFat && winsect in disk
    ensures disk[winsect := win] == WrittenBack(disk, win, winsect, g)
  {
  }

  lemma WrittenBackIs(disk: Disk, win: Sector, winsect: nat, g: Geometry)
    requires winsect in disk
    ensures WrittenBack(disk, win, winsect, g).Keys == disk.Keys && WrittenBack(disk, win, winsect, g)[winsect] == win
  {
  }

  /** The entries of all clusters. */
  ghost function TableIn(d: Disk, g: Geometry): Table {
    map c | 2 <= c < g.maxClust :: Entry(d, g, c)
  }

  class Volume {
    const g: Geometry
    var disk: Disk
    var win: Sector
    var winsect: nat
    var wflag: bool
    // The last cluster that was allocated, the number of free clusters or 0xFFFF_FFFF, and whether
    // the two have changed
    var lastClust: nat
    var freeClust: nat
    var fsiFlag: bool

    /** A volume as it is mounted, with nothing in the window. */
    constructor (g: Geometry, disk: Disk)
      requires g.Valid() && (forall s: nat :: s in disk <==> s < g.total) && SameCopies(disk, g)
      ensures Coherent() && this.g == g && this.disk == disk && winsect == 0 && lastClust == 0
      ensures freeClust == 0xFFFF_FFFF
    {
      this.g, this.disk := g, disk;
      win, winsect, wflag := seq(512, i => 0), 0, false;
      lastClust, freeClust, fsiFlag := 0, 0xFFFF_FFFF, false;
    }

    /** What a reader of the volume sees. */
    ghost function Sectors(): Disk
      reads this`disk, this`win, this`winsect
    {
      View(disk, win, winsect, g)
    }

    ghost predicate Framed()
      reads this`disk, this`winsect, this`wflag
    {
      && g.Valid() && (forall s: nat :: s in disk <==> s < g.total) && SameCopies(disk, g)
      && (winsect == 0 ==> !wflag) && (winsect != 0 ==> winsect < g.total && !g.Mirrored(winsect))
      && (wflag ==> g.fatbase <= winsect)
    }

    /** A window that is not marked as changed holds what is on the disk. */
    ghost predicate Coherent()
      reads this`disk, this`win, this`winsect, this`wflag
    {
      Framed() && (winsect != 0 && !wflag ==> win == disk[winsect])
    }

    /** Writes the window back to all copies of its sector. */
    method WriteBack()
      requires Framed() && wflag
      modifies this`disk, this`wflag
      ensures Coherent() && !wflag && disk == WrittenBack(old(disk), win, winsect, g) && Sectors() == old(Sectors())
    {
      hide SameCopies, Copied, WrittenBack, View, CopyOf;
      WrittenBackCopies(disk, win, winsect, g);
      WrittenBackIs(disk, win, winsect, g);
      WrittenBackView(disk, win, winsect, g, winsect, win);
      var wsect := winsect;
      disk := disk[wsect := win];
      wflag := false;
      if wsect < g.fatbase + g.sectsFat {
        var nf := g.nFats;
        ghost var done := 1;
        OneCopy(g, old(disk), win, winsect);
        while nf > 1
          invariant 1 <= nf && done + nf == g.nFats + 1 && wsect == CopyOf(g, winsect, done - 1)
          invariant disk == Copied(old(disk), win, winsect, g, done) && !wflag
        {
          MoreCopies(g, old(disk), win, winsect, done);
          wsect := wsect + g.sectsFat;
          disk := disk[wsect := win];
          nf := nf - 1;
          done := done + 1;
        }
        AllCopies(g, old(disk), win, winsect);
      } else {
        NoCopies(g, old(disk), win, winsect);
      }
    }

    /** Moves the window to a sector; moving it to sector 0 only writes it back. */
    method MoveWindow(sector: nat)
      requires Framed() && (Coherent() || winsect == sector)
      requires sector < g.total && !g.Mirrored(sector)
      modifies this`disk, this`wflag, this`win, this`winsect
      ensures old(Coherent()) ==> Coherent()
      ensures Framed() && Sectors() == old(Sectors())
      ensures sector != 0 ==> winsect == sector
      ensures sector == 0 ==> winsect == old(winsect) && !wflag
      ensures old(winsect) == sector ==> win == old(win) && wflag == old(wflag) && disk == old(disk)
    {
      if winsect != sector {
        if wflag {
          WriteBack();
        }
        if sector != 0 {
          win := disk[sector];
          winsect := sector;
        }
      }
    }

    /** Moves the window to a sector. */
    method ToSector(sector: nat)
      requires Coherent() && 0 < sector < g.total && !g.Mirrored(sector)
      modifies this`disk, this`wflag, this`win, this`winsect
      ensures Coherent() && Sectors() == old(Sectors()) && winsect == sector
    {
      MoveWindow(sector);
    }

    /** The entry of cluster c. */
    ghost function Fat(c: nat): nat
      reads this`disk, this`win, this`winsect
    {
      Entry(Sectors(), g, c)
    }

    /** Moves the window to the sector of byte k of the table, and gives that byte. */
    method TableByteAt(k: nat) returns (b: Byte)
      requires Coherent() && k < g.sectsFat * 512
      modifies this`disk, this`wflag, this`win, this`winsect
      ensures Coherent() && Sectors() == old(Sectors()) && winsect == g.fatbase + k / 512 && b == win[k % 512]
      ensures b == TableByte(Sectors(), g, k)
    {
      TableSector(g, k);
      MoveWindow(g.fatbase + k / 512);
      b := win[k % 512];
    }

    method GetFat12(clst: nat) returns (r: nat)
      requires Coherent() && g.fatType == Fat12 && clst < g.maxClust
      modifies this`disk, this`wflag, this`win, this`winsect
      ensures Coherent() && Sectors() == old(Sectors()) && r == Fat(clst)
    {
      hide Entry, View, SameCopies, TableByte;
      EntryInTable(g, clst);
      EntryBytes(Sectors(), g, clst);
      var bc := clst;
      bc := bc + bc / 2;
      var wc: nat := TableByteAt(bc);
      bc := bc + 1;
      var b: nat := TableByteAt(bc);
      wc := wc + 0x100 * b;
      r := if clst % 2 == 1 then wc / 0x10 else wc % 0x1000;
    }

    method GetFat16(clst: nat) returns (r: nat)
      requires Coherent() && g.fatType == Fat16 && clst < g.maxClust
      modifies this`disk, this`wflag, this`win, this`winsect
      ensures Coherent() && Sectors() == old(Sectors()) && r == Fat(clst)
    {
      hide Entry, View, SameCopies;
      Offset16(clst);
      EntryInTable(g, clst);
      TableSector(g, 2 * clst);
      MoveWindow(g.fatbase + clst / 256);
      WindowEntry16(win, winsect, disk, g, clst);
      r := LoadWord(win, clst % 0x1_0000 * 2 % 512);
    }

    method GetFat32(clst: nat) returns (r: nat)
      requires Coherent() && g.fatType == Fat32 && clst < g.maxClust
      modifies this`disk, this`wflag, this`win, this`winsect
      ensures Coherent() && Sectors() == old(Sectors()) && r == Fat(clst)
    {
      hide Entry, View, SameCopies;
      Offset32(clst);
      EntryInTable(g, clst);
      TableSector(g, 4 * clst);
      MoveWindow(g.fatbase + clst / 128);
      WindowEntry32(win, winsect, disk, g, clst);
      r := LoadDword(win, clst % 0x1_0000 * 4 % 512) % 0x1000_0000;
    }

    /** The value of the entry of a cluster; 1 for cluster numbers out of range. */
    method GetFat(clst: nat) returns (r: nat)
      requires Coherent()
      modifies this`disk, this`wflag, this`win, this`winsect
      ensures Coherent() && Sectors() == old(Sectors())
      ensures r == if clst < 2 || clst >= g.maxClust then 1 else Fat(clst)
    {
      if clst < 2 || clst >= g.maxClust {
        return 1;
      }
      match g.fatType {
        case Fat12 => r := GetFat12(clst);
        case Fat16 => r := GetFat16(clst);
        case Fat32 => r := GetFat32(clst);
      }
    }

    /** Changes a byte of the table. */
    method SetTableByte(k: nat, b: Byte)
      requires Coherent() && k < g.sectsFat * 512 && winsect == g.fatbase + k / 512
      modifies this`wflag, this`win
      ensures Coherent() && SameOutside(old(Sectors()), Sectors(), g)
      ensures forall i :: TableByte(Sectors(), g, i) == if i == k then b else TableByte(old(Sectors()), g, i)
    {
      hide TableByte, View, SameCopies;
      TableSector(g, k);
      ByteStored(win, winsect, disk, g, k, b);
      StoredOutside(win, winsect, disk, g, k, b);
      win := win[k % 512 := b];
      wflag := true;
    }

    method PutFat12(clst: nat, val: nat)
      requires Coherent() && g.fatType == Fat12 && clst < g.maxClust
      modifies this`disk, this`wflag, this`win, this`winsect
      ensures Coherent() && SameOutside(old(Sectors()), Sectors(), g)
      ensures forall k :: TableByte(Sectors(), g, k) == PutByte(old(Sectors()), g, clst, val, k)
    {
      hide TableByte, View, SameCopies, SameOutside, Low12, High12;
      EntryInTable(g, clst);
      var bc := clst;
      bc := bc + bc / 2;
      var b := TableByteAt(bc);
      SetTableByte(bc, Low12(clst, val, b));
      ghost var between := Sectors();
      bc := bc + 1;
      b := TableByteAt(bc);
      SetTableByte(bc, High12(clst, val, b));
      OutsideTwice(old(Sectors()), between, Sectors(), g);
      Put12(old(Sectors()), between, Sectors(), g, clst, val);
    }

    method PutFat16(clst: nat, val: nat)
      requires Coherent() && g.fatType == Fat16 && clst < g.maxClust
      modifies this`disk, this`wflag, this`win, this`winsect
      ensures Coherent() && SameOutside(old(Sectors()), Sectors(), g)
      ensures forall k :: TableByte(Sectors(), g, k) == PutByte(old(Sectors()), g, clst, val, k)
    {
      hide TableByte, View, SameCopies, SameOutside, ValueByte;
      Offset16(clst);
      EntryInTable(g, clst);
      TableSector(g, 2 * clst);
      MoveWindow(g.fatbase + clst / 256);
      StoredWord(win, winsect, disk, g, clst, val);
      win := StoreWord(win, clst % 0x1_0000 * 2 % 512, val);
      wflag := true;
    }

    method PutFat32(clst: nat, val: nat)
      requires Coherent() && g.fatType == Fat32 && clst < g.maxClust
      modifies this`disk, this`wflag, this`win, this`winsect
      ensures Coherent() && SameOutside(old(Sectors()), Sectors(), g)
      ensures forall k :: TableByte(Sectors(), g, k) == PutByte(old(Sectors()), g, clst, val, k)
    {
      hide TableByte, View, SameCopies, SameOutside, ValueByte;
      Offset32(clst);
      EntryInTable(g, clst);
      TableSector(g, 4 * clst);
      MoveWindow(g.fatbase + clst / 128);
      StoredDword(win, winsect, disk, g, clst, val);
      win := StoreDword(win, clst % 0x1_0000 * 4 % 512, val);
      wflag := true;
    }

    /** Changes the entry of a cluster, and nothing else that a reader of the volume sees; fails for
        cluster numbers out of range. */
    method PutFat(clst: nat, val: nat) returns (ok: bool)
      requires Coherent() && val < 0x1_0000_0000
      modifies this`disk, this`wflag, this`win, this`winsect
      ensures Coherent() && ok == (2 <= clst < g.maxClust) && SameOutside(old(Sectors()), Sectors(), g)
      ensures !ok ==> Sectors() == old(Sectors())
      ensures ok ==> forall c :: 0 <= c < g.maxClust ==> Fat(c) == if c == clst then val % g.Values() else old(Fat(c))
    {
      hide Entry, View, SameCopies, TableByte, PutByte, SameOutside;
      if clst < 2 || clst >= g.maxClust {
        OutsideSelf(Sectors(), g);
        return false;
      }
      match g.fatType {
        case Fat12 => PutFat12(clst, val);
        case Fat16 => PutFat16(clst, val);
        case Fat32 => PutFat32(clst, val);
      }
      forall c | 0 <= c < g.maxClust ensures Fat(c) == if c == clst then val % g.Values() else old(Fat(c)) {
        PutEntry(old(Sectors()), Sectors(), g, clst, val, c);
      }
      return true;
    }

    /** The entries of all clusters. */
    ghost function Clusters(): Table
      reads this`disk, this`win, this`winsect
    {
      TableIn(Sectors(), g)
    }

    /** The number of free clusters, when it is known, is right. */
    ghost predicate Counted()
      reads this`disk, this`win, this`winsect, this`freeClust
    {
      freeClust != UNKNOWN ==> freeClust == |FreeClusters(Clusters())|
    }

    /** PutFat as a change of the table of clusters. */
    method SetFat(clst: nat, val: nat)
      requires Coherent() && 2 <= clst < g.maxClust && val < 0x1_0000_0000
      modifies this`disk, this`wflag, this`win, this`winsect
      ensures Coherent() && Clusters() == old(Clusters())[clst := val % g.Values()]
      ensures SameOutside(old(Sectors()), Sectors(), g)
    {
      hide Entry, Sectors, Coherent, SameOutside, Geometry.Values;
      var ok := PutFat(clst, val);
      SomeValue(g);
      forall c | 2 <= c < g.maxClust
        ensures Entry(Sectors(), g, c) == if c == clst then val % g.Values() else Entry(old(Sectors()), g, c)
      {
        assert Fat(c) == if c == clst then val % g.Values() else old(Fat(c));
      }
    }

    /** GetFat as a look at the table of clusters. */
    method LookUp(clst: nat) returns (r: nat)
      requires Coherent()
      modifies this`disk, this`wflag, this`win, this`winsect
      ensures Coherent() && Sectors() == old(Sectors()) && Clusters() == old(Clusters())
      ensures TableOf(Clusters(), g.maxClust)
      ensures r == if 2 <= clst < g.maxClust then Clusters()[clst] else 1
    {
      hide Entry, View, SameCopies;
      r := GetFat(clst);
    }

    /** Removes a chain of clusters: all entries from clst on are set to 0, up to the end of the chain or
        to an entry that is 0. On tables with cycles this ends too. */
    method RemoveChain(clst: nat) returns (ok: bool)
      requires Coherent()
      modifies this`disk, this`wflag, this`win, this`winsect, this`freeClust, this`fsiFlag
      ensures Coherent() && SameOutside(old(Sectors()), Sectors(), g)
      ensures clst < 2 || clst >= g.maxClust ==> !ok && Clusters() == old(Clusters()) && freeClust == old(freeClust)
      ensures 2 <= clst < g.maxClust ==>
        ok == !MeetsError(old(Clusters()), g.maxClust, clst) && Clusters() == Removed(old(Clusters()), g.maxClust, clst)
      ensures old(Counted()) ==> Counted()
    {
      hide Coherent, Sectors, Clusters, SameOutside, Removed, MeetsError, Geometry.Values;
      OutsideSelf(Sectors(), g);
      if clst < 2 || clst >= g.maxClust {
        return false;
      }
      ok := true;
      var c := clst;
      ghost var f := Clusters();
      while c < g.maxClust
        invariant Coherent() && SameOutside(old(Sectors()), Sectors(), g) && 2 <= c && ok
        invariant Removed(Clusters(), g.maxClust, c) == Removed(f, g.maxClust, clst)
        invariant MeetsError(Clusters(), g.maxClust, c) == MeetsError(f, g.maxClust, clst)
        invariant old(Counted()) ==> Counted()
        decreases UsedClusters(Clusters())
      {
        ghost var before := Sectors();
        var nxt := LookUp(c);
        ghost var t := Clusters();
        RemovedStep(t, g.maxClust, c);
        if nxt == 0 {
          return;
        }
        if nxt == 1 {
          ok := false;
          return;
        }
        SetFat(c, 0);
        NoValue(g);
        FreedOne(t, c);
        OutsideTwice(old(Sectors()), before, Sectors(), g);
        if freeClust != UNKNOWN {
          GeometryFacts();
          TableShape();
          FreeCountFits(Clusters(), g.maxClust);
          freeClust := (freeClust + 1) % 0x1_0000_0000;
          fsiFlag := true;
        }
        c := nxt;
      }
      TableShape();
      RemovedStep(Clusters(), g.maxClust, c);
    }

    /** Looks for a free cluster, from the one behind scl on and around: 0 when there is none, 1 when
        an entry is met that no chain has. */
    method FindFree(scl: nat) returns (ncl: nat)
      requires Coherent() && 1 <= scl < g.maxClust
      modifies this`disk, this`wflag, this`win, this`winsect
      ensures Coherent() && Sectors() == old(Sectors()) && Clusters() == old(Clusters())
      ensures ncl == 0 ==> FreeClusters(Clusters()) == {}
      ensures ncl == 1 ==> exists c :: c in Clusters() && Clusters()[c] == 1
      ensures ncl >= 2 ==> ncl in FreeClusters(Clusters()) && ncl < g.maxClust
    {
      hide Coherent, Sectors, Clusters;
      ncl := scl;
      ghost var f, wrapped := Clusters(), false;
      TableShape();
      while true
        invariant Coherent() && Sectors() == old(Sectors()) && Clusters() == f && 1 <= ncl < g.maxClust
        invariant !wrapped ==> scl <= ncl && forall c :: scl < c <= ncl && c in f ==> f[c] != 0
        invariant wrapped ==> ncl < scl
        invariant wrapped ==> forall c :: (scl < c || c <= ncl) && c in f ==> f[c] != 0
        decreases if wrapped then 0 else 1, g.maxClust - ncl
      {
        ncl := ncl + 1;
        if ncl >= g.maxClust {
          ncl := 2;
          wrapped := true;
          if ncl > scl {
            AllUsed(f, g.maxClust);
            return 0;
          }
        }
        var cs := LookUp(ncl);
        if cs == 0 {
          return;
        }
        if cs == 1 {
          return 1;
        }
        if ncl == scl {
          AllUsed(f, g.maxClust);
          return 0;
        }
      }
    }

    /** Stretches the chain that ends with cluster clst, or begins a new chain when clst is 0. The
        result is the new cluster; 0 when no cluster is free, 1 when the table is not in order. For a
        cluster that is not the last of its chain this is just the next one. */
    method CreateChain(clst: nat) returns (r: nat)
      requires Coherent() && lastClust < 0x1_0000_0000
      modifies this`disk, this`wflag, this`win, this`winsect, this`freeClust, this`fsiFlag, this`lastClust
      ensures Coherent() && SameOutside(old(Sectors()), Sectors(), g) && lastClust < 0x1_0000_0000
      ensures old(Counted()) ==> Counted()
      ensures ChainCreated(g, old(Clusters()), Clusters(), clst, r)
    {
      hide Coherent, Sectors, Clusters, SameOutside, FreeClusters;
      OutsideSelf(Sectors(), g);
      ghost var f, d := Clusters(), Sectors();
      var scl := clst;
      TableShape();
      GeometryFacts();
      if clst == 0 {
        scl := lastClust;
        if scl == 0 || scl >= g.maxClust {
          scl := 1;
        }
      } else {
        var cs := LookUp(clst);
        if cs < 2 {
          return 1;
        }
        if cs < g.maxClust {
          return cs;
        }
      }
      r := FindFree(scl);
      if r < 2 {
        return;
      }
      UseCluster(r, clst);
    }

    /** Marks a free cluster as the end of a chain, and links it behind clst, if that is not 0. */
    method UseCluster(r: nat, clst: nat)
      requires Coherent() && r in FreeClusters(Clusters()) && r < g.maxClust
      requires clst != 0 ==> clst in Clusters() && Clusters()[clst] >= g.maxClust
      modifies this`disk, this`wflag, this`win, this`winsect, this`freeClust, this`fsiFlag, this`lastClust
      ensures Coherent() && SameOutside(old(Sectors()), Sectors(), g) && lastClust < 0x1_0000_0000
      ensures old(Counted()) ==> Counted()
      ensures Clusters() == if clst == 0 then old(Clusters())[r := g.EndMark()]
        else old(Clusters())[r := g.EndMark()][clst := r]
    {
      hide Coherent, Sectors, Clusters, SameOutside, FreeClusters, Geometry.EndMark, Geometry.Values;
      ghost var f, d := Clusters(), Sectors();
      TableShape();
      GeometryFacts();
      FreeOne(f, r, g.maxClust);
      UsedOne(f, r, clst, g);
      SetFat(r, 0x0FFF_FFFF);
      if clst != 0 {
        ghost var between := Sectors();
        SetFat(clst, r);
        OutsideTwice(d, between, Sectors(), g);
      }
      lastClust := r;
      if freeClust != UNKNOWN {
        freeClust := (freeClust + 0xFFFF_FFFF) % 0x1_0000_0000;
        fsiFlag := true;
      }
    }

    /** Counts free clusters by asking for one entry after the other. */
    method CountByCluster() returns (n: nat)
      requires Coherent()
      modifies this`disk, this`wflag, this`win, this`winsect
      ensures Coherent() && Sectors() == old(Sectors()) && n == ZerosFrom(Sectors(), g, 2, g.maxClust)
    {
      hide Coherent, Sectors, ZerosFrom, Entry;
      GeometryFacts();
      n := 0;
      var clst := 2;
      ZerosNone(Sectors(), g, 2);
      while clst < g.maxClust
        invariant Coherent() && Sectors() == old(Sectors()) && 2 <= clst <= g.maxClust
        invariant n == ZerosFrom(Sectors(), g, 2, clst)
      {
        OneMoreEntry(Sectors(), g, 2, clst);
        var stat := GetFat(clst);
        if stat == 0 {
          n := n + 1;
        }
        clst := clst + 1;
      }
    }

    /** Is the entry of cluster c, at offset p of the window, zero? */
    method ZeroInWindow(p: nat, ghost c: nat) returns (z: bool)
      requires Coherent() && c < g.maxClust && (g.fatType == Fat16 || g.fatType == Fat32)
      requires winsect == g.fatbase + g.Offset(c) / 512 && p == g.Offset(c) % 512
      ensures z == (Fat(c) == 0) && p + (if g.fatType == Fat16 then 2 else 4) <= 512
    {
      hide Entry, View, SameCopies;
      if g.fatType == Fat16 {
        Offset16(c);
        WindowEntry16(win, winsect, disk, g, c);
        z := LoadWord(win, p) == 0;
      } else {
        Offset32(c);
        WindowEntry32(win, winsect, disk, g, c);
        z := LoadDword(win, p) % 0x1000_0000 == 0;
      }
    }

    /** Counts zero entries by scanning the sectors of a FAT16 or FAT32 table from the start. */
    method CountBySector() returns (n: nat)
      requires Coherent() && (g.fatType == Fat16 || g.fatType == Fat32)
      modifies this`disk, this`wflag, this`win, this`winsect
      ensures Coherent() && Sectors() == old(Sectors()) && n == ZerosFrom(Sectors(), g, 0, g.maxClust)
    {
      hide Coherent, Sectors, ZerosFrom, Entry, Geometry.Offset, Scanning;
      GeometryFacts();
      n := 0;
      var size := if g.fatType == Fat16 then 2 else 4;
      var clst: nat, sect: nat, i: nat, p: nat := g.maxClust, g.fatbase, 0, 0;
      ghost var e: nat := 0;
      ZerosNone(Sectors(), g, 0);
      ScanBegins(g, winsect);
      while clst > 0
        invariant Coherent() && Sectors() == old(Sectors()) && e + clst == g.maxClust
        invariant n == ZerosFrom(Sectors(), g, 0, e)
        invariant Scanning(g, e, sect, i, p, winsect)
      {
        OneMoreEntry(Sectors(), g, 0, e);
        ScanStep(g, e, sect, i, p, winsect);
        if i == 0 {
          ToSector(sect);
          sect := sect + 1;
          p := 0;
          i := 512;
        }
        var z := ZeroInWindow(p, e);
        if z {
          n := n + 1;
        }
        p := p + size;
        i := i - size;
        clst := clst - 1;
        e := e + 1;
      }
    }

    /** The number of free clusters: the one that is kept, or else by counting. The scan by sectors
        also counts the two reserved entries in front, should they be zero. */
    method GetFree() returns (n: nat)
      requires Coherent()
      modifies this`disk, this`wflag, this`win, this`winsect, this`freeClust, this`fsiFlag
      ensures Coherent() && Sectors() == old(Sectors())
      ensures old(freeClust) <= g.maxClust - 2 ==> n == old(freeClust)
      ensures old(freeClust) > g.maxClust - 2 && g.fatType == Fat12 ==> n == |FreeClusters(Clusters())|
      ensures old(freeClust) > g.maxClust - 2 && g.fatType != Fat12 ==>
        n == |FreeClusters(Clusters())| + (if Fat(0) == 0 then 1 else 0) + (if Fat(1) == 0 then 1 else 0)
      ensures old(Counted()) && Fat(0) != 0 && Fat(1) != 0 ==> Counted()
    {
      hide Coherent, Sectors, ZerosFrom, Clusters, Fat, FreeClusters;
      GeometryFacts();
      CountFacts();
      if freeClust <= g.maxClust - 2 {
        return freeClust;
      }
      if g.fatType == Fat12 {
        n := CountByCluster();
      } else {
        n := CountBySector();
      }
      CountFacts();
      freeClust := n;
      if g.fatType == Fat32 {
        fsiFlag := true;
      }
    }

    lemma CountFacts()
      requires Coherent()
      ensures ZerosFrom(Sectors(), g, 2, g.maxClust) == |FreeClusters(Clusters())|
      ensures ZerosFrom(Sectors(), g, 0, g.maxClust) ==
        |FreeClusters(Clusters())| + (if Fat(0) == 0 then 1 else 0) + (if Fat(1) == 0 then 1 else 0)
    {
      ZerosAreFree(Sectors(), g, g.maxClust);
      assert Clusters() == map c | 2 <= c < g.maxClust :: Entry(Sectors(), g, c);
    }

    lemma GeometryFacts()
      requires Coherent()
      ensures g.Valid()
    {
    }

    /** Every sector of the data area can be seen. */
    lemma DataPresent()
      requires Coherent()
      ensures forall s: nat :: g.database <= s < g.total ==> s in Sectors()
    {
    }

    lemma TableShape()
      ensures TableOf(Clusters(), g.maxClust)
    {
    }

    /** Reads sectors from the disk; what the window has not written back yet replaces what is read. */
    method ReadSectors(sect: nat, cc: nat) returns (bytes: seq<Byte>)
      requires Coherent() && DataSectors(g, sect, cc) && 0 < cc
      ensures bytes == BytesOf(Sectors(), sect, cc)
    {
      hide SameCopies, BytesOf, View;
      bytes := BytesOf(disk, sect, cc);
      if !wflag || !(sect <= winsect < sect + cc) {
        ReadClean(disk, win, winsect, g, sect, cc);
      } else {
        ReadThrough(disk, win, winsect, g, sect, cc);
        var o := 512 * (winsect - sect);
        bytes := bytes[..o] + win + bytes[o + 512..];
      }
    }

    /** Writes sectors to the disk; if the window is on one of them, it is filled with what is written. */
    method WriteSectors(sect: nat, cc: nat, bytes: seq<Byte>)
      requires Coherent() && DataSectors(g, sect, cc) && 0 < cc && |bytes| == 512 * cc
      modifies this`disk, this`win, this`wflag
      ensures Coherent() && Sectors() == SectorsPut(old(Sectors()), sect, cc, bytes)
    {
      disk := SectorsPut(disk, sect, cc, bytes);
      if sect <= winsect < sect + cc {
        win := Chunk(bytes, winsect - sect);
        wflag := false;
      }
      DataCopies(g, old(disk), sect, cc, bytes);
    }

    /** Reads a part of a sector through the window. */
    method ReadPart(sect: nat, o: nat, n: nat) returns (bytes: seq<Byte>)
      requires Coherent() && DataSectors(g, sect, 1) && o + n <= 512
      modifies this`disk, this`wflag, this`win, this`winsect
      ensures Coherent() && Sectors() == old(Sectors()) && sect in Sectors() && bytes == Sectors()[sect][o..o + n]
    {
      MoveWindow(sect);
      bytes := win[o..o + n];
    }

    /** Moves the window to a sector without reading it: what was in the window appears there. */
    method GrabSector(sect: nat)
      requires Coherent() && DataSectors(g, sect, 1)
      modifies this`disk, this`wflag, this`win, this`winsect
      ensures Framed() && winsect == sect && sect in old(Sectors()) && Sectors() == old(Sectors())[sect := win]
    {
      hide SameCopies, View;
      MoveWindow(0);
      WindowGrabs(disk, win, winsect, g, sect);
      winsect := sect;
    }

    /** Writes a part of a sector into the window. */
    method WritePart(sect: nat, o: nat, bytes: seq<Byte>)
      requires Framed() && (Coherent() || winsect == sect) && DataSectors(g, sect, 1) && o + |bytes| <= 512
      modifies this`disk, this`wflag, this`win, this`winsect
      ensures Coherent() && sect in old(Sectors())
      ensures Sectors() == old(Sectors())[sect := Patched(old(Sectors())[sect], o, bytes)]
    {
      hide SameCopies, View, Patched;
      MoveWindow(sect);
      WindowChanged(disk, win, Patched(win, o, bytes), winsect, g);
      win := Patched(win, o, bytes);
      wflag := true;
    }

    /** The first sector of a cluster; 0 for cluster numbers out of range. */
    function Clust2Sect(clst: nat): nat {
      if clst < 2 || clst - 2 >= g.maxClust - 2 then 0 else (clst - 2) * g.csize + g.database
    }
  }

  lemma AllUsed(f: Table, max: nat)
    requires forall c :: c in f ==> f[c] != 0
    ensures FreeClusters(f) == {}
  {
  }

  lemma FreeCountFits(f: Table, max: nat)
    requires TableOf(f, max)
    ensures |FreeClusters(f)| <= max
  {
    CountBelow(FreeClusters(f), max);
  }

  lemma {:induction false} CountBelow(s: set<nat>, n: nat)
    requires forall c :: c in s ==> c < n
    ensures |s| <= n
  {
    if n > 0 {
      CountBelow(s - {n - 1}, n - 1);
    } else {
      assert s == {};
    }
  }

  lemma FreeOne(f: Table, c: nat, max: nat)
    requires c in FreeClusters(f) && TableOf(f, max)
    ensures c in f && f[c] == 0 && 2 <= c < max && 0 < |FreeClusters(f)| <= max
  {
    FreeCountFits(f, max);
  }

  /** The marks that a new cluster gets: the end of a chain, and the link from the last cluster. */
  lemma UsedOne(f: Table, c: nat, last: nat, g: Geometry)
    requires g.Valid() && TableOf(f, g.maxClust) && c in FreeClusters(f)
    requires (last != 0 ==> last in f && f[last] >= g.maxClust)
    ensures 0x0FFF_FFFF % g.Values() == g.EndMark() && c % g.Values() == c
    ensures var f' := if last == 0 then f[c := g.EndMark()] else f[c := g.EndMark()][last := c];
      |FreeClusters(f')| == |FreeClusters(f)| - 1
  {
    var f' := if last == 0 then f[c := g.EndMark()] else f[c := g.EndMark()][last := c];
    assert FreeClusters(f) == FreeClusters(f') + {c};
  }

  lemma SomeValue(g: Geometry)
    ensures g.Values() > 0
  {
  }

  lemma NoValue(g: Geometry)
    ensures 0 % g.Values() == 0
  {
  }

  /** Sectors of the data area. */
  ghost predicate DataSectors(g: Geometry, sect: nat, n: nat) {
    g.database <= sect && sect + n <= g.total
  }

  /** Byte o of sector s. */
  function DiskByte(d: Disk, s: nat, o: nat): Byte
    requires o < 512
  {
    if s in d then d[s][o] else 0
  }

  /** The bytes of cc sectors. */
  function BytesOf(d: Disk, sect: nat, cc: nat): (r: seq<Byte>)
    ensures |r| == 512 * cc
  {
    seq(512 * cc, k requires 0 <= k < 512 * cc => DiskByte(d, sect + k / 512, k % 512))
  }

  /** Byte k lies in sector i if and only if it is between the ends of that sector. */
  lemma SectorOfByte(k: nat, i: nat)
    ensures k / 512 == i <==> 512 * i <= k < 512 * i + 512
    ensures k / 512 == i ==> k % 512 == k - 512 * i
  {
  }

  lemma ViewByte(disk: Disk, win: Sector, winsect: nat, g: Geometry, s: nat, o: nat)
    requires g.Valid() && g.database <= s && s in disk && o < 512
    ensures DiskByte(View(disk, win, winsect, g), s, o) == if s == winsect then win[o] else DiskByte(disk, s, o)
  {
  }

  /** Reading from the disk, and replacing what is in the window, is reading what the volume holds. */
  lemma ReadThrough(disk: Disk, win: Sector, winsect: nat, g: Geometry, sect: nat, cc: nat)
    requires g.Valid() && DataSectors(g, sect, cc) && forall s: nat :: s < g.total ==> s in disk
    requires sect <= winsect < sect + cc
    ensures var o := 512 * (winsect - sect); var b := BytesOf(disk, sect, cc);
      b[..o] + win + b[o + 512..] == BytesOf(View(disk, win, winsect, g), sect, cc)
  {
    hide View, DiskByte;
    var d, o, b := View(disk, win, winsect, g), 512 * (winsect - sect), BytesOf(disk, sect, cc);
    var r := b[..o] + win + b[o + 512..];
    forall k | 0 <= k < 512 * cc ensures r[k] == DiskByte(d, sect + k / 512, k % 512) {
      SectorOfByte(k, winsect - sect);
      ViewByte(disk, win, winsect, g, sect + k / 512, k % 512);
    }
  }

  lemma ReadClean(disk: Disk, win: Sector, winsect: nat, g: Geometry, sect: nat, cc: nat)
    requires g.Valid() && DataSectors(g, sect, cc) && forall s: nat :: s < g.total ==> s in disk
    requires sect <= winsect < sect + cc ==> win == disk[winsect]
    ensures BytesOf(disk, sect, cc) == BytesOf(View(disk, win, winsect, g), sect, cc)
  {
    hide View;
    forall k | 0 <= k < 512 * cc
      ensures DiskByte(View(disk, win, winsect, g), sect + k / 512, k % 512) == DiskByte(disk, sect + k / 512, k % 512)
    {
      ViewByte(disk, win, winsect, g, sect + k / 512, k % 512);
    }
  }

  /** Changing the window changes the sector that it is on. */
  lemma WindowChanged(disk: Disk, win: Sector, win': Sector, winsect: nat, g: Geometry)
    requires g.Valid() && g.database <= winsect && winsect in disk
    ensures winsect in View(disk, win, winsect, g) && View(disk, win, winsect, g)[winsect] == win
    ensures View(disk, win', winsect, g) == View(disk, win, winsect, g)[winsect := win']
  {
  }

  /** Moving the window without reading makes its contents appear in the new sector. */
  lemma WindowGrabs(disk: Disk, win: Sector, winsect: nat, g: Geometry, sect: nat)
    requires g.Valid() && g.database <= sect && sect in disk
    requires (winsect != 0 && winsect in disk ==> win == disk[winsect])
    ensures sect in View(disk, win, winsect, g) && View(disk, win, sect, g) == View(disk, win, winsect, g)[sect := win]
  {
  }

  /** Sector i of a buffer. */
  function Chunk(bytes: seq<Byte>, i: nat): Sector
    requires 512 * i + 512 <= |bytes|
  {
    bytes[512 * i..512 * i + 512]
  }

  function SectorsPut(d: Disk, sect: nat, cc: nat, bytes: seq<Byte>): Disk
    requires |bytes| == 512 * cc
  {
    map s | s in d :: if sect <= s < sect + cc then Chunk(bytes, s - sect) else d[s]
  }

  /** The sector with some bytes replaced, from offset o on. */
  function Patched(s: Sector, o: nat, bytes: seq<Byte>): Sector
    requires o + |bytes| <= 512
  {
    s[..o] + bytes + s[o + |bytes|..]
  }

  lemma DataCopies(g: Geometry, disk: Disk, sect: nat, cc: nat, bytes: seq<Byte>)
    requires g.Valid() && DataSectors(g, sect, cc) && |bytes| == 512 * cc && SameCopies(disk, g)
    ensures SameCopies(SectorsPut(disk, sect, cc, bytes), g)
  {
    forall s, c | g.fatbase <= s < g.fatbase + g.sectsFat && 0 <= c < g.nFats && s in disk && CopyOf(g, s, c) in disk
      ensures SectorsPut(disk, sect, cc, bytes)[CopyOf(g, s, c)] == SectorsPut(disk, sect, cc, bytes)[s]
    {
      CopyFacts(g, s, c);
      CopyFacts(g, s, 0);
    }
  }

  /** What stretching the chain that ends with clst does to the table, and what its result says. */
  ghost predicate ChainCreated(g: Geometry, f: Table, f': Table, clst: nat, r: nat) {
    if clst != 0 && (clst !in f || f[clst] < 2) then r == 1 && f' == f
    else if clst != 0 && f[clst] < g.maxClust then r == f[clst] && f' == f
    else
      && (r == 0 ==> f' == f && FreeClusters(f) == {})
      && (r == 1 ==> f' == f && exists c :: c in f && f[c] == 1)
      && (r >= 2 ==> r in FreeClusters(f))
      && (r >= 2 ==> f' == if clst == 0 then f[r := g.EndMark()] else f[r := g.EndMark()][clst := r])
  }

  /** The scan has come to entry e: i bytes of the window are left, from offset p on; sect is next. */
  ghost predicate Scanning(g: Geometry, e: nat, sect: nat, i: nat, p: nat, winsect: nat) {
    var pos := g.Offset(e);
    && i <= 512 && i % (if g.fatType == Fat16 then 2 else 4) == 0
    && if i == 0 then pos % 512 == 0 && sect == g.fatbase + pos / 512
       else winsect + 1 == sect && winsect == g.fatbase + pos / 512 && p == pos % 512 && p + i == 512
  }

  lemma ScanBegins(g: Geometry, winsect: nat)
    ensures Scanning(g, 0, g.fatbase, 0, 0, winsect)
  {
  }

  lemma ScanStep(g: Geometry, e: nat, sect: nat, i: nat, p: nat, winsect: nat)
    requires g.Valid() && e < g.maxClust && Scanning(g, e, sect, i, p, winsect) && g.fatType != Fat12
    ensures i == 0 ==> 0 < sect < g.total && !g.Mirrored(sect)
    ensures var w, j, q := if i == 0 then sect else winsect, if i == 0 then 512 else i, if i == 0 then 0 else p;
      var size := if g.fatType == Fat16 then 2 else 4; var next := if i == 0 then sect + 1 else sect;
      && w == g.fatbase + g.Offset(e) / 512 && q == g.Offset(e) % 512 && size <= j
      && Scanning(g, e + 1, next, j - size, q + size, w)
  {
    EntryInTable(g, e);
    TableSector(g, g.Offset(e));
    var size := if g.fatType == Fat16 then 2 else 4;
    OffsetStep(g, e, size);
    hide Geometry.Offset, Geometry.Mirrored, Geometry.Valid;
    NextEntry(size, g.Offset(e));
  }

  lemma OffsetStep(g: Geometry, e: nat, size: nat)
    requires (g.fatType == Fat16 && size == 2) || (g.fatType == Fat32 && size == 4)
    ensures g.Offset(e + 1) == g.Offset(e) + size && (if size == 2 then g.Offset(e) % 2 == 0 else g.Offset(e) % 4 == 0)
  {
  }

  /** The number of entries from lo up to hi that are zero. */
  ghost function ZerosFrom(d: Disk, g: Geometry, lo: nat, hi: nat): nat {
    if hi <= lo then 0 else ZerosFrom(d, g, lo, hi - 1) + (if Entry(d, g, hi - 1) == 0 then 1 else 0)
  }

  lemma ZerosNone(d: Disk, g: Geometry, lo: nat)
    ensures ZerosFrom(d, g, lo, lo) == 0
  {
  }

  lemma OneMoreEntry(d: Disk, g: Geometry, lo: nat, e: nat)
    requires lo <= e
    ensures ZerosFrom(d, g, lo, e + 1) == ZerosFrom(d, g, lo, e) + (if Entry(d, g, e) == 0 then 1 else 0)
  {
  }

  lemma NextEntry(size: nat, pos: nat)
    requires (size == 2 && pos % 2 == 0) || (size == 4 && pos % 4 == 0)
    ensures pos % 512 + size <= 512 && (512 - pos % 512 - size) % size == 0
    ensures if pos % 512 + size == 512 then (pos + size) % 512 == 0 && (pos + size) / 512 == pos / 512 + 1
            else (pos + size) % 512 == pos % 512 + size && (pos + size) / 512 == pos / 512
  {
    if size == 2 {
      NextEntry2(pos);
    } else {
      NextEntry4(pos);
    }
  }

  lemma NextEntry2(pos: nat)
    requires pos % 2 == 0
    ensures pos % 512 + 2 <= 512 && (512 - pos % 512 - 2) % 2 == 0
    ensures if pos % 512 + 2 == 512 then (pos + 2) % 512 == 0 && (pos + 2) / 512 == pos / 512 + 1
            else (pos + 2) % 512 == pos % 512 + 2 && (pos + 2) / 512 == pos / 512
  {
    var j := pos / 2;
    var a, b := j / 256, j % 256;
    assert pos == 2 * j == 512 * a + 2 * b;
    InBlock(a, 2 * b);
    if b == 255 {
      InBlock(a + 1, 0);
    } else {
      InBlock(a, 2 * b + 2);
    }
  }

  lemma NextEntry4(pos: nat)
    requires pos % 4 == 0
    ensures pos % 512 + 4 <= 512 && (512 - pos % 512 - 4) % 4 == 0
    ensures if pos % 512 + 4 == 512 then (pos + 4) % 512 == 0 && (pos + 4) / 512 == pos / 512 + 1
            else (pos + 4) % 512 == pos % 512 + 4 && (pos + 4) / 512 == pos / 512
  {
    var j := pos / 4;
    var a, b := j / 128, j % 128;
    assert pos == 4 * j == 512 * a + 4 * b;
    InBlock(a, 4 * b);
    if b == 127 {
      InBlock(a + 1, 0);
    } else {
      InBlock(a, 4 * b + 4);
    }
  }

  /** Counting entries one by one gives the number of free clusters, and the reserved entries. */
  lemma {:induction false} ZerosAreFree(d: Disk, g: Geometry, n: nat)
    requires 2 <= n
    ensures ZerosFrom(d, g, 2, n) == |FreeClusters(map c | 2 <= c < n :: Entry(d, g, c))|
    ensures ZerosFrom(d, g, 0, n) ==
      ZerosFrom(d, g, 2, n) + (if Entry(d, g, 0) == 0 then 1 else 0) + (if Entry(d, g, 1) == 0 then 1 else 0)
  {
    hide Entry;
    var f := map c | 2 <= c < n :: Entry(d, g, c);
    if n == 2 {
      assert FreeClusters(f) == {};
      OneMoreEntry(d, g, 0, 0);
      OneMoreEntry(d, g, 0, 1);
    } else {
      ZerosAreFree(d, g, n - 1);
      var f' := map c | 2 <= c < n - 1 :: Entry(d, g, c);
      assert FreeClusters(f) == FreeClusters(f') + if Entry(d, g, n - 1) == 0 then {n - 1} else {};
    }
  }

  const UNKNOWN := 0xFFFF_FFFF

  /** One step of removing a chain. */
  lemma RemovedStep(f: Table, max: nat, c: nat)
    requires TableOf(f, max)
    ensures c >= max || (c in f && f[c] <= 1) ==> Removed(f, max, c) == f
    ensures c >= max || (c in f && f[c] == 0) ==> !MeetsError(f, max, c)
    ensures c in f && f[c] == 1 ==> MeetsError(f, max, c)
    ensures c in f && f[c] >= 2 ==>
      Removed(f, max, c) == Removed(f[c := 0], max, f[c]) && MeetsError(f, max, c) == MeetsError(f[c := 0], max, f[c])
  {
  }

  lemma FreedOne(f: Table, c: nat)
    requires c in f && f[c] != 0
    ensures |FreeClusters(f[c := 0])| == |FreeClusters(f)| + 1 && UsedClusters(f[c := 0]) == UsedClusters(f) - {c}
    ensures c in UsedClusters(f)
  {
    assert FreeClusters(f[c := 0]) == FreeClusters(f) + {c};
  }

  /** The sectors outside of the table are the same. */
  ghost predicate SameOutside(d: Disk, d': Disk, g: Geometry) {
    d'.Keys == d.Keys && forall s :: s in d && !(g.fatbase <= s < g.fatbase + g.sectsFat) ==> d'[s] == d[s]
  }

  lemma OutsideSelf(d: Disk, g: Geometry)
    ensures SameOutside(d, d, g)
  {
  }

  lemma OutsideTwice(d: Disk, d': Disk, d'': Disk, g: Geometry)
    requires SameOutside(d, d', g) && SameOutside(d', d'', g)
    ensures SameOutside(d, d'', g)
  {
  }

  /** Storing a byte in the window changes that byte of the table. */
  lemma ByteStored(win: Sector, winsect: nat, disk: Disk, g: Geometry, k: nat, b: Byte)
    requires g.Valid() && k < g.sectsFat * 512 && winsect == g.fatbase + k / 512 && winsect in disk
    ensures var d, d' := View(disk, win, winsect, g), View(disk, win[k % 512 := b], winsect, g);
      forall i :: TableByte(d', g, i) == if i == k then b else TableByte(d, g, i)
  {
    TableSector(g, k);
    forall i: nat ensures i / 512 == k / 512 && i % 512 == k % 512 ==> i == k {
    }
  }

  lemma StoredOutside(win: Sector, winsect: nat, disk: Disk, g: Geometry, k: nat, b: Byte)
    requires g.Valid() && k < g.sectsFat * 512 && winsect == g.fatbase + k / 512
    ensures SameOutside(View(disk, win, winsect, g), View(disk, win[k % 512 := b], winsect, g), g)
  {
  }

  lemma Put12(d: Disk, d': Disk, d'': Disk, g: Geometry, c: nat, val: nat)
    requires g.fatType == Fat12
    requires var k := g.Offset(c); var b := Low12(c, val, TableByte(d, g, k));
      forall i :: TableByte(d', g, i) == if i == k then b else TableByte(d, g, i)
    requires var k := g.Offset(c) + 1; var b := High12(c, val, TableByte(d', g, k));
      forall i :: TableByte(d'', g, i) == if i == k then b else TableByte(d', g, i)
    ensures forall i :: TableByte(d'', g, i) == PutByte(d, g, c, val, i)
  {
    hide TableByte, Low12, High12;
  }

  function StoreWord(b: Sector, k: nat, val: nat): Sector
    requires k + 1 < 512
  {
    b[k := ValueByte(val, 0)][k + 1 := ValueByte(val, 1)]
  }

  function StoreDword(b: Sector, k: nat, val: nat): Sector
    requires k + 3 < 512
  {
    b[k := ValueByte(val, 0)][k + 1 := ValueByte(val, 1)][k + 2 := ValueByte(val, 2)][k + 3 := ValueByte(val, 3)]
  }

  lemma StoredWord(win: Sector, winsect: nat, disk: Disk, g: Geometry, c: nat, val: nat)
    requires g.Valid() && c < g.maxClust && winsect == g.fatbase + c / 256 && winsect in disk && g.fatType == Fat16
    ensures c % 0x1_0000 * 2 % 512 + 1 < 512
    ensures var d := View(disk, win, winsect, g);
      var d' := View(disk, StoreWord(win, c % 0x1_0000 * 2 % 512, val), winsect, g);
      SameOutside(d, d', g) && forall i :: TableByte(d', g, i) == PutByte(d, g, c, val, i)
  {
    hide TableByte, View, ValueByte, SameOutside;
    Offset16(c);
    EntryInTable(g, c);
    var k, v0, v1 := 2 * c % 512, ValueByte(val, 0), ValueByte(val, 1);
    var win1 := win[k := v0];
    ByteStored(win, winsect, disk, g, 2 * c, v0);
    ByteStored(win1, winsect, disk, g, 2 * c + 1, v1);
    StoredOutside(win, winsect, disk, g, 2 * c, v0);
    StoredOutside(win1, winsect, disk, g, 2 * c + 1, v1);
    OutsideTwice(View(disk, win, winsect, g), View(disk, win1, winsect, g), View(disk, win1[k + 1 := v1], winsect, g),
                 g);
  }

  lemma StoredDword(win: Sector, winsect: nat, disk: Disk, g: Geometry, c: nat, val: nat)
    requires g.Valid() && c < g.maxClust && winsect == g.fatbase + c / 128 && winsect in disk && g.fatType == Fat32
    ensures c % 0x1_0000 * 4 % 512 + 3 < 512
    ensures var d := View(disk, win, winsect, g);
      var d' := View(disk, StoreDword(win, c % 0x1_0000 * 4 % 512, val), winsect, g);
      SameOutside(d, d', g) && forall i :: TableByte(d', g, i) == PutByte(d, g, c, val, i)
  {
    hide TableByte, View, ValueByte, SameOutside;
    Offset32(c);
    EntryInTable(g, c);
    var k := 4 * c % 512;
    var w0 := win;
    var w1 := w0[k := ValueByte(val, 0)];
    var w2 := w1[k + 1 := ValueByte(val, 1)];
    var w3 := w2[k + 2 := ValueByte(val, 2)];
    var w4 := w3[k + 3 := ValueByte(val, 3)];
    ByteStored(w0, winsect, disk, g, 4 * c, ValueByte(val, 0));
    ByteStored(w1, winsect, disk, g, 4 * c + 1, ValueByte(val, 1));
    ByteStored(w2, winsect, disk, g, 4 * c + 2, ValueByte(val, 2));
    ByteStored(w3, winsect, disk, g, 4 * c + 3, ValueByte(val, 3));
    StoredOutside(w0, winsect, disk, g, 4 * c, ValueByte(val, 0));
    StoredOutside(w1, winsect, disk, g, 4 * c + 1, ValueByte(val, 1));
    StoredOutside(w2, winsect, disk, g, 4 * c + 2, ValueByte(val, 2));
    StoredOutside(w3, winsect, disk, g, 4 * c + 3, ValueByte(val, 3));
    var d0, d1, d2 := View(disk, w0, winsect, g), View(disk, w1, winsect, g), View(disk, w2, winsect, g);
    var d3, d4 := View(disk, w3, winsect, g), View(disk, w4, winsect, g);
    OutsideTwice(d0, d1, d2, g);
    OutsideTwice(d0, d2, d3, g);
    OutsideTwice(d0, d3, d4, g);
  }

  lemma EntryBytes(d: Disk, g: Geometry, c: nat)
    ensures g.fatType == Fat12 ==>
      var wc := TableByte(d, g, g.Offset(c)) + 0x100 * TableByte(d, g, g.Offset(c) + 1);
      Entry(d, g, c) == if c % 2 == 1 then wc / 0x10 else wc % 0x1000
  {
  }

  lemma TableSector(g: Geometry, k: nat)
    requires g.Valid() && k < g.sectsFat * 512
    ensures g.fatbase <= g.fatbase + k / 512 < g.fatbase + g.sectsFat && g.fatbase + k / 512 < g.total
    ensures !g.Mirrored(g.fatbase + k / 512)
  {
    CopyFacts(g, g.fatbase + k / 512, 0);
  }

  lemma EntryInTable(g: Geometry, c: nat)
    requires g.Valid() && c < g.maxClust
    ensures g.Offset(c) + (if g.fatType.Fat32? then 3 else 1) < g.sectsFat * 512
  {
  }

  function LoadWord(b: Sector, k: nat): nat
    requires k + 1 < 512
  {
    var b0: nat, b1: nat := b[k], b[k + 1];
    b0 + 0x100 * b1
  }

  function LoadDword(b: Sector, k: nat): nat
    requires k + 3 < 512
  {
    var b0: nat, b1: nat, b2: nat, b3: nat := b[k], b[k + 1], b[k + 2], b[k + 3];
    b0 + 0x100 * b1 + 0x1_0000 * b2 + 0x100_0000 * b3
  }

  lemma Offset16(c: nat)
    ensures 2 * c / 512 == c / 256 == (2 * c + 1) / 512
    ensures 2 * c % 512 == c % 0x1_0000 * 2 % 512 && (2 * c + 1) % 512 == c % 0x1_0000 * 2 % 512 + 1 < 512
  {
  }

  lemma Offset32(c: nat)
    ensures 4 * c / 512 == c / 128 == (4 * c + 1) / 512 == (4 * c + 2) / 512 == (4 * c + 3) / 512
    ensures var k := c % 0x1_0000 * 4 % 512;
      4 * c % 512 == k && (4 * c + 1) % 512 == k + 1 && (4 * c + 2) % 512 == k + 2 && (4 * c + 3) % 512 == k + 3 < 512
  {
    LowPart(c);
    var q, k := c / 128, c % 128;
    assert c == 128 * q + k;
    InBlock(q, 4 * k);
    InBlock(q, 4 * k + 1);
    InBlock(q, 4 * k + 2);
    InBlock(q, 4 * k + 3);
  }

  lemma LowPart(c: nat)
    ensures c % 0x1_0000 * 4 % 512 == 4 * (c % 128)
  {
    var q, r := c / 0x1_0000, c % 0x1_0000;
    assert c == 128 * (512 * q) + r;
    InBlock(r / 128, 4 * (r % 128));
  }

  lemma InBlock(q: nat, k: nat)
    requires k < 512
    ensures (512 * q + k) / 512 == q && (512 * q + k) % 512 == k
  {
  }

  /** A byte of the table that the window holds. */
  lemma WindowByte(win: Sector, winsect: nat, disk: Disk, g: Geometry, k: nat)
    requires g.Valid() && k < g.sectsFat * 512 && winsect == g.fatbase + k / 512 && winsect in disk
    ensures TableByte(View(disk, win, winsect, g), g, k) == win[k % 512]
  {
    TableSector(g, k);
  }

  lemma WindowEntry16(win: Sector, winsect: nat, disk: Disk, g: Geometry, c: nat)
    requires g.Valid() && c < g.maxClust && winsect == g.fatbase + c / 256 && winsect in disk && g.fatType == Fat16
    ensures c % 0x1_0000 * 2 % 512 + 1 < 512
    ensures Entry(View(disk, win, winsect, g), g, c) == LoadWord(win, c % 0x1_0000 * 2 % 512)
  {
    hide TableByte, View;
    Offset16(c);
    EntryInTable(g, c);
    WindowByte(win, winsect, disk, g, 2 * c);
    WindowByte(win, winsect, disk, g, 2 * c + 1);
  }

  lemma WindowEntry32(win: Sector, winsect: nat, disk: Disk, g: Geometry, c: nat)
    requires g.Valid() && c < g.maxClust && winsect == g.fatbase + c / 128 && winsect in disk && g.fatType == Fat32
    ensures c % 0x1_0000 * 4 % 512 + 3 < 512
    ensures Entry(View(disk, win, winsect, g), g, c) == LoadDword(win, c % 0x1_0000 * 4 % 512) % 0x1000_0000
  {
    hide TableByte, View;
    Offset32(c);
    EntryInTable(g, c);
    WindowByte(win, winsect, disk, g, 4 * c);
    WindowByte(win, winsect, disk, g, 4 * c + 1);
    WindowByte(win, winsect, disk, g, 4 * c + 2);
    WindowByte(win, winsect, disk, g, 4 * c + 3);
  }

  const NO_BYTES: Sector := seq(512, i => 0)

  /** A volume on a disk of nothing but zeroes: all clusters are free. */
  method BlankVolume(g: Geometry) returns (v: Volume)
    requires g.Valid()
    ensures fresh(v) && v.Coherent() && v.g == g && Allocation(v.Clusters(), g.maxClust, {})
    ensures forall c :: 2 <= c < g.maxClust ==> v.Fat(c) == 0
  {
    var disk: Disk := map[];
    for n := 0 to g.total
      invariant forall s: nat :: s in disk <==> s < n
      invariant forall s :: s in disk ==> disk[s] == NO_BYTES
    {
      disk := disk[n := NO_BYTES];
    }
    v := new Volume(g, disk);
    BlankEntries(v.Sectors(), g);
  }

  lemma BlankEntries(d: Disk, g: Geometry)
    requires forall s :: s in d ==> d[s] == NO_BYTES
    ensures forall c: nat :: Entry(d, g, c) == 0
  {
    forall c: nat ensures Entry(d, g, c) == 0 {
      forall k: nat ensures TableByte(d, g, k) == 0 {
      }
    }
  }

  /** There are volumes: this one, for example, has eight clusters of one sector, and two copies of its table. */
  method SmallVolume() returns (v: Volume)
    ensures fresh(v) && v.Coherent() && Allocation(v.Clusters(), 10, {}) && forall c :: 2 <= c < 10 ==> v.Fat(c) == 0
  {
    hide Volume.Coherent, Allocation, TableIn, Volume.Fat, Volume.Clusters;
    v := BlankVolume(Geometry(Fat12, 1, 1, 2, 3, 1, 10, 11));
  }
}
