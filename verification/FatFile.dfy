/** An open file: a byte sequence with a position, on clusters of a FAT volume. */
module FatFile {
  import opened Bytes
  import opened FatEntries
  import opened FatChains
  import opened FatVolume
  import opened FatContent

  /** The file is at sector j: the current cluster is the one of that sector, csect its number in the
      cluster. */
  ghost predicate AtSector(g: Geometry, chain: seq<nat>, j: nat, curr: nat, csect: nat)
    requires g.csize > 0
  {
    j < Capacity(g, chain) && j / g.csize < |chain| && curr == chain[j / g.csize] && csect == j % g.csize
  }

  /** The position fields belong to position fptr: the current cluster is that of the last byte before
      it, csect the number of sectors of that cluster up to there, and inside of a sector, dsect is
      that sector. */
  ghost predicate Positioned(g: Geometry, chain: seq<nat>, fptr: nat, curr: nat, csect: nat, dsect: nat)
    requires g.csize > 0
  {
    && fptr <= 512 * Capacity(g, chain)
    && (fptr == 0 ==> csect >= g.csize)
    && (fptr > 0 ==>
          var j := (fptr - 1) / 512;
          j / g.csize < |chain| && curr == chain[j / g.csize] && csect == j % g.csize + 1)
    && (fptr % 512 != 0 ==> dsect == FileSector(g, chain, fptr / 512))
  }

  lemma SameBlock(j: nat, i: nat, n: nat)
    requires 0 < n && j % n + i < n
    ensures (j + i) / n == j / n && (j + i) % n == j % n + i
  {
    var a, r := j / n, j % n;
    assert j == n * a + r;
    Divided(a, n, r + i);
  }

  lemma Successor(j: nat, n: nat)
    requires 0 < n
    ensures if j % n + 1 < n then (j + 1) / n == j / n && (j + 1) % n == j % n + 1
            else (j + 1) / n == j / n + 1 && (j + 1) % n == 0
  {
    var a, r := j / n, j % n;
    assert j == n * a + r;
    if r + 1 < n {
      SameBlock(j, 1, n);
    } else {
      Times(a, 0, n);
      Divided(a + 1, n, 0);
    }
  }

  /** On a sector boundary: the next sector begins a cluster, or it is in the current one. */
  lemma Boundary(g: Geometry, chain: seq<nat>, fptr: nat, curr: nat, csect: nat, dsect: nat)
    requires g.Valid() && Positioned(g, chain, fptr, curr, csect, dsect) && fptr % 512 == 0
    ensures g.csize > 0
    ensures var j := fptr / 512;
      && (csect >= g.csize ==> j % g.csize == 0)
      && (csect >= g.csize && fptr > 0 ==> 0 < j / g.csize <= |chain| && curr == chain[j / g.csize - 1])
      && (csect >= g.csize && fptr == 0 ==> j == 0 && j / g.csize == 0)
      && (csect < g.csize ==> AtSector(g, chain, j, curr, csect))
  {
    TableBeforeData(g);
    if fptr > 0 {
      var j := fptr / 512;
      assert (fptr - 1) / 512 == j - 1;
      Successor(j - 1, g.csize);
      ClusterOfSector(g, chain, j);
    } else {
      assert 0 / g.csize == 0 && 0 % g.csize == 0;
    }
  }

  /** After a part of sector j up to offset o. */
  lemma AfterPart(g: Geometry, chain: seq<nat>, j: nat, o: nat, curr: nat, csect: nat)
    requires g.Valid() && g.csize > 0 && AtSector(g, chain, j, curr, csect) && 0 < o <= 512
    ensures Positioned(g, chain, 512 * j + o, curr, csect + 1, FileSector(g, chain, j))
  {
    SectorOfByte(512 * j + o - 1, j);
    if o < 512 {
      SectorOfByte(512 * j + o, j);
    } else {
      SectorOfByte(512 * j + o, j + 1);
    }
  }

  /** After cc whole sectors from sector j on, in one cluster. */
  lemma AfterSectors(g: Geometry, chain: seq<nat>, j: nat, cc: nat, curr: nat, csect: nat, dsect: nat)
    requires g.Valid() && g.csize > 0 && AtSector(g, chain, j, curr, csect) && 0 < cc && csect + cc <= g.csize
    ensures Positioned(g, chain, 512 * (j + cc), curr, csect + cc, dsect)
  {
    SectorOfByte(512 * (j + cc) - 1, j + cc - 1);
    SectorOfByte(512 * (j + cc), j + cc);
    SameBlock(j, cc - 1, g.csize);
    ClusterOfSector(g, chain, j + cc - 1);
  }

  /** In the middle of a sector, that sector is the current one. */
  lemma Inside(g: Geometry, chain: seq<nat>, fptr: nat, curr: nat, csect: nat, dsect: nat)
    requires g.Valid() && g.csize > 0 && Positioned(g, chain, fptr, curr, csect, dsect) && fptr % 512 != 0
    ensures var j := fptr / 512; 0 < csect && AtSector(g, chain, j, curr, csect - 1) && dsect == FileSector(g, chain, j)
    ensures fptr == 512 * (fptr / 512) + fptr % 512
  {
    var j := fptr / 512;
    SectorOfByte(fptr - 1, j);
    ClusterOfSector(g, chain, j);
  }

  /** What the table says of the chain of a file. */
  lemma ChainFacts(g: Geometry, f: Table, chains: set<seq<nat>>, chain: seq<nat>)
    requires Allocation(f, g.maxClust, chains) && chain in chains
    ensures Clusters(g, chain) && chain != [] && IsChain(f, g.maxClust, chain)
    ensures forall i :: 0 <= i < |chain| ==> chain[i] in f && 2 <= f[chain[i]]
    ensures forall i :: 0 < i < |chain| ==> f[chain[i - 1]] == chain[i]
    ensures f[chain[|chain| - 1]] >= g.maxClust
  {
    ChainIsUsed(f, g.maxClust, chain);
  }

  datatype FileResult = Success | InternalError | Denied

  function Least(a: nat, b: nat): nat {
    if a <= b then a else b
  }

  lemma SectorInCluster(g: Geometry, chain: seq<nat>, j: nat, curr: nat, csect: nat)
    requires g.Valid() && g.csize > 0 && AtSector(g, chain, j, curr, csect)
    ensures csect == j % g.csize < g.csize && j < Capacity(g, chain)
  {
  }

  /** Asking for the cluster behind the first i of a file: it is the next one, if there is one, and
      otherwise a free cluster is appended, or there is none. */
  lemma ChainStretched(g: Geometry, f: Table, f': Table, chain: seq<nat>, others: set<seq<nat>>, clst: nat, i: nat,
                       r: nat)
    requires g.Valid() && Allocation(f, g.maxClust, WithOthers(chain, others)) && (chain == [] || chain !in others)
    requires ChainCreated(g, f, f', clst, r) && i <= |chain|
    requires if i == 0 then chain == [] && clst == 0 else clst == chain[i - 1]
    ensures r != 1 && (r == 0 ==> f' == f && FreeClusters(f) == {})
    ensures i < |chain| ==> r == chain[i] && f' == f && r != 0
    ensures r != 0 && i == |chain| ==>
      && Allocation(f', g.maxClust, WithOthers(chain + [r], others)) && chain + [r] !in others && r in FreeClusters(f)
  {
    hide Geometry.Valid, FreeClusters, Members;
    EndAbove(g);
    NoErrors(f, g.maxClust, WithOthers(chain, others));
    if chain != [] {
      ChainFacts(g, f, WithOthers(chain, others), chain);
    }
    if r >= 2 && i == |chain| {
      FreeOfChains(f, g.maxClust, WithOthers(chain, others), r);
      LastOf(chain + [r]);
      if chain == [] {
        AllocationCreated(f, g.maxClust, others, r, g.EndMark());
        assert chain + [r] == [r];
      } else {
        AllocationStretched(f, g.maxClust, others + {chain}, chain, r, g.EndMark());
        assert others + {chain} - {chain} + {chain + [r]} == others + {chain + [r]};
      }
    }
  }

  lemma LastOf(s: seq<nat>)
    requires s != []
    ensures s[|s| - 1] in Members(s)
  {
  }

  lemma EndAbove(g: Geometry)
    requires g.Valid()
    ensures 2 < g.maxClust <= g.EndMark()
  {
  }

  lemma NoErrors(f: Table, max: nat, chains: set<seq<nat>>)
    requires Allocation(f, max, chains)
    ensures forall c :: c in f ==> f[c] != 1 && 2 <= c
  {
    forall c | c in f ensures f[c] != 1 {
      if f[c] != 0 {
        var s :| s in chains && c in Members(s);
        ChainIsUsed(f, max, s);
      }
    }
  }

  lemma PutOutside(d: Disk, g: Geometry, sect: nat, cc: nat, bytes: seq<Byte>)
    requires g.Valid() && DataSectors(g, sect, cc) && |bytes| == 512 * cc
    ensures TableIn(SectorsPut(d, sect, cc, bytes), g) == TableIn(d, g)
  {
    TableKept(d, SectorsPut(d, sect, cc, bytes), g);
  }

  /** Changing a sector of the data area does not change the table. */
  lemma OneOutside(d: Disk, g: Geometry, sect: nat, s: Sector)
    requires g.Valid() && DataSectors(g, sect, 1) && sect in d
    ensures TableIn(d[sect := s], g) == TableIn(d, g)
  {
    TableKept(d, d[sect := s], g);
  }

  lemma Joined(s: seq<Byte>, a: nat, b: nat, c: nat)
    requires a <= b <= c <= |s|
    ensures s[a..b] + s[b..c] == s[a..c]
  {
  }

  lemma NothingWritten(data: seq<Byte>, p: nat)
    requires p <= |data|
    ensures Overwritten(data, p, []) == data
  {
  }

  /** Writing b behind a is writing both. */
  lemma WrittenTwice(data: seq<Byte>, p: nat, buff: seq<Byte>, m: nat, n: nat)
    requires p <= |data| && m + n <= |buff|
    ensures p + m <= |Overwritten(data, p, buff[..m])|
    ensures Overwritten(Overwritten(data, p, buff[..m]), p + m, buff[m..][..n]) == Overwritten(data, p, buff[..m + n])
  {
    assert buff[..m + n] == buff[..m] + buff[m..][..n];
  }

  lemma KeptLonger(d: Disk, d': Disk, d'': Disk, g: Geometry, chain: seq<nat>, chain': seq<nat>)
    requires g.csize > 0 && chain <= chain' && OthersKept(d, d', g, chain) && OthersKept(d', d'', g, chain')
    ensures OthersKept(d, d'', g, chain')
  {
    OthersKeptLonger(d, d', g, chain, chain');
    OthersKeptTwice(d, d', d'', g, chain');
  }

  /** Where the sector of the file is, that the position fields tell. */
  lemma SectorAt(g: Geometry, chain: seq<nat>, j: nat, curr: nat, csect: nat)
    requires g.Valid() && g.csize > 0 && Clusters(g, chain) && AtSector(g, chain, j, curr, csect)
    ensures 2 <= curr < g.maxClust && 0 < g.database
    ensures (curr - 2) * g.csize + g.database + csect == FileSector(g, chain, j)
  {
    FileSectorInData(g, chain, j);
  }

  /** At the start of cluster i of a file. */
  lemma AtCluster(g: Geometry, chain: seq<nat>, j: nat, i: nat, c: nat)
    requires g.Valid() && g.csize > 0 && i < |chain| && j % g.csize == 0 && i == j / g.csize && c == chain[i]
    ensures AtSector(g, chain, j, c, 0)
  {
    ClusterOfSector(g, chain, j);
  }

  /** At the end of the last cluster. */
  lemma AtEnd(g: Geometry, chain: seq<nat>, fptr: nat)
    requires g.Valid() && g.csize > 0 && fptr % 512 == 0 && fptr / 512 % g.csize == 0 && |chain| == fptr / 512 / g.csize
    ensures fptr == 512 * Capacity(g, chain)
  {
    ClusterOfSector(g, chain, fptr / 512);
  }

  /** The first n bytes of a file stay when its chain grows. */
  lemma BytesStay(d: Disk, d': Disk, g: Geometry, chain: seq<nat>, chain': seq<nat>, n: nat)
    requires g.Valid() && g.csize > 0 && Clusters(g, chain) && SameOutside(d, d', g) && n <= 512 * Capacity(g, chain)
    requires chain <= chain'
    ensures Content(d', g, chain', n) == Content(d, g, chain, n) && n <= 512 * Capacity(g, chain')
  {
    ContentOutside(d, d', g, chain, n);
    ContentPrefix(d', g, chain, chain', n);
    Times(|chain|, |chain'|, g.csize);
  }

  lemma DividedTwice(x: nat, n: nat)
    requires 0 < n
    ensures 512 * n > 0 && x / 512 / n == x / (512 * n)
  {
    var q, r := x / 512, x % 512;
    var a, s := q / n, q % n;
    assert q == n * a + s;
    assert x == 512 * (n * a) + (512 * s + r);
    Reordered(a, n);
    Divided(a, 512 * n, 512 * s + r);
  }

  lemma Reordered(a: nat, n: nat)
    ensures a * (512 * n) == 512 * (n * a) == 512 * (a * n)
  {
  }

  /** Seeking from the cluster of the position on: that is cluster a of the file, and the new position is
      not before its start. */
  lemma FromCurrent(g: Geometry, chain: seq<nat>, fptr: nat, curr: nat, csect: nat, dsect: nat, ofs: nat)
    requires g.Valid() && g.csize > 0 && Positioned(g, chain, fptr, curr, csect, dsect) && fptr > 0 && ofs > 0
    requires 512 * g.csize > 0 && (ofs - 1) / (512 * g.csize) >= (fptr - 1) / (512 * g.csize)
    ensures var a := (fptr - 1) / (512 * g.csize);
      a < |chain| && curr == chain[a] && a * (512 * g.csize) == ClusterStart(g, a) < ofs
  {
    DividedTwice(fptr - 1, g.csize);
    Multiples(ofs - 1, (fptr - 1) / (512 * g.csize), 512 * g.csize);
    Reordered((fptr - 1) / (512 * g.csize), g.csize);
  }

  lemma Multiples(x: nat, a: nat, n: nat)
    requires 0 < n && a <= x / n
    ensures a * n <= x
  {
    var q := x / n;
    assert x == n * q + x % n;
    Times(a, q, n);
  }

  /** The position where cluster i of a file begins. */
  function ClusterStart(g: Geometry, i: nat): nat {
    512 * (i * g.csize)
  }

  lemma SectorIn(g: Geometry, chain: seq<nat>, i: nat, r: nat)
    requires g.csize > 0 && i < |chain| && r < g.csize
    ensures AtSector(g, chain, i * g.csize + r, chain[i], r)
  {
    Divided(i, g.csize, r);
    ClusterOfSector(g, chain, i * g.csize + r);
  }

  /** The position at offset ofs of cluster i. */
  lemma SeekPosition(g: Geometry, chain: seq<nat>, i: nat, ofs: nat, csect: nat, dsect: nat)
    requires g.Valid() && g.csize > 0 && Clusters(g, chain) && i < |chain| && 0 < ofs <= 512 * g.csize
    requires csect == ofs / 512 + (if ofs % 512 != 0 then 1 else 0)
    requires ofs % 512 != 0 ==> dsect == (chain[i] - 2) * g.csize + g.database + ofs / 512
    ensures Positioned(g, chain, ClusterStart(g, i) + ofs, chain[i], csect, dsect)
  {
    hide Positioned, AtSector, FileSector, Geometry.Valid, Capacity, Clusters;
    var b, q, o := i * g.csize, ofs / 512, ofs % 512;
    if o == 0 {
      SectorIn(g, chain, i, 0);
      AfterSectors(g, chain, b, q, chain[i], 0, dsect);
    } else {
      SectorIn(g, chain, i, q);
      SectorAt(g, chain, b + q, chain[i], q);
      AfterPart(g, chain, b + q, o, chain[i], q);
    }
  }

  lemma EndOfLast(g: Geometry, chain: seq<nat>, i: nat)
    requires g.csize > 0 && i == |chain| - 1
    ensures ClusterStart(g, i) + 512 * g.csize == 512 * Capacity(g, chain)
  {
    Times(i, i, g.csize);
  }

  lemma CapacityGrows(g: Geometry, chain: seq<nat>, chain': seq<nat>)
    requires chain <= chain'
    ensures Capacity(g, chain) <= Capacity(g, chain')
  {
    Times(|chain|, |chain'|, g.csize);
  }

  lemma FirstStart(g: Geometry)
    ensures ClusterStart(g, 0) == 0
  {
  }

  lemma NoCapacity(g: Geometry, chain: seq<nat>)
    requires chain == []
    ensures Capacity(g, chain) == 0
  {
  }

  lemma AtStart(g: Geometry, chain: seq<nat>, curr: nat, dsect: nat)
    requires g.Valid() && g.csize > 0
    ensures Positioned(g, chain, 0, curr, 255, dsect)
  {
    Times(0, |chain|, g.csize);
  }

  /** The end of a cluster is the end of a sector. */
  lemma WholeCluster(left: nat, n: nat)
    ensures left == 512 * n ==> left % 512 == 0
  {
  }

  lemma InRange(g: Geometry, chain: seq<nat>, i: nat)
    requires g.Valid() && Clusters(g, chain) && i < |chain|
    ensures 2 <= chain[i] < g.maxClust && 0 < g.database && (chain[i] - 2) * g.csize >= 0
  {
    Times(0, chain[i] - 2, g.csize);
  }

  /** Between sectors it does not matter which sector was the last one used for a part. */
  lemma NoPart(g: Geometry, chain: seq<nat>, fptr: nat, curr: nat, csect: nat, dsect: nat, dsect': nat)
    requires g.csize > 0 && Positioned(g, chain, fptr, curr, csect, dsect)
    ensures fptr <= 512 * Capacity(g, chain)
    ensures fptr % 512 == 0 ==> Positioned(g, chain, fptr, curr, csect, dsect')
  {
  }

  lemma RoomInChain(g: Geometry, chain: seq<nat>, i: nat, ofs: nat)
    requires g.csize > 0 && ClusterStart(g, i) + ofs <= 512 * Capacity(g, chain) && ofs > 512 * g.csize
    ensures i + 1 < |chain|
  {
    Times(|chain|, i + 1, g.csize);
    Times(i, i, g.csize);
  }

  lemma NextStart(g: Geometry, i: nat)
    ensures ClusterStart(g, i) + 512 * g.csize == ClusterStart(g, i + 1)
  {
    Times(i, i, g.csize);
  }

  /** The number of clusters that n bytes take up. */
  function ClustersFor(g: Geometry, n: nat): nat
    requires g.csize > 0
  {
    if n == 0 then 0 else (n - 1) / 512 / g.csize + 1
  }

  lemma NoneFreed(chain: seq<nat>)
    ensures Members(chain[|chain|..]) == {}
  {
  }

  lemma HasClusters(g: Geometry, chain: seq<nat>, n: nat)
    requires 0 < n <= 512 * Capacity(g, chain)
    ensures chain != []
  {
    assert 0 * g.csize == 0;
  }

  /** The current cluster is the last one that the bytes before the position take up. */
  lemma CurrentCluster(g: Geometry, chain: seq<nat>, fptr: nat, curr: nat, csect: nat, dsect: nat)
    requires g.csize > 0 && Positioned(g, chain, fptr, curr, csect, dsect) && 0 < fptr
    ensures var n := ClustersFor(g, fptr); 0 < n <= |chain| && curr == chain[n - 1]
  {
  }

  /** The position fields stay right when only the clusters before the position are kept. */
  lemma StillPositioned(g: Geometry, chain: seq<nat>, n: nat, fptr: nat, curr: nat, csect: nat, dsect: nat)
    requires g.csize > 0 && Positioned(g, chain, fptr, curr, csect, dsect) && n == ClustersFor(g, fptr) <= |chain|
    ensures Positioned(g, chain[..n], fptr, curr, csect, dsect)
  {
    if fptr > 0 {
      var j := (fptr - 1) / 512;
      ClusterOfSector(g, chain[..n], j);
      if fptr % 512 != 0 {
        SectorOfByte(fptr, j);
      }
    }
  }

  /** The first bytes of a file stay when clusters behind them are removed. */
  lemma BytesStay2(d: Disk, d': Disk, g: Geometry, chain: seq<nat>, chain': seq<nat>, n: nat)
    requires g.Valid() && g.csize > 0 && Clusters(g, chain') && SameOutside(d, d', g) && n <= 512 * Capacity(g, chain')
    requires chain' <= chain
    ensures Content(d', g, chain', n) == Content(d, g, chain, n)
  {
    ContentOutside(d, d', g, chain', n);
    ContentPrefix(d, g, chain', chain, n);
  }

  /** Cutting the chain of a file off behind n clusters. */
  lemma CutChain(g: Geometry, f: Table, chain: seq<nat>, others: set<seq<nat>>, n: nat)
    requires g.Valid() && Allocation(f, g.maxClust, WithOthers(chain, others)) && chain !in others && 0 < n < |chain|
    ensures chain[n - 1] in f && chain[n] in f && 0x0FFF_FFFF % g.Values() == g.EndMark()
    ensures var f1 := f[chain[n - 1] := g.EndMark()]; var f' := Removed(f1, g.maxClust, chain[n]);
      && Allocation(f', g.maxClust, WithOthers(chain[..n], others)) && !MeetsError(f1, g.maxClust, chain[n])
      && FreeClusters(f') == FreeClusters(f) + Members(chain[n..]) && chain[..n] !in others
  {
    hide Allocation, Members, FreeClusters, Removed, MeetsError;
    EndAbove(g);
    AllocationCut(f, g.maxClust, WithOthers(chain, others), chain, n, g.EndMark());
    assert others + {chain} - {chain} + {chain[..n]} == WithOthers(chain[..n], others);
    PartIsNew(f, g.maxClust, chain, others, n);
  }

  /** What the entry of cluster n - 1 of a file tells. */
  lemma LinkAt(g: Geometry, f: Table, chain: seq<nat>, others: set<seq<nat>>, n: nat)
    requires g.Valid() && Allocation(f, g.maxClust, WithOthers(chain, others)) && 0 < n <= |chain|
    ensures chain[n - 1] in f && 2 <= chain[n - 1] < g.maxClust && f[chain[n - 1]] >= 2
    ensures if n < |chain| then f[chain[n - 1]] == chain[n] < g.maxClust else f[chain[n - 1]] >= g.maxClust
  {
    ChainFacts(g, f, WithOthers(chain, others), chain);
    if n < |chain| {
      assert f[chain[n - 1]] == chain[n];
    }
  }

  lemma PartIsNew(f: Table, max: nat, chain: seq<nat>, others: set<seq<nat>>, n: nat)
    requires Allocation(f, max, WithOthers(chain, others)) && chain !in others && 0 < n < |chain|
    ensures chain[..n] !in others
  {
    assert chain[0] in Members(chain) && chain[..n][0] in Members(chain[..n]);
    assert chain in WithOthers(chain, others) && others <= WithOthers(chain, others);
  }

  /** Changing an entry that is not zero to another such value keeps the number of free clusters. */
  lemma FreeCountStays(f: Table, c: nat, v: nat)
    requires c in f && f[c] != 0 && v != 0
    ensures FreeClusters(f[c := v]) == FreeClusters(f)
  {
  }

  class File {
    const vol: Volume
    const canRead: bool
    const canWrite: bool
    // First cluster, current cluster, sector in the current cluster, sector of the partial data
    var org: nat
    var curr: nat
    var csect: nat
    var dsect: nat
    var fsize: nat
    var fptr: nat
    var written: bool
    var aborted: bool
    // The clusters of this file, and the chains of all others
    ghost var chain: seq<nat>
    ghost var others: set<seq<nat>>

    ghost function Chains(): set<seq<nat>>
      reads this`chain, this`others
    {
      WithOthers(chain, others)
    }

    ghost predicate OnVolume()
      reads this`chain, this`others, this`org, vol
    {
      && vol.Coherent() && vol.lastClust < 0x1_0000_0000 && vol.g.csize > 0
      && Allocation(vol.Clusters(), vol.g.maxClust, Chains()) && (chain == [] || chain !in others)
      && org == (if chain == [] then 0 else chain[0])
    }

    ghost predicate InPlace()
      reads this`chain, this`fptr, this`curr, this`csect, this`dsect
    {
      vol.g.csize > 0 && Positioned(vol.g, chain, fptr, curr, csect, dsect)
    }

    ghost predicate Valid()
      reads this, vol
    {
      OnVolume() && InPlace() && fptr <= fsize <= 512 * Capacity(vol.g, chain) && fsize < 0x1_0000_0000
    }

    /** The first n bytes of the clusters of the file. */
    ghost function Bytes(n: nat): seq<Byte>
      requires vol.g.csize > 0
      reads this`chain, vol`disk, vol`win, vol`winsect
    {
      Content(vol.Sectors(), vol.g, chain, n)
    }

    /** The contents of the file. */
    ghost function Data(): seq<Byte>
      requires vol.g.csize > 0
      reads this`chain, this`fsize, vol`disk, vol`win, vol`winsect
    {
      Bytes(fsize)
    }

    /** Opens a file that begins with cluster org. */
    constructor (vol: Volume, org: nat, fsize: nat, canRead: bool, canWrite: bool,
                 ghost chain: seq<nat>, ghost others: set<seq<nat>>)
      requires vol.Coherent() && vol.lastClust < 0x1_0000_0000 && (chain == [] || chain !in others)
      requires Allocation(vol.Clusters(), vol.g.maxClust, WithOthers(chain, others))
      requires org == if chain == [] then 0 else chain[0]
      requires fsize <= 512 * Capacity(vol.g, chain) && fsize < 0x1_0000_0000
      ensures Valid() && fptr == 0 && this.vol == vol && this.chain == chain && this.others == others
      ensures this.fsize == fsize && this.canRead == canRead && this.canWrite == canWrite && !aborted
    {
      TableBeforeData(vol.g);
      this.vol, this.org, this.fsize, this.canRead, this.canWrite := vol, org, fsize, canRead, canWrite;
      fptr, csect, dsect, curr := 0, 255, 0, 0;
      written, aborted := false, false;
      this.chain, this.others := chain, others;
    }

    lemma VolumeFacts()
      requires OnVolume()
      ensures vol.g.Valid() && vol.g.csize > 0
    {
    }

    /** What holds of the clusters of a file that has some. */
    lemma OwnChain()
      requires OnVolume()
      ensures vol.g.Valid() && Clusters(vol.g, chain) && vol.Coherent()
      ensures chain != [] ==> org == chain[0] >= 2 && IsChain(vol.Clusters(), vol.g.maxClust, chain)
      ensures Linked(vol.Clusters(), chain)
    {
      if chain != [] {
        ChainFacts(vol.g, vol.Clusters(), Chains(), chain);
      }
    }

    /** At a sector boundary inside of the file: makes the cluster of the next sector the current one. */
    method EnterSector() returns (sect: nat)
      requires OnVolume() && InPlace() && fptr % 512 == 0 && fptr / 512 < Capacity(vol.g, chain)
      modifies vol`disk, vol`wflag, vol`win, vol`winsect, this`curr, this`csect
      ensures OnVolume() && vol.Sectors() == old(vol.Sectors()) && vol.Clusters() == old(vol.Clusters())
      ensures AtSector(vol.g, chain, fptr / 512, curr, csect) && sect == FileSector(vol.g, chain, fptr / 512)
      ensures sect != 0
    {
      hide Allocation, Volume.Coherent, Volume.Sectors, TableIn, Positioned, Capacity, AtSector, FileSector, Clusters,
           Linked;
      OwnChain();
      NextSector(vol.g, vol.Clusters(), chain, fptr, curr, csect, dsect);
      if csect >= vol.g.csize {
        var clst := org;
        if fptr != 0 {
          clst := vol.LookUp(curr);
        }
        assert clst > 1;
        curr := clst;
        csect := 0;
      }
      sect := vol.Clust2Sect(curr);
      assert sect != 0;
      sect := sect + csect;
    }

    /** The file is at sector j, and can move on inside of its cluster. */
    ghost predicate InSector(j: nat)
      reads this`chain, this`others, this`org, this`curr, this`csect, vol
    {
      OnVolume() && AtSector(vol.g, chain, j, curr, csect)
    }

    /** Reads whole sectors of the current cluster straight from the disk. */
    method ReadWhole(sect: nat, cc: nat, ghost j: nat, ghost n: nat) returns (part: seq<Byte>)
      requires InSector(j) && sect == FileSector(vol.g, chain, j) && 0 < cc && csect + cc <= vol.g.csize
      requires 512 * (j + cc) <= n
      modifies this`csect
      ensures OnVolume() && |part| == 512 * cc && part == Bytes(n)[512 * j..512 * (j + cc)]
      ensures Positioned(vol.g, chain, 512 * (j + cc), curr, csect, dsect)
    {
      hide Allocation, Volume.Coherent, Volume.Sectors, Positioned, Capacity, AtSector, FileSector, Clusters, Linked,
           Content, BytesOf, DataSectors;
      OwnChain();
      SectorInCluster(vol.g, chain, j, curr, csect);
      ContentRead(vol.Sectors(), vol.g, chain, j, cc, n);
      AfterSectors(vol.g, chain, j, cc, curr, csect, dsect);
      part := vol.ReadSectors(sect, cc);
      csect := csect + cc;
    }

    /** Reads a part of the sector dsect through the window. */
    method ReadRest(o: nat, rcnt: nat, ghost j: nat, ghost n: nat) returns (part: seq<Byte>)
      requires OnVolume() && 0 < csect && AtSector(vol.g, chain, j, curr, csect - 1)
      requires dsect == FileSector(vol.g, chain, j)
      requires 0 < rcnt && o + rcnt <= 512 && 512 * j + o + rcnt <= n
      modifies vol`disk, vol`wflag, vol`win, vol`winsect
      ensures OnVolume() && vol.Sectors() == old(vol.Sectors()) && vol.Clusters() == old(vol.Clusters())
      ensures |part| == rcnt && part == Bytes(n)[512 * j + o..512 * j + o + rcnt]
      ensures Positioned(vol.g, chain, 512 * j + o + rcnt, curr, csect, dsect)
    {
      hide Allocation, Volume.Coherent, Volume.Sectors, TableIn, Positioned, Capacity, AtSector, FileSector,
           Clusters, Linked, Content, DataSectors;
      OwnChain();
      SectorInCluster(vol.g, chain, j, curr, csect - 1);
      FileSectorInData(vol.g, chain, j);
      AfterPart(vol.g, chain, j, o + rcnt, curr, csect - 1);
      part := vol.ReadPart(dsect, o, rcnt);
      ContentPart(vol.Sectors(), vol.g, chain, j, o, rcnt, n);
    }

    /** One step of reading: whole sectors of one cluster, or a part of a sector. */
    method ReadSome(btr: nat) returns (part: seq<Byte>)
      requires Valid() && 0 < btr <= fsize - fptr
      modifies vol`disk, vol`wflag, vol`win, vol`winsect, this`curr, this`csect, this`dsect
      ensures OnVolume() && vol.Sectors() == old(vol.Sectors()) && vol.Clusters() == old(vol.Clusters())
      ensures 0 < |part| <= btr && part == Data()[fptr..fptr + |part|]
      ensures Positioned(vol.g, chain, fptr + |part|, curr, csect, dsect)
    {
      hide OnVolume, Volume.Coherent, Volume.Sectors, Volume.Clusters, Positioned, Capacity, AtSector, FileSector,
           Content, Geometry.Valid;
      var o := fptr % 512;
      ghost var j := fptr / 512;
      SectorOfByte(fptr, j);
      VolumeFacts();
      if o == 0 {
        var sect := EnterSector();
        var cc := btr / 512;
        if cc != 0 {
          SectorInCluster(vol.g, chain, j, curr, csect);
          if csect + cc > vol.g.csize {
            cc := vol.g.csize - csect;
          }
          part := ReadWhole(sect, cc, j, fsize);
          return;
        }
        dsect := sect;
        csect := csect + 1;
      } else {
        Inside(vol.g, chain, fptr, curr, csect, dsect);
      }
      var rcnt := 512 - o;
      if rcnt > btr {
        rcnt := btr;
      }
      part := ReadRest(o, rcnt, j, fsize);
    }

    /** Reads up to btr bytes from the position on. */
    method Read(btr: nat) returns (res: FileResult, buff: seq<Byte>)
      requires Valid()
      modifies vol`disk, vol`wflag, vol`win, vol`winsect, this`curr, this`csect, this`dsect, this`fptr
      ensures Valid() && vol.Sectors() == old(vol.Sectors()) && vol.Clusters() == old(vol.Clusters())
      ensures Data() == old(Data())
      ensures res == if aborted then InternalError else if !canRead then Denied else Success
      ensures res == Success ==> |buff| == Least(btr, fsize - old(fptr)) && fptr == old(fptr) + |buff|
      ensures res == Success ==> buff == Data()[old(fptr)..fptr]
      ensures res != Success ==> fptr == old(fptr) && buff == []
    {
      hide OnVolume, Volume.Coherent, Volume.Sectors, TableIn, Positioned, Capacity, Content;
      buff := [];
      if aborted {
        return InternalError, [];
      }
      if !canRead {
        return Denied, [];
      }
      var remain := fsize - fptr;
      var left: nat := if btr > remain then remain else btr;
      while left != 0
        invariant Valid() && vol.Sectors() == old(vol.Sectors()) && vol.Clusters() == old(vol.Clusters())
        invariant fptr == old(fptr) + |buff| && |buff| + left == Least(btr, fsize - old(fptr))
        invariant buff == Data()[old(fptr)..fptr]
      {
        var part := ReadSome(left);
        Joined(Data(), old(fptr), fptr, fptr + |part|);
        buff := buff + part;
        fptr := fptr + |part|;
        left := left - |part|;
      }
      res := Success;
    }

    /** Gives a file without clusters its first one; 0 when no cluster is free. */
    method Originate() returns (clst: nat)
      requires OnVolume() && chain == []
      modifies vol, this`org, this`chain
      ensures OnVolume() && SameOutside(old(vol.Sectors()), vol.Sectors(), vol.g)
      ensures (old(vol.Counted()) ==> vol.Counted())
      ensures clst == 0 ==> chain == [] && FreeClusters(vol.Clusters()) == {}
      ensures clst != 0 ==> chain == [clst]
    {
      hide Allocation, Volume.Coherent, Volume.Sectors, TableIn, Clusters, SameOutside, FreeClusters;
      ghost var f := vol.Clusters();
      VolumeFacts();
      clst := vol.CreateChain(0);
      ChainStretched(vol.g, f, vol.Clusters(), chain, others, 0, 0, clst);
      org := clst;
      if clst != 0 {
        chain := chain + [clst];
      }
    }

    /** The cluster behind the i-th one of the file, which is clst; the file grows by one when that is the
        last. 0 when no cluster is free. */
    method Follow(clst: nat, ghost i: nat) returns (r: nat)
      requires OnVolume() && 0 < i <= |chain| && clst == chain[i - 1]
      modifies vol, this`chain
      ensures OnVolume() && SameOutside(old(vol.Sectors()), vol.Sectors(), vol.g)
      ensures (old(vol.Counted()) ==> vol.Counted())
      ensures r == 0 ==> i == |chain| && chain == old(chain) && FreeClusters(vol.Clusters()) == {}
      ensures r != 0 ==> old(chain) <= chain && i < |chain| && r == chain[i]
    {
      hide Allocation, Volume.Coherent, Volume.Sectors, TableIn, Clusters, SameOutside, FreeClusters;
      ghost var f := vol.Clusters();
      OwnChain();
      r := vol.CreateChain(clst);
      ChainStretched(vol.g, f, vol.Clusters(), chain, others, clst, i, r);
      if r != 0 && i == |chain| {
        chain := chain + [r];
      }
    }

    /** At the end of a cluster: makes the next one the current cluster, appending one at the end of the
        file. Fails when no cluster is free. */
    method NextCluster() returns (ok: bool)
      requires OnVolume() && InPlace() && fptr % 512 == 0 && csect >= vol.g.csize
      modifies vol, this`org, this`curr, this`csect, this`chain
      ensures OnVolume() && SameOutside(old(vol.Sectors()), vol.Sectors(), vol.g)
      ensures (old(vol.Counted()) ==> vol.Counted())
      ensures !ok ==>
        chain == old(chain) && InPlace() && FreeClusters(vol.Clusters()) == {} && fptr == 512 * Capacity(vol.g, chain)
      ensures ok ==> old(chain) <= chain && AtSector(vol.g, chain, fptr / 512, curr, csect)
    {
      hide OnVolume, Volume.Coherent, Volume.Sectors, Volume.Clusters, Volume.Counted, TableIn, Positioned, Capacity,
           AtSector,
           FileSector, Clusters, SameOutside, FreeClusters;
      ghost var j := fptr / 512;
      VolumeFacts();
      Boundary(vol.g, chain, fptr, curr, csect, dsect);
      OutsideSelf(vol.Sectors(), vol.g);
      ghost var i := j / vol.g.csize;
      var clst;
      if fptr == 0 {
        clst := org;
        Origin();
        if clst == 0 {
          clst := Originate();
        }
      } else {
        clst := Follow(curr, i);
      }
      if clst == 0 {
        AtEnd(vol.g, chain, fptr);
        return false;
      }
      AtCluster(vol.g, chain, j, i, clst);
      curr := clst;
      csect := 0;
      return true;
    }

    /** At a sector boundary: the sector to write, in a new cluster at the end of the file; 0 when no
        cluster is free. */
    method NextForWriting(ghost n: nat) returns (sect: nat)
      requires OnVolume() && InPlace() && fptr % 512 == 0 && n <= 512 * Capacity(vol.g, chain)
      modifies vol, this`org, this`curr, this`csect, this`chain
      ensures OnVolume() && OthersKept(old(vol.Sectors()), vol.Sectors(), vol.g, chain)
      ensures (old(vol.Counted()) ==> vol.Counted())
      ensures Bytes(n) == old(Bytes(n)) && n <= 512 * Capacity(vol.g, chain)
      ensures sect == 0 ==>
        chain == old(chain) && InPlace() && FreeClusters(vol.Clusters()) == {} && fptr == 512 * Capacity(vol.g, chain)
      ensures sect != 0 ==>
        && old(chain) <= chain && AtSector(vol.g, chain, fptr / 512, curr, csect)
        && sect == FileSector(vol.g, chain, fptr / 512)
    {
      hide OnVolume, Volume.Coherent, Volume.Sectors, TableIn, Positioned, Capacity, AtSector, FileSector, Clusters,
           Linked,
           SameOutside, FreeClusters, Content, OthersKept;
      OwnChain();
      Boundary(vol.g, chain, fptr, curr, csect, dsect);
      ghost var d, chain0 := vol.Sectors(), chain;
      OutsideSelf(d, vol.g);
      var ok := true;
      if csect >= vol.g.csize {
        ok := NextCluster();
      }
      BytesStay(d, vol.Sectors(), vol.g, chain0, chain, n);
      OthersKeptOutside(d, vol.Sectors(), vol.g, chain);
      if !ok {
        return 0;
      }
      sect := DataSector();
    }

    /** The sector that the position fields tell; if the window is on the one before, it is written back. */
    method DataSector() returns (sect: nat)
      requires OnVolume() && AtSector(vol.g, chain, fptr / 512, curr, csect)
      modifies vol`disk, vol`wflag, vol`win, vol`winsect
      ensures OnVolume() && vol.Sectors() == old(vol.Sectors()) && vol.Clusters() == old(vol.Clusters())
      ensures sect == FileSector(vol.g, chain, fptr / 512) && sect != 0
    {
      hide OnVolume, Volume.Coherent, Volume.Sectors, TableIn, Capacity, AtSector, FileSector, Clusters, Linked;
      OwnChain();
      SectorAt(vol.g, chain, fptr / 512, curr, csect);
      if vol.winsect == dsect {
        WriteBackWindow();
      }
      sect := vol.Clust2Sect(curr);
      assert sect != 0;
      sect := sect + csect;
    }

    /** Moving the window to sector 0 only writes it back. */
    method WriteBackWindow()
      requires OnVolume()
      modifies vol`disk, vol`wflag, vol`win, vol`winsect
      ensures OnVolume() && vol.Sectors() == old(vol.Sectors()) && vol.Clusters() == old(vol.Clusters())
    {
      hide Allocation, Volume.Sectors, TableIn, View, SameCopies;
      vol.MoveWindow(0);
    }

    lemma Origin()
      requires OnVolume()
      ensures org == (if chain == [] then 0 else chain[0]) && (org == 0 <==> chain == [])
    {
      OwnChain();
    }

    /** Writes whole sectors of the current cluster straight to the disk. */
    method WriteWhole(sect: nat, cc: nat, bytes: seq<Byte>, ghost j: nat, ghost n: nat)
      requires InSector(j) && sect == FileSector(vol.g, chain, j) && 0 < cc && csect + cc <= vol.g.csize
      requires |bytes| == 512 * cc
      requires 512 * j <= n <= 512 * Capacity(vol.g, chain)
      modifies vol`disk, vol`win, vol`wflag, this`csect
      ensures OnVolume() && vol.Clusters() == old(vol.Clusters())
      ensures OthersKept(old(vol.Sectors()), vol.Sectors(), vol.g, chain)
      ensures Bytes(Most(n, 512 * j + |bytes|)) == Overwritten(old(Bytes(n)), 512 * j, bytes)
      ensures 512 * j + |bytes| <= 512 * Capacity(vol.g, chain)
      ensures Positioned(vol.g, chain, 512 * j + |bytes|, curr, csect, dsect)
    {
      hide Allocation, Volume.Coherent, Volume.Sectors, TableIn, Positioned, Capacity, AtSector, FileSector, Clusters,
           Linked,
           Content, DataSectors, OthersKept, SectorsPut, Overwritten;
      OwnChain();
      SectorInCluster(vol.g, chain, j, curr, csect);
      vol.DataPresent();
      SectorsWritten(vol.Sectors(), vol.g, chain, j, cc, bytes, n);
      AfterSectors(vol.g, chain, j, cc, curr, csect, dsect);
      PutOutside(vol.Sectors(), vol.g, sect, cc, bytes);
      vol.WriteSectors(sect, cc, bytes);
      csect := csect + cc;
    }

    /** Writes a part of the sector dsect through the window; at the end of the file it is not read before. */
    method WriteRest(o: nat, bytes: seq<Byte>, edge: bool, ghost j: nat, ghost n: nat)
      requires OnVolume() && 0 < csect && AtSector(vol.g, chain, j, curr, csect - 1)
      requires dsect == FileSector(vol.g, chain, j)
      requires bytes != [] && o + |bytes| <= 512 && 512 * j + o <= n <= 512 * Capacity(vol.g, chain)
      requires (edge ==> n == 512 * j && o == 0)
      modifies vol`disk, vol`wflag, vol`win, vol`winsect
      ensures OnVolume() && vol.Clusters() == old(vol.Clusters())
      ensures OthersKept(old(vol.Sectors()), vol.Sectors(), vol.g, chain)
      ensures Bytes(Most(n, 512 * j + o + |bytes|)) == Overwritten(old(Bytes(n)), 512 * j + o, bytes)
      ensures 512 * j + o + |bytes| <= 512 * Capacity(vol.g, chain)
      ensures Positioned(vol.g, chain, 512 * j + o + |bytes|, curr, csect, dsect)
    {
      hide Allocation, Volume.Coherent, Volume.Framed, Volume.Sectors, TableIn, Positioned, Capacity, AtSector,
           FileSector, Clusters, Linked,
           Content, OthersKept, Overwritten, Patched;
      OwnChain();
      SectorInCluster(vol.g, chain, j, curr, csect - 1);
      vol.DataPresent();
      FileSectorInData(vol.g, chain, j);
      AfterPart(vol.g, chain, j, o + |bytes|, curr, csect - 1);
      ghost var d := vol.Sectors();
      if edge {
        vol.GrabSector(dsect);
        OneOutside(d, vol.g, dsect, vol.win);
        SectorGrabbed(d, vol.g, chain, j, vol.win);
      }
      ghost var d' := vol.Sectors();
      PartWritten(d', vol.g, chain, j, o, bytes, n);
      OneOutside(d', vol.g, dsect, Patched(d'[dsect], o, bytes));
      vol.WritePart(dsect, o, bytes);
      OthersKeptTwice(d, d', vol.Sectors(), vol.g, chain);
    }

    /** How far the file reaches while it is written: its size is set at the end. */
    ghost function Extent(): nat
      reads this`fsize, this`fptr
    {
      Most(fsize, fptr)
    }

    /** A file that is being written. */
    ghost predicate Writing()
      reads this, vol
    {
      OnVolume() && InPlace() && Extent() <= 512 * Capacity(vol.g, chain)
    }

    /** Writes as many whole sectors as there are, and as the cluster still has. */
    method WriteMany(sect: nat, wbuff: seq<Byte>, ghost j: nat, ghost n: nat) returns (wcnt: nat)
      requires InSector(j) && sect == FileSector(vol.g, chain, j) && 512 <= |wbuff|
      requires 512 * j <= n <= 512 * Capacity(vol.g, chain)
      modifies vol`disk, vol`win, vol`wflag, this`csect
      ensures OnVolume() && vol.Clusters() == old(vol.Clusters()) && 0 < wcnt <= |wbuff|
      ensures OthersKept(old(vol.Sectors()), vol.Sectors(), vol.g, chain)
      ensures Bytes(Most(n, 512 * j + wcnt)) == Overwritten(old(Bytes(n)), 512 * j, wbuff[..wcnt])
      ensures 512 * j + wcnt <= 512 * Capacity(vol.g, chain)
      ensures Positioned(vol.g, chain, 512 * j + wcnt, curr, csect, dsect)
    {
      hide OnVolume, Volume.Coherent, Volume.Sectors, TableIn, Positioned, Capacity, AtSector, FileSector, Clusters,
           Linked, Content, SameOutside, OthersKept, Overwritten, FreeClusters;
      OwnChain();
      var cc := |wbuff| / 512;
      SectorInCluster(vol.g, chain, j, curr, csect);
      if csect + cc > vol.g.csize {
        cc := vol.g.csize - csect;
      }
      wcnt := 512 * cc;
      WriteWhole(sect, cc, wbuff[..wcnt], j, n);
    }

    /** The step at the beginning of a sector: whole sectors are written, or there is no room; or else the next
        sector is the one for a part. */
    method WriteAhead(wbuff: seq<Byte>, ghost n: nat) returns (wcnt: nat, part: bool)
      requires Writing() && wbuff != [] && fptr % 512 == 0 && n == Extent()
      modifies vol, this`org, this`curr, this`csect, this`dsect, this`chain
      ensures OnVolume() && (old(vol.Counted()) ==> vol.Counted())
      ensures old(chain) <= chain && OthersKept(old(vol.Sectors()), vol.Sectors(), vol.g, chain)
      ensures n <= 512 * Capacity(vol.g, chain)
      ensures part ==>
        && 0 < csect && AtSector(vol.g, chain, fptr / 512, curr, csect - 1)
        && dsect == FileSector(vol.g, chain, fptr / 512)
        && Bytes(n) == old(Bytes(n))
      ensures !part ==>
        && wcnt <= |wbuff| && fptr + wcnt <= 512 * Capacity(vol.g, chain)
        && Positioned(vol.g, chain, fptr + wcnt, curr, csect, dsect)
        && Bytes(Most(n, fptr + wcnt)) == Overwritten(old(Bytes(n)), fptr, wbuff[..wcnt])
      ensures !part && wcnt == 0 ==>
        FreeClusters(vol.Clusters()) == {} && fptr == 512 * Capacity(vol.g, chain) && chain == old(chain)
    {
      hide OnVolume, Volume.Coherent, Volume.Sectors, TableIn, Positioned, Capacity, AtSector, FileSector, Clusters,
           Linked, Content, SameOutside, OthersKept, Overwritten, FreeClusters;
      ghost var j, d := fptr / 512, vol.Sectors();
      VolumeFacts();
      OutsideSelf(d, vol.g);
      OthersKeptOutside(d, d, vol.g, chain);
      var sect := NextForWriting(n);
      if sect == 0 {
        NothingWritten(old(Bytes(n)), fptr);
        return 0, false;
      }
      ghost var d' := vol.Sectors();
      if |wbuff| / 512 != 0 {
        wcnt := WriteMany(sect, wbuff, j, n);
        OthersKeptTwice(d, d', vol.Sectors(), vol.g, chain);
        return wcnt, false;
      }
      dsect := sect;
      csect := csect + 1;
      return 0, true;
    }

    /** One step of writing: whole sectors of one cluster straight to the disk, or a part of a sector
        through the window. Writes nothing when the disk is full. */
    method WriteSome(wbuff: seq<Byte>) returns (wcnt: nat)
      requires Writing() && wbuff != []
      modifies vol, this`org, this`curr, this`csect, this`dsect, this`chain
      ensures OnVolume() && (old(vol.Counted()) ==> vol.Counted())
      ensures old(chain) <= chain && OthersKept(old(vol.Sectors()), vol.Sectors(), vol.g, chain)
      ensures wcnt <= |wbuff| && Most(Extent(), fptr + wcnt) <= 512 * Capacity(vol.g, chain)
      ensures Positioned(vol.g, chain, fptr + wcnt, curr, csect, dsect)
      ensures Bytes(Most(Extent(), fptr + wcnt)) == Overwritten(old(Bytes(Extent())), fptr, wbuff[..wcnt])
      ensures wcnt == 0 ==>
        FreeClusters(vol.Clusters()) == {} && fptr == 512 * Capacity(vol.g, chain) && chain == old(chain)
    {
      hide OnVolume, Volume.Coherent, Volume.Sectors, TableIn, Positioned, Capacity, AtSector, FileSector, Clusters,
           Linked, Content, SameOutside, OthersKept, Overwritten, FreeClusters;
      var o := fptr % 512;
      ghost var j, n, d := fptr / 512, Extent(), vol.Sectors();
      SectorOfByte(fptr, j);
      OwnChain();
      OutsideSelf(d, vol.g);
      OthersKeptOutside(d, d, vol.g, chain);
      var edge := false;
      if o == 0 {
        var part;
        wcnt, part := WriteAhead(wbuff, n);
        if !part {
          return;
        }
        edge := fptr >= fsize;
      } else {
        Inside(vol.g, chain, fptr, curr, csect, dsect);
      }
      ghost var d' := vol.Sectors();
      wcnt := 512 - o;
      if wcnt > |wbuff| {
        wcnt := |wbuff|;
      }
      WriteRest(o, wbuff[..wcnt], edge, j, n);
      OthersKeptTwice(d, d', vol.Sectors(), vol.g, chain);
    }

    /** The loop of writing. */
    method WriteAll(wbuff: seq<Byte>) returns (bw: nat)
      requires Writing()
      modifies vol, this`org, this`curr, this`csect, this`dsect, this`chain, this`fptr
      ensures Writing() && (old(vol.Counted()) ==> vol.Counted()) && bw <= |wbuff| && fptr == old(fptr) + bw
      ensures old(chain) <= chain && OthersKept(old(vol.Sectors()), vol.Sectors(), vol.g, chain)
      ensures Bytes(Extent()) == Overwritten(old(Bytes(Extent())), old(fptr), wbuff[..bw])
      ensures bw < |wbuff| ==> FreeClusters(vol.Clusters()) == {} && fptr == 512 * Capacity(vol.g, chain)
    {
      hide OnVolume, Volume.Coherent, Volume.Sectors, Volume.Clusters, Volume.Counted, TableIn, Positioned, Capacity,
           Content,
           SameOutside, OthersKept, Overwritten, FreeClusters;
      bw := 0;
      VolumeFacts();
      OutsideSelf(vol.Sectors(), vol.g);
      OthersKeptOutside(vol.Sectors(), vol.Sectors(), vol.g, chain);
      ghost var data := Bytes(Extent());
      NothingWritten(data, fptr);
      while bw < |wbuff|
        invariant bw <= |wbuff| && Writing() && (old(vol.Counted()) ==> vol.Counted()) && fptr == old(fptr) + bw
        invariant old(chain) <= chain && OthersKept(old(vol.Sectors()), vol.Sectors(), vol.g, chain)
        invariant Bytes(Extent()) == Overwritten(data, old(fptr), wbuff[..bw])
      {
        ghost var chain0, d := chain, vol.Sectors();
        var wcnt := WriteSome(wbuff[bw..]);
        KeptLonger(old(vol.Sectors()), d, vol.Sectors(), vol.g, chain0, chain);
        WrittenTwice(data, old(fptr), wbuff, bw, wcnt);
        if wcnt == 0 {
          return;
        }
        fptr := fptr + wcnt;
        bw := bw + wcnt;
      }
    }

    /** Writes the bytes of buff from the position on, as far as there is room on the volume. */
    method Write(buff: seq<Byte>) returns (res: FileResult, bw: nat)
      requires Valid() && |buff| < 0x1_0000_0000
      modifies vol, this`org, this`curr, this`csect, this`dsect, this`fsize, this`fptr, this`written, this`chain
      ensures Valid() && (old(vol.Counted()) ==> vol.Counted())
      ensures res == if aborted then InternalError else if !canWrite then Denied else Success
      ensures res != Success ==>
        bw == 0 && fptr == old(fptr) && chain == old(chain) && vol.Sectors() == old(vol.Sectors())
      ensures bw <= |buff| && fptr == old(fptr) + bw && Data() == Overwritten(old(Data()), old(fptr), buff[..bw])
      ensures res == Success && old(fsize) + |buff| < 0x1_0000_0000 && bw < |buff| ==>
        FreeClusters(vol.Clusters()) == {} && fptr == 512 * Capacity(vol.g, chain)
      ensures res == Success && old(fsize) + |buff| >= 0x1_0000_0000 ==> bw == 0
      ensures old(chain) <= chain && OthersKept(old(vol.Sectors()), vol.Sectors(), vol.g, chain)
      ensures FilesKept(old(vol.Sectors()), vol.Sectors(), vol.g, others)
    {
      hide OnVolume, Volume.Coherent, Volume.Sectors, Volume.Clusters, Volume.Counted, TableIn, Positioned, Capacity,
           Content, SameOutside,
           OthersKept, Overwritten, FreeClusters, FilesKept;
      VolumeFacts();
      OutsideSelf(vol.Sectors(), vol.g);
      OthersKeptOutside(vol.Sectors(), vol.Sectors(), vol.g, chain);
      NothingWritten(Data(), fptr);
      OthersAre(vol.Sectors());
      if aborted {
        return InternalError, 0;
      }
      if !canWrite {
        return Denied, 0;
      }
      var btw := |buff|;
      if fsize + btw >= 0x1_0000_0000 {
        btw := 0;
      }
      bw := WriteAll(buff[..btw]);
      assert buff[..btw][..bw] == buff[..bw];
      if fptr > fsize {
        fsize := fptr;
      }
      written := true;
      res := Success;
      OthersAre(old(vol.Sectors()));
    }

    lemma OthersAre(d: Disk)
      requires OnVolume() && OthersKept(d, vol.Sectors(), vol.g, chain)
      ensures FilesKept(d, vol.Sectors(), vol.g, others)
    {
      OtherFiles(d, vol.Sectors(), vol.g, vol.Clusters(), chain, others);
    }

    /** The cluster behind the i-th one of the file, which is clst: appended at the end of the file if it
        is open for writing. 0 when no cluster is free. */
    method StepOn(clst: nat, ghost i: nat, ghost n: nat) returns (r: nat)
      requires OnVolume() && 0 < i <= |chain| && clst == chain[i - 1] && (canWrite || i < |chain|)
      requires n <= 512 * Capacity(vol.g, chain)
      modifies vol, this`chain
      ensures OnVolume() && (old(vol.Counted()) ==> vol.Counted()) && old(chain) <= chain
      ensures OthersKept(old(vol.Sectors()), vol.Sectors(), vol.g, chain)
      ensures SameOutside(old(vol.Sectors()), vol.Sectors(), vol.g)
      ensures Bytes(n) == old(Bytes(n)) && n <= 512 * Capacity(vol.g, chain)
      ensures Capacity(vol.g, old(chain)) <= Capacity(vol.g, chain)
      ensures r == 0 ==> i == |chain| && FreeClusters(vol.Clusters()) == {}
      ensures r != 0 ==> i < |chain| && r == chain[i] && 2 <= r < vol.g.maxClust
    {
      hide OnVolume, Volume.Coherent, Volume.Sectors, TableIn, Capacity, SameOutside, OthersKept, FreeClusters, Content;
      ghost var d, chain0 := vol.Sectors(), chain;
      OwnChain();
      OutsideSelf(d, vol.g);
      if canWrite {
        r := Follow(clst, i);
      } else {
        r := FollowExisting(clst, i);
      }
      BytesStay(d, vol.Sectors(), vol.g, chain0, chain, n);
      OthersKeptOutside(d, vol.Sectors(), vol.g, chain);
      CapacityGrows(vol.g, chain0, chain);
      OwnChain();
    }

    /** The next cluster of the file, as the table tells it. */
    method FollowExisting(clst: nat, ghost i: nat) returns (r: nat)
      requires OnVolume() && 0 < i < |chain| && clst == chain[i - 1]
      modifies vol`disk, vol`wflag, vol`win, vol`winsect
      ensures OnVolume() && vol.Sectors() == old(vol.Sectors()) && vol.Clusters() == old(vol.Clusters())
      ensures r == chain[i] != 0
    {
      hide Allocation, Volume.Coherent, Volume.Sectors, TableIn;
      OwnChain();
      assert vol.Clusters()[chain[i - 1]] == chain[i - 1 + 1];
      r := vol.LookUp(clst);
    }

    /** Follows the chain from cluster i on, until the offset that is left lies in the current cluster. */
    method FollowTo(ofs: nat, ghost i: nat, ghost n: nat) returns (left: nat, clst: nat, ghost k: nat)
      requires OnVolume() && i < |chain| && curr == chain[i] && fptr == ClusterStart(vol.g, i) && 0 < ofs
      requires (canWrite || fptr + ofs <= 512 * Capacity(vol.g, chain)) && n <= 512 * Capacity(vol.g, chain)
      modifies vol, this`fptr, this`curr, this`chain
      ensures OnVolume() && (old(vol.Counted()) ==> vol.Counted()) && old(chain) <= chain
      ensures OthersKept(old(vol.Sectors()), vol.Sectors(), vol.g, chain)
      ensures SameOutside(old(vol.Sectors()), vol.Sectors(), vol.g)
      ensures Bytes(n) == old(Bytes(n)) && n <= 512 * Capacity(vol.g, chain)
      ensures k < |chain| && curr == chain[k] && fptr == ClusterStart(vol.g, k) && 0 < left <= 512 * vol.g.csize
      ensures clst == curr || left == 512 * vol.g.csize
      ensures fptr + left == old(fptr) + ofs
        || (fptr + left < old(fptr) + ofs && left == 512 * vol.g.csize && k == |chain| - 1
            && FreeClusters(vol.Clusters()) == {})
    {
      hide OnVolume, Volume.Coherent, Volume.Sectors, Volume.Clusters, Volume.Counted, TableIn, Capacity, SameOutside,
           OthersKept,
           FreeClusters, Content, ClusterStart;
      VolumeFacts();
      OutsideSelf(vol.Sectors(), vol.g);
      OthersKeptOutside(vol.Sectors(), vol.Sectors(), vol.g, chain);
      k, left, clst := i, ofs, curr;
      var bcs := vol.g.csize * 512;
      while left > bcs
        invariant OnVolume() && (old(vol.Counted()) ==> vol.Counted()) && old(chain) <= chain
        invariant OthersKept(old(vol.Sectors()), vol.Sectors(), vol.g, chain)
        invariant SameOutside(old(vol.Sectors()), vol.Sectors(), vol.g)
        invariant Bytes(n) == old(Bytes(n)) && n <= 512 * Capacity(vol.g, chain)
        invariant k < |chain| && clst == curr == chain[k] && fptr == ClusterStart(vol.g, k) && 0 < left
        invariant fptr + left == old(fptr) + ofs
        invariant canWrite || fptr + left <= 512 * Capacity(vol.g, chain)
      {
        ghost var chain0, d := chain, vol.Sectors();
        if !canWrite {
          RoomInChain(vol.g, chain, k, left);
        }
        NextStart(vol.g, k);
        clst := StepOn(clst, k + 1, n);
        OutsideTwice(old(vol.Sectors()), d, vol.Sectors(), vol.g);
        KeptLonger(old(vol.Sectors()), d, vol.Sectors(), vol.g, chain0, chain);
        if clst == 0 {
          left := bcs;
          break;
        }
        curr := clst;
        fptr := fptr + bcs;
        left := left - bcs;
        k := k + 1;
      }
    }

    /** The first cluster of the file, which gets one if it has none. */
    method FirstCluster(ghost n: nat) returns (clst: nat)
      requires OnVolume() && n <= 512 * Capacity(vol.g, chain)
      modifies vol, this`org, this`chain
      ensures OnVolume() && (old(vol.Counted()) ==> vol.Counted()) && old(chain) <= chain
      ensures OthersKept(old(vol.Sectors()), vol.Sectors(), vol.g, chain)
      ensures SameOutside(old(vol.Sectors()), vol.Sectors(), vol.g)
      ensures Bytes(n) == old(Bytes(n)) && n <= 512 * Capacity(vol.g, chain)
      ensures clst == 0 ==> chain == [] && FreeClusters(vol.Clusters()) == {}
      ensures clst != 0 ==> chain != [] && clst == chain[0]
      ensures old(chain) == [] || chain == old(chain)
    {
      hide Allocation, Volume.Coherent, Volume.Sectors, TableIn, Capacity, SameOutside, OthersKept, FreeClusters,
           Content, Clusters, Linked;
      OwnChain();
      ghost var d, chain0 := vol.Sectors(), chain;
      OutsideSelf(d, vol.g);
      OthersKeptOutside(d, d, vol.g, chain);
      clst := org;
      if clst == 0 {
        clst := Originate();
        BytesStay(d, vol.Sectors(), vol.g, chain0, chain, n);
        OthersKeptOutside(d, vol.Sectors(), vol.g, chain);
      }
    }

    /** Finds the cluster to start from: the current one, if the new position is not before it, and
        otherwise the first one, which a file without clusters is given now. 0 when none is free. */
    method StartSeek(ofs: nat, ghost n: nat) returns (clst: nat, left: nat, ghost i: nat)
      requires OnVolume() && InPlace() && 0 < ofs && n <= 512 * Capacity(vol.g, chain)
      modifies vol, this`org, this`fptr, this`curr, this`csect, this`chain
      ensures OnVolume() && (old(vol.Counted()) ==> vol.Counted()) && old(chain) <= chain && csect == 255
      ensures OthersKept(old(vol.Sectors()), vol.Sectors(), vol.g, chain)
      ensures SameOutside(old(vol.Sectors()), vol.Sectors(), vol.g)
      ensures Bytes(n) == old(Bytes(n)) && n <= 512 * Capacity(vol.g, chain)
      ensures clst == curr && 0 < left
      ensures clst == 0 ==> fptr == 0 && chain == [] && FreeClusters(vol.Clusters()) == {}
      ensures clst != 0 ==> i < |chain| && curr == chain[i] && fptr == ClusterStart(vol.g, i) && fptr + left == ofs
      ensures old(chain) == [] || chain == old(chain)
    {
      hide Allocation, Volume.Coherent, Volume.Sectors, TableIn, Capacity, SameOutside, OthersKept, FreeClusters,
           Content, Positioned,
           ClusterStart, Clusters, Linked;
      OwnChain();
      ghost var d := vol.Sectors();
      OutsideSelf(d, vol.g);
      OthersKeptOutside(d, d, vol.g, chain);
      var bcs := vol.g.csize * 512;
      var ifptr := fptr;
      fptr, csect, left := 0, 255, ofs;
      if ifptr > 0 && (ofs - 1) / bcs >= (ifptr - 1) / bcs {
        FromCurrent(vol.g, chain, ifptr, curr, old(csect), dsect, ofs);
        i := (ifptr - 1) / bcs;
        // bcs is a power of two: this is the position without its lower bits
        fptr := (ifptr - 1) / bcs * bcs;
        left := left - fptr;
        clst := curr;
      } else {
        i := 0;
        FirstStart(vol.g);
        clst := FirstCluster(n);
        curr := clst;
      }
    }

    /** Moves the position. In a file open for reading only it stays inside of the file; otherwise the
        file is extended up to there, as far as there is room, by what its clusters held before. */
    method Seek(offset: nat) returns (res: FileResult)
      requires Valid() && offset < 0x1_0000_0000
      modifies vol, this`org, this`curr, this`csect, this`dsect, this`fsize, this`fptr, this`written, this`chain
      ensures Valid() && (old(vol.Counted()) ==> vol.Counted())
      ensures res == if aborted then InternalError else Success
      ensures res != Success ==> fptr == old(fptr) && chain == old(chain) && vol.Sectors() == old(vol.Sectors())
      ensures fsize == (if res == Success then Most(old(fsize), fptr) else old(fsize))
      ensures Data()[..old(fsize)] == old(Data())
      ensures res == Success ==>
        var target := if offset > old(fsize) && !canWrite then old(fsize) else offset;
        fptr == target || (fptr < target && fptr == 512 * Capacity(vol.g, chain) && FreeClusters(vol.Clusters()) == {})
      ensures old(chain) <= chain && OthersKept(old(vol.Sectors()), vol.Sectors(), vol.g, chain)
      ensures FilesKept(old(vol.Sectors()), vol.Sectors(), vol.g, others)
      ensures SameOutside(old(vol.Sectors()), vol.Sectors(), vol.g)
      ensures Data() == Content(old(vol.Sectors()), vol.g, chain, fsize)
    {
      hide OnVolume, Volume.Coherent, Volume.Sectors, Volume.Clusters, Volume.Counted, TableIn, Positioned, Capacity,
           Content,
           SameOutside, OthersKept, FreeClusters, FilesKept, ClusterStart, Clusters;
      VolumeFacts();
      OutsideSelf(vol.Sectors(), vol.g);
      OthersKeptOutside(vol.Sectors(), vol.Sectors(), vol.g, chain);
      OthersAre(vol.Sectors());
      DataStays(vol.Sectors());
      if aborted {
        return InternalError;
      }
      var ofs := offset;
      if ofs > fsize && !canWrite {
        ofs := fsize;
      }
      SeekTo(ofs);
      BytesPrefix(fsize, Most(fsize, fptr));
      if fptr > fsize {
        fsize := fptr;
        written := true;
      }
      OthersAre(old(vol.Sectors()));
      DataStays(old(vol.Sectors()));
      res := Success;
    }

    /** Nothing outside of the table has changed: the file is what its clusters held before. */
    lemma DataStays(d: Disk)
      requires Valid() && SameOutside(d, vol.Sectors(), vol.g)
      ensures Data() == Content(d, vol.g, chain, fsize)
    {
      hide Content, SameOutside, Positioned, Capacity;
      OwnChain();
      ContentOutside(d, vol.Sectors(), vol.g, chain, fsize);
    }

    /** The part of Seek that finds the cluster and the sector. */
    method SeekTo(ofs: nat)
      requires Valid() && (canWrite || ofs <= fsize)
      modifies vol, this`org, this`curr, this`csect, this`dsect, this`fptr, this`chain
      ensures Writing() && (old(vol.Counted()) ==> vol.Counted()) && old(chain) <= chain
      ensures OthersKept(old(vol.Sectors()), vol.Sectors(), vol.g, chain)
      ensures SameOutside(old(vol.Sectors()), vol.Sectors(), vol.g)
      ensures Bytes(fsize) == old(Data())
      ensures fptr == ofs || (fptr < ofs && fptr == 512 * Capacity(vol.g, chain) && FreeClusters(vol.Clusters()) == {})
    {
      hide OnVolume, Volume.Coherent, Volume.Sectors, Volume.Clusters, Volume.Counted, TableIn, Positioned, Capacity,
           Content,
           SameOutside, OthersKept, FreeClusters, ClusterStart, Clusters;
      OwnChain();
      OutsideSelf(vol.Sectors(), vol.g);
      OthersKeptOutside(vol.Sectors(), vol.Sectors(), vol.g, chain);
      if ofs == 0 {
        fptr := 0;
        csect := 255;
        AtStart(vol.g, chain, curr, dsect);
        return;
      }
      var clst, left: nat;
      ghost var i;
      clst, left, i := StartSeek(ofs, fsize);
      if clst == 0 {
        AtStart(vol.g, chain, curr, dsect);
        NoCapacity(vol.g, chain);
        return;
      }
      ghost var d, chain0 := vol.Sectors(), chain;
      left, clst, i := FollowTo(left, i, fsize);
      OutsideTwice(old(vol.Sectors()), d, vol.Sectors(), vol.g);
      KeptLonger(old(vol.Sectors()), d, vol.Sectors(), vol.g, chain0, chain);
      SettleAt(clst, left, i);
    }

    /** The position at offset left of cluster i, which is the current one. */
    method SettleAt(clst: nat, left: nat, ghost i: nat)
      requires OnVolume() && i < |chain| && curr == chain[i] && fptr == ClusterStart(vol.g, i)
      requires 0 < left <= 512 * vol.g.csize
      requires clst == curr || left == 512 * vol.g.csize
      modifies this`fptr, this`csect, this`dsect
      ensures OnVolume() && InPlace() && fptr == old(fptr) + left <= 512 * Capacity(vol.g, chain)
      ensures i == |chain| - 1 && left == 512 * vol.g.csize ==> fptr == 512 * Capacity(vol.g, chain)
    {
      hide Allocation, Volume.Coherent, Volume.Sectors, TableIn, Positioned, Capacity, ClusterStart, Clusters, Linked;
      OwnChain();
      if i == |chain| - 1 {
        EndOfLast(vol.g, chain, i);
      }
      var nsect := 0;
      fptr := fptr + left;
      csect := left / 512;
      WholeCluster(left, vol.g.csize);
      if left % 512 != 0 {
        nsect := vol.Clust2Sect(clst);
        InRange(vol.g, chain, i);
        assert nsect != 0;
        nsect := nsect + csect;
        csect := csect + 1;
      }
      SeekPosition(vol.g, chain, i, left, csect, nsect);
      NoPart(vol.g, chain, fptr, curr, csect, nsect, dsect);
      if fptr % 512 != 0 && nsect != dsect {
        dsect := nsect;
      }
    }

    /** Fewer bytes of the file are the first ones of more. */
    lemma BytesPrefix(m: nat, n: nat)
      requires vol.g.csize > 0 && m <= n
      ensures Bytes(n)[..m] == Bytes(m)
    {
    }

    /** Gives back all clusters of the file. */
    method RemoveAll() returns (ok: bool)
      requires OnVolume() && chain != []
      modifies vol`disk, vol`win, vol`winsect, vol`wflag, vol`freeClust, vol`fsiFlag, this`org, this`chain
      ensures OnVolume() && SameOutside(old(vol.Sectors()), vol.Sectors(), vol.g)
      ensures (old(vol.Counted()) ==> vol.Counted())
      ensures ok && chain == []
      ensures FreeClusters(vol.Clusters()) == old(FreeClusters(vol.Clusters())) + Members(old(chain))
    {
      hide Allocation, Volume.Coherent, Volume.Sectors, TableIn, Clusters, SameOutside, FreeClusters, Removed,
           MeetsError;
      OwnChain();
      ChainFacts(vol.g, vol.Clusters(), Chains(), chain);
      AllocationWithout(vol.Clusters(), vol.g.maxClust, Chains(), chain);
      assert Chains() - {chain} == others;
      ok := vol.RemoveChain(org);
      org := 0;
      chain := [];
    }

    /** Gives back the clusters of the file behind the first n, the last of which is curr. */
    method RemoveBehind(ghost n: nat) returns (ok: bool)
      requires OnVolume() && 0 < n <= |chain| && curr == chain[n - 1]
      modifies vol`disk, vol`win, vol`winsect, vol`wflag, vol`freeClust, vol`fsiFlag, this`chain
      ensures OnVolume() && SameOutside(old(vol.Sectors()), vol.Sectors(), vol.g)
      ensures (old(vol.Counted()) ==> vol.Counted())
      ensures ok && chain == old(chain)[..n]
      ensures FreeClusters(vol.Clusters()) == old(FreeClusters(vol.Clusters())) + Members(old(chain)[n..])
    {
      hide Allocation, Volume.Coherent, Volume.Sectors, TableIn, Clusters, SameOutside, FreeClusters, Removed,
           MeetsError,
           Geometry.EndMark, Geometry.Values, IsChain;
      OwnChain();
      EndAbove(vol.g);
      OutsideSelf(vol.Sectors(), vol.g);
      ghost var f, d := vol.Clusters(), vol.Sectors();
      LinkAt(vol.g, f, chain, others, n);
      var ncl := vol.LookUp(curr);
      ok := ncl != 1;
      if ok && ncl < vol.g.maxClust {
        CutChain(vol.g, f, chain, others, n);
        vol.SetFat(curr, 0x0FFF_FFFF);
        ghost var d' := vol.Sectors();
        FreeCountStays(f, curr, vol.g.EndMark());
        ok := vol.RemoveChain(ncl);
        OutsideTwice(d, d', vol.Sectors(), vol.g);
        chain := chain[..n];
      } else {
        assert chain[..n] == chain && chain[n..] == [];
      }
    }

    /** Gives back the clusters behind the position. */
    method CutOff() returns (ok: bool)
      requires OnVolume() && InPlace() && chain != []
      modifies vol`disk, vol`win, vol`winsect, vol`wflag, vol`freeClust, vol`fsiFlag, this`org, this`chain
      ensures OnVolume() && InPlace() && SameOutside(old(vol.Sectors()), vol.Sectors(), vol.g)
      ensures (old(vol.Counted()) ==> vol.Counted())
      ensures ok && ClustersFor(vol.g, fptr) <= |old(chain)| && chain == old(chain)[..ClustersFor(vol.g, fptr)]
      ensures FreeClusters(vol.Clusters()) == old(FreeClusters(vol.Clusters())) + Members(old(chain)[|chain|..])
      ensures Bytes(fptr) == old(Bytes(fptr)) && fptr <= 512 * Capacity(vol.g, chain)
    {
      hide OnVolume, Volume.Coherent, Volume.Sectors, Volume.Clusters, Volume.Counted, TableIn, Positioned, Capacity,
           Content,
           SameOutside, FreeClusters, Clusters, Members;
      OwnChain();
      ghost var d, chain0, n := vol.Sectors(), chain, ClustersFor(vol.g, fptr);
      if fptr == 0 {
        StillPositioned(vol.g, chain0, 0, fptr, curr, csect, dsect);
        assert chain0[..0] == [] && chain0[0..] == chain0;
        ok := RemoveAll();
      } else {
        CurrentCluster(vol.g, chain, fptr, curr, csect, dsect);
        StillPositioned(vol.g, chain0, n, fptr, curr, csect, dsect);
        ok := RemoveBehind(n);
      }
      OwnChain();
      NoPart(vol.g, chain, fptr, curr, csect, dsect, dsect);
      BytesStay2(d, vol.Sectors(), vol.g, chain0, chain, fptr);
    }

    /** Cuts the file off at the position. */
    method Truncate() returns (res: FileResult)
      requires Valid()
      modifies vol`disk, vol`win, vol`winsect, vol`wflag, vol`freeClust, vol`fsiFlag, this`org, this`fsize,
               this`written, this`aborted, this`chain
      ensures Valid() && (old(vol.Counted()) ==> vol.Counted()) && aborted == old(aborted)
      ensures res == if aborted then InternalError else if !canWrite then Denied else Success
      ensures res != Success ==> fsize == old(fsize) && chain == old(chain) && vol.Sectors() == old(vol.Sectors())
      ensures res == Success ==> fsize == fptr && Data() == old(Data())[..fptr]
      ensures res == Success && fptr < old(fsize) ==> |chain| == ClustersFor(vol.g, fptr)
      ensures chain <= old(chain) && (res != Success || fptr == old(fsize) ==> chain == old(chain))
      ensures FreeClusters(vol.Clusters()) == old(FreeClusters(vol.Clusters())) + Members(old(chain)[|chain|..])
      ensures SameOutside(old(vol.Sectors()), vol.Sectors(), vol.g)
      ensures FilesKept(old(vol.Sectors()), vol.Sectors(), vol.g, others)
    {
      hide OnVolume, Volume.Coherent, Volume.Sectors, Volume.Clusters, Volume.Counted, TableIn, Positioned, Capacity,
           Content,
           SameOutside, OthersKept, FreeClusters, FilesKept, Clusters, Members;
      OwnChain();
      ghost var d, chain0, data := vol.Sectors(), chain, Data();
      OutsideSelf(d, vol.g);
      OthersKeptOutside(d, d, vol.g, chain);
      OthersAre(d);
      NoneFreed(chain);
      if aborted {
        return InternalError;
      }
      if !canWrite {
        return Denied;
      }
      var ok := true;
      if fsize > fptr {
        HasClusters(vol.g, chain, fsize);
        BytesPrefix(fptr, fsize);
        fsize := fptr;
        written := true;
        ok := CutOff();
        OthersKeptOutside(d, vol.Sectors(), vol.g, chain);
        OthersAre(d);
      }
      res := Finish(ok);
    }

    /** After an error the file is not used any more. */
    method Finish(ok: bool) returns (res: FileResult)
      modifies this`aborted
      ensures aborted == (old(aborted) || !ok) && res == if ok then Success else InternalError
    {
      res := Success;
      if !ok {
        aborted := true;
        res := InternalError;
      }
    }
  }

  /** The clusters of a chain are linked in the table. */
  ghost predicate Linked(f: Table, chain: seq<nat>) {
    forall i :: 0 <= i < |chain| - 1 ==> chain[i] in f && f[chain[i]] == chain[i + 1]
  }

  /** How to come to the next sector of a file: by the table, when it begins a cluster. */
  lemma NextSector(g: Geometry, f: Table, chain: seq<nat>, fptr: nat, curr: nat, csect: nat, dsect: nat)
    requires g.Valid() && g.csize > 0 && Positioned(g, chain, fptr, curr, csect, dsect) && fptr % 512 == 0
    requires Clusters(g, chain) && Linked(f, chain) && fptr / 512 < Capacity(g, chain)
    ensures chain != []
    ensures csect >= g.csize && fptr != 0 ==> curr in f && 2 <= curr < g.maxClust
    ensures var c := if csect < g.csize then curr else if fptr == 0 then chain[0] else f[curr];
      var k := if csect < g.csize then csect else 0;
      && 2 <= c < g.maxClust && AtSector(g, chain, fptr / 512, c, k) && 0 < g.database
      && (c - 2) * g.csize + g.database + k == FileSector(g, chain, fptr / 512)
  {
    Boundary(g, chain, fptr, curr, csect, dsect);
    ClusterOfSector(g, chain, fptr / 512);
    FileSectorInData(g, chain, fptr / 512);
    if csect >= g.csize && fptr != 0 {
      var i := fptr / 512 / g.csize;
      assert f[chain[i - 1]] == chain[i - 1 + 1];
    }
  }
}
