/** The bytes of a file: those of the sectors of its clusters, one after the other. */
module FatContent {
  import opened Sequences
  import opened Bytes
  import opened FatEntries
  import opened FatChains
  import opened FatVolume

  /** Sector j of the file with the given chain of clusters. */
  function FileSector(g: Geometry, chain: seq<nat>, j: nat): nat
    requires g.csize > 0
  {
    if j / g.csize < |chain| && chain[j / g.csize] >= 2
    then (chain[j / g.csize] - 2) * g.csize + g.database + j % g.csize
    else 0
  }

  /** Byte k of the file. */
  function FileByte(d: Disk, g: Geometry, chain: seq<nat>, k: nat): Byte
    requires g.csize > 0
  {
    DiskByte(d, FileSector(g, chain, k / 512), k % 512)
  }

  /** The first n bytes of the file. */
  ghost function Content(d: Disk, g: Geometry, chain: seq<nat>, n: nat): (r: seq<Byte>)
    requires g.csize > 0
    ensures |r| == n
  {
    seq(n, k requires 0 <= k < n => FileByte(d, g, chain, k))
  }

  /** The clusters of a chain are in range, each of them once. */
  ghost predicate Clusters(g: Geometry, chain: seq<nat>) {
    Distinct(chain) && forall i :: 0 <= i < |chain| ==> 2 <= chain[i] < g.maxClust
  }

  /** The number of sectors of a chain. */
  function Capacity(g: Geometry, chain: seq<nat>): nat {
    |chain| * g.csize
  }

  function Most(a: nat, b: nat): nat {
    if a < b then b else a
  }

  lemma UniqueDivision(a: nat, r: nat, b: nat, s: nat, n: nat)
    requires a * n + r == b * n + s && r < n && s < n
    ensures a == b && r == s
  {
    Times(a + 1, b, n);
    Times(b + 1, a, n);
  }

  lemma Divided(a: nat, n: nat, r: nat)
    requires r < n
    ensures (a * n + r) / n == a && (a * n + r) % n == r
  {
    var x := a * n + r;
    var q, t := x / n, x % n;
    assert x == n * q + t;
    UniqueDivision(q, t, a, r, n);
  }

  lemma ClusterOfSector(g: Geometry, chain: seq<nat>, j: nat)
    requires g.csize > 0
    ensures j < Capacity(g, chain) <==> j / g.csize < |chain|
    ensures j == j / g.csize * g.csize + j % g.csize
  {
    var q, n := j / g.csize, g.csize;
    assert j == n * q + j % n;
    Times(q + 1, |chain|, n);
    Times(|chain|, q, n);
  }

  /** The sectors of a file lie in the data area. */
  lemma FileSectorInData(g: Geometry, chain: seq<nat>, j: nat)
    requires g.Valid() && Clusters(g, chain) && j < Capacity(g, chain)
    ensures DataSectors(g, FileSector(g, chain, j), 1) && j / g.csize < |chain|
    ensures FileSector(g, chain, j) == (chain[j / g.csize] - 2) * g.csize + g.database + j % g.csize
  {
    ClusterOfSector(g, chain, j);
    var c := chain[j / g.csize];
    Times(c - 1, g.maxClust - 2, g.csize);
    Times(c - 2, 0, g.csize);
  }

  /** Where sector j of a file is: sector r of its cluster a. */
  lemma Located(g: Geometry, chain: seq<nat>, j: nat) returns (a: nat, r: nat)
    requires g.Valid() && Clusters(g, chain) && j < Capacity(g, chain)
    ensures a < |chain| && r < g.csize && j == a * g.csize + r && 2 <= chain[a]
    ensures FileSector(g, chain, j) == (chain[a] - 2) * g.csize + g.database + r
  {
    ClusterOfSector(g, chain, j);
    FileSectorInData(g, chain, j);
    a, r := j / g.csize, j % g.csize;
  }

  lemma SameCluster(chain: seq<nat>, a: nat, b: nat)
    requires Distinct(chain) && a < |chain| && b < |chain| && chain[a] == chain[b]
    ensures a == b
  {
  }

  /** Different sectors of a file are different sectors of the volume. */
  lemma FileSectorsApart(g: Geometry, chain: seq<nat>, i: nat, j: nat)
    requires g.Valid() && Clusters(g, chain) && i < Capacity(g, chain) && j < Capacity(g, chain)
    requires FileSector(g, chain, i) == FileSector(g, chain, j)
    ensures i == j
  {
    hide Geometry.Valid, FileSector, Capacity;
    var a, r := Located(g, chain, i);
    var b, s := Located(g, chain, j);
    UniqueDivision(chain[a] - 2, r, chain[b] - 2, s, g.csize);
    SameCluster(chain, a, b);
  }

  /** Within a cluster, sectors of the file follow each other on the volume. */
  lemma Consecutive(g: Geometry, chain: seq<nat>, j: nat, i: nat)
    requires g.Valid() && Clusters(g, chain) && j < Capacity(g, chain) && j % g.csize + i < g.csize
    ensures j + i < Capacity(g, chain) && FileSector(g, chain, j + i) == FileSector(g, chain, j) + i
  {
    ClusterOfSector(g, chain, j);
    FileSectorInData(g, chain, j);
    var n, a, r := g.csize, j / g.csize, j % g.csize;
    hide Geometry.Valid, FileSector, Capacity;
    Divided(a, n, r + i);
    assert j + i == a * n + (r + i);
    ClusterOfSector(g, chain, j + i);
    FileSectorInData(g, chain, j + i);
  }

  /** Changes outside of the data area do not change a file. */
  lemma ContentOutside(d: Disk, d': Disk, g: Geometry, chain: seq<nat>, n: nat)
    requires g.Valid() && Clusters(g, chain) && SameOutside(d, d', g) && n <= 512 * Capacity(g, chain)
    ensures Content(d', g, chain, n) == Content(d, g, chain, n)
  {
    hide Geometry.Valid, FileSector, Capacity;
    TableBeforeData(g);
    forall k | 0 <= k < n ensures FileByte(d', g, chain, k) == FileByte(d, g, chain, k) {
      FileSectorInData(g, chain, k / 512);
    }
  }

  lemma TableBeforeData(g: Geometry)
    requires g.Valid()
    ensures g.fatbase + g.sectsFat <= g.database && 0 < g.csize
  {
    Times(1, g.nFats, g.sectsFat);
  }

  lemma SectorOfLonger(g: Geometry, chain: seq<nat>, chain': seq<nat>, j: nat)
    requires g.csize > 0 && j < Capacity(g, chain) && chain <= chain'
    ensures FileSector(g, chain', j) == FileSector(g, chain, j) && j < Capacity(g, chain')
  {
    ClusterOfSector(g, chain, j);
    ClusterOfSector(g, chain', j);
    hide Capacity;
  }

  /** A file reads the same when its chain is longer. */
  lemma ContentPrefix(d: Disk, g: Geometry, chain: seq<nat>, chain': seq<nat>, n: nat)
    requires g.csize > 0 && n <= 512 * Capacity(g, chain) && chain <= chain'
    ensures Content(d, g, chain', n) == Content(d, g, chain, n)
  {
    hide Capacity, FileSector;
    forall k | 0 <= k < n ensures FileByte(d, g, chain', k) == FileByte(d, g, chain, k) {
      SectorOfByte(k, k / 512);
      SectorOfLonger(g, chain, chain', k / 512);
    }
  }

  /** Sectors of the volume, read from where sector j of a file is, are the file's. */
  lemma ContentRead(d: Disk, g: Geometry, chain: seq<nat>, j: nat, cc: nat, n: nat)
    requires g.Valid() && Clusters(g, chain) && 0 < cc && j % g.csize + cc <= g.csize && j < Capacity(g, chain)
    requires 512 * (j + cc) <= n
    ensures BytesOf(d, FileSector(g, chain, j), cc) == Content(d, g, chain, n)[512 * j..512 * (j + cc)]
    ensures DataSectors(g, FileSector(g, chain, j), cc)
  {
    hide Geometry.Valid, FileSector, Capacity, DiskByte;
    TableBeforeData(g);
    forall k | 0 <= k < 512 * cc
      ensures DiskByte(d, FileSector(g, chain, j) + k / 512, k % 512) == FileByte(d, g, chain, 512 * j + k)
    {
      Consecutive(g, chain, j, k / 512);
      assert (512 * j + k) / 512 == j + k / 512 && (512 * j + k) % 512 == k % 512;
    }
    Consecutive(g, chain, j, cc - 1);
    FileSectorInData(g, chain, j);
    FileSectorInData(g, chain, j + cc - 1);
  }

  lemma ContentPart(d: Disk, g: Geometry, chain: seq<nat>, j: nat, o: nat, m: nat, n: nat)
    requires g.csize > 0 && FileSector(g, chain, j) in d && o + m <= 512 && 512 * j + o + m <= n
    ensures d[FileSector(g, chain, j)][o..o + m] == Content(d, g, chain, n)[512 * j + o..512 * j + o + m]
  {
    hide FileSector;
    var s := d[FileSector(g, chain, j)][o..o + m];
    forall k | 0 <= k < m ensures s[k] == FileByte(d, g, chain, 512 * j + o + k) {
      assert (512 * j + o + k) / 512 == j && (512 * j + o + k) % 512 == o + k;
    }
  }

  /** The contents with the bytes b from position p on. */
  ghost function Overwritten(data: seq<Byte>, p: nat, b: seq<Byte>): seq<Byte>
    requires p <= |data|
  {
    data[..p] + b + if p + |b| <= |data| then data[p + |b|..] else []
  }

  /** Bytes of the file change from position p on, to b; the file reaches at least to there. */
  lemma ContentWritten(d: Disk, d': Disk, g: Geometry, chain: seq<nat>, n: nat, p: nat, b: seq<Byte>)
    requires g.csize > 0 && p <= n
    requires forall k :: 0 <= k < n && (k < p || p + |b| <= k) ==> FileByte(d', g, chain, k) == FileByte(d, g, chain, k)
    requires forall k :: 0 <= k < |b| ==> FileByte(d', g, chain, p + k) == b[k]
    ensures Content(d', g, chain, Most(n, p + |b|)) == Overwritten(Content(d, g, chain, n), p, b)
  {
    hide FileByte;
    var n' := if n < p + |b| then p + |b| else n;
    var r := Overwritten(Content(d, g, chain, n), p, b);
    forall k | 0 <= k < n' ensures FileByte(d', g, chain, k) == r[k] {
      if p <= k < p + |b| {
        assert FileByte(d', g, chain, p + (k - p)) == b[k - p];
      }
    }
  }

  /** The sectors outside of the table that are not those of the file are the same. */
  ghost predicate OthersKept(d: Disk, d': Disk, g: Geometry, chain: seq<nat>)
    requires g.csize > 0
  {
    && d'.Keys == d.Keys
    && forall s :: s in d && !(g.fatbase <= s < g.fatbase + g.sectsFat) && !OwnSector(g, chain, s) ==> d'[s] == d[s]
  }

  ghost predicate OwnSector(g: Geometry, chain: seq<nat>, s: nat)
    requires g.csize > 0
  {
    exists j :: 0 <= j < Capacity(g, chain) && s == FileSector(g, chain, j)
  }

  lemma OthersKeptTwice(d: Disk, d': Disk, d'': Disk, g: Geometry, chain: seq<nat>)
    requires g.csize > 0 && OthersKept(d, d', g, chain) && OthersKept(d', d'', g, chain)
    ensures OthersKept(d, d'', g, chain)
  {
  }

  lemma OthersKeptOutside(d: Disk, d': Disk, g: Geometry, chain: seq<nat>)
    requires g.Valid() && SameOutside(d, d', g)
    ensures g.csize > 0 && OthersKept(d, d', g, chain)
  {
    TableBeforeData(g);
  }

  /** A longer chain has the sectors of the shorter one. */
  lemma OthersKeptLonger(d: Disk, d': Disk, g: Geometry, chain: seq<nat>, chain': seq<nat>)
    requires g.csize > 0 && chain <= chain' && OthersKept(d, d', g, chain)
    ensures OthersKept(d, d', g, chain')
  {
    hide Capacity, FileSector;
    forall s | OwnSector(g, chain, s) ensures OwnSector(g, chain', s) {
      var j :| 0 <= j < Capacity(g, chain) && s == FileSector(g, chain, j);
      SectorOfLonger(g, chain, chain', j);
    }
  }

  /** What is written to one file does not change another one. */
  lemma OtherFile(d: Disk, d': Disk, g: Geometry, chain: seq<nat>, other: seq<nat>, n: nat)
    requires g.Valid() && Clusters(g, chain) && Clusters(g, other) && Members(chain) !! Members(other)
    requires g.csize > 0 && OthersKept(d, d', g, chain) && n <= 512 * Capacity(g, other)
    ensures Content(d', g, other, n) == Content(d, g, other, n)
  {
    hide Geometry.Valid, FileSector, Capacity;
    TableBeforeData(g);
    forall k | 0 <= k < n ensures FileByte(d', g, other, k) == FileByte(d, g, other, k) {
      FileSectorInData(g, other, k / 512);
      if OwnSector(g, chain, FileSector(g, other, k / 512)) {
        var j :| 0 <= j < Capacity(g, chain) && FileSector(g, other, k / 512) == FileSector(g, chain, j);
        FilesApart(g, chain, other, j, k / 512);
      }
    }
  }

  /** The contents of the files on the given chains are the same. */
  ghost predicate FilesKept(d: Disk, d': Disk, g: Geometry, files: set<seq<nat>>)
    requires g.csize > 0
  {
    forall t, n :: t in files && 0 <= n <= 512 * Capacity(g, t) ==> Content(d', g, t, n) == Content(d, g, t, n)
  }

  lemma OtherFiles(d: Disk, d': Disk, g: Geometry, f: Table, chain: seq<nat>, others: set<seq<nat>>)
    requires g.Valid() && g.csize > 0 && OthersKept(d, d', g, chain)
    requires Allocation(f, g.maxClust, WithOthers(chain, others)) && (chain == [] || chain !in others)
    ensures FilesKept(d, d', g, others)
  {
    hide Geometry.Valid, Capacity, Content, OthersKept;
    forall t, n | t in others && 0 <= n <= 512 * Capacity(g, t) ensures Content(d', g, t, n) == Content(d, g, t, n) {
      assert t in WithOthers(chain, others) && IsChain(f, g.maxClust, t);
      assert chain == [] || chain in WithOthers(chain, others);
      OtherFile(d, d', g, chain, t, n);
    }
  }

  lemma FilesApart(g: Geometry, chain: seq<nat>, other: seq<nat>, i: nat, j: nat)
    requires g.Valid() && Clusters(g, chain) && Clusters(g, other) && Members(chain) !! Members(other)
    requires i < Capacity(g, chain) && j < Capacity(g, other)
    ensures FileSector(g, chain, i) != FileSector(g, other, j)
  {
    hide Geometry.Valid, FileSector, Capacity;
    var a, r := Located(g, chain, i);
    var b, s := Located(g, other, j);
    assert chain[a] in Members(chain) && other[b] in Members(other);
    if (chain[a] - 2) * g.csize + r == (other[b] - 2) * g.csize + s {
      UniqueDivision(chain[a] - 2, r, other[b] - 2, s, g.csize);
    }
  }

  /** A byte of the file after sectors of it are written. */
  lemma ByteAfterPut(d: Disk, g: Geometry, chain: seq<nat>, j: nat, cc: nat, bytes: seq<Byte>, k: nat)
    requires g.Valid() && Clusters(g, chain) && 0 < cc && j < Capacity(g, chain) && |bytes| == 512 * cc
    requires g.csize > 0 && j % g.csize + cc <= g.csize && k < 512 * Capacity(g, chain)
    requires forall s: nat :: g.database <= s < g.total ==> s in d
    ensures FileByte(SectorsPut(d, FileSector(g, chain, j), cc, bytes), g, chain, k)
         == if 512 * j <= k < 512 * (j + cc) then bytes[k - 512 * j] else FileByte(d, g, chain, k)
  {
    hide Geometry.Valid, FileSector, Capacity, SectorsPut, DiskByte, Clusters;
    var i, s := k / 512, FileSector(g, chain, j);
    FileSectorInData(g, chain, i);
    ByteOfPut(d, s, cc, bytes, FileSector(g, chain, i), k % 512);
    SectorOfByte(k, i);
    if j <= i < j + cc {
      Consecutive(g, chain, j, i - j);
    } else if s <= FileSector(g, chain, i) < s + cc {
      var m := FileSector(g, chain, i) - s;
      Consecutive(g, chain, j, m);
      FileSectorsApart(g, chain, i, j + m);
    }
  }

  lemma ByteOfPut(d: Disk, s: nat, cc: nat, bytes: seq<Byte>, x: nat, o: nat)
    requires |bytes| == 512 * cc && o < 512 && x in d
    ensures DiskByte(SectorsPut(d, s, cc, bytes), x, o) ==
      if s <= x < s + cc then bytes[512 * (x - s) + o] else DiskByte(d, x, o)
  {
  }

  lemma PutKeepsOthers(d: Disk, g: Geometry, chain: seq<nat>, j: nat, cc: nat, bytes: seq<Byte>)
    requires g.Valid() && Clusters(g, chain) && 0 < cc && j < Capacity(g, chain) && |bytes| == 512 * cc
    requires g.csize > 0 && j % g.csize + cc <= g.csize
    ensures OthersKept(d, SectorsPut(d, FileSector(g, chain, j), cc, bytes), g, chain)
    ensures DataSectors(g, FileSector(g, chain, j), cc) && j + cc <= Capacity(g, chain)
  {
    hide Geometry.Valid, FileSector, Capacity;
    var s := FileSector(g, chain, j);
    forall x | s <= x < s + cc ensures OwnSector(g, chain, x) {
      Consecutive(g, chain, j, x - s);
    }
    Consecutive(g, chain, j, cc - 1);
    FileSectorInData(g, chain, j);
    FileSectorInData(g, chain, j + cc - 1);
  }

  /** Whole sectors of the file are written. */
  lemma SectorsWritten(d: Disk, g: Geometry, chain: seq<nat>, j: nat, cc: nat, bytes: seq<Byte>, n: nat)
    requires g.Valid() && Clusters(g, chain) && 0 < cc && j < Capacity(g, chain) && |bytes| == 512 * cc
    requires g.csize > 0 && j % g.csize + cc <= g.csize && 512 * j <= n <= 512 * Capacity(g, chain)
    requires forall s: nat :: g.database <= s < g.total ==> s in d
    ensures var d' := SectorsPut(d, FileSector(g, chain, j), cc, bytes);
      && OthersKept(d, d', g, chain) && DataSectors(g, FileSector(g, chain, j), cc) && j + cc <= Capacity(g, chain)
      && Content(d', g, chain, Most(n, 512 * j + |bytes|)) == Overwritten(Content(d, g, chain, n), 512 * j, bytes)
  {
    hide Geometry.Valid, FileSector, Capacity, FileByte, SectorsPut;
    PutKeepsOthers(d, g, chain, j, cc, bytes);
    var d' := SectorsPut(d, FileSector(g, chain, j), cc, bytes);
    forall k | 0 <= k < n && (k < 512 * j || 512 * j + |bytes| <= k)
      ensures FileByte(d', g, chain, k) == FileByte(d, g, chain, k)
    {
      ByteAfterPut(d, g, chain, j, cc, bytes, k);
    }
    forall k | 0 <= k < |bytes| ensures FileByte(d', g, chain, 512 * j + k) == bytes[k] {
      ByteAfterPut(d, g, chain, j, cc, bytes, 512 * j + k);
    }
    ContentWritten(d, d', g, chain, n, 512 * j, bytes);
  }

  /** A byte of the file after one sector of it has changed. */
  lemma ByteAfterChange(d: Disk, g: Geometry, chain: seq<nat>, j: nat, s': Sector, k: nat)
    requires g.Valid() && Clusters(g, chain) && j < Capacity(g, chain) && FileSector(g, chain, j) in d
    requires g.csize > 0 && k < 512 * Capacity(g, chain)
    ensures FileByte(d[FileSector(g, chain, j) := s'], g, chain, k) ==
      if k / 512 == j then s'[k % 512] else FileByte(d, g, chain, k)
  {
    hide Geometry.Valid, FileSector, Capacity;
    if FileSector(g, chain, k / 512) == FileSector(g, chain, j) {
      FileSectorsApart(g, chain, k / 512, j);
    }
  }

  lemma ChangeKeepsOthers(d: Disk, g: Geometry, chain: seq<nat>, j: nat, s': Sector)
    requires g.csize > 0 && j < Capacity(g, chain) && FileSector(g, chain, j) in d
    ensures OthersKept(d, d[FileSector(g, chain, j) := s'], g, chain)
  {
    hide FileSector, Capacity;
    assert OwnSector(g, chain, FileSector(g, chain, j));
  }

  /** A part of a sector of the file is written. */
  lemma PartWritten(d: Disk, g: Geometry, chain: seq<nat>, j: nat, o: nat, bytes: seq<Byte>, n: nat)
    requires g.Valid() && Clusters(g, chain) && j < Capacity(g, chain) && 0 < |bytes| && o + |bytes| <= 512
    requires g.csize > 0
    requires FileSector(g, chain, j) in d && 512 * j + o <= n <= 512 * Capacity(g, chain)
    ensures var s := FileSector(g, chain, j); var d' := d[s := Patched(d[s], o, bytes)];
      var end := 512 * j + o + |bytes|;
      && OthersKept(d, d', g, chain) && end <= 512 * Capacity(g, chain)
      && Content(d', g, chain, Most(n, end)) == Overwritten(Content(d, g, chain, n), 512 * j + o, bytes)
  {
    hide Geometry.Valid, FileSector, FileByte;
    var s := FileSector(g, chain, j);
    var s' := Patched(d[s], o, bytes);
    var d', p := d[s := s'], 512 * j + o;
    ChangeKeepsOthers(d, g, chain, j, s');
    hide Capacity;
    forall k | 0 <= k < n && (k < p || p + |bytes| <= k) ensures FileByte(d', g, chain, k) == FileByte(d, g, chain, k) {
      ByteAfterChange(d, g, chain, j, s', k);
      if k / 512 == j {
        ByteIs(d, g, chain, k);
        SectorOfByte(k, j);
      }
    }
    forall k | 0 <= k < |bytes| ensures FileByte(d', g, chain, p + k) == bytes[k] {
      SectorOfByte(p + k, j);
      ByteAfterChange(d, g, chain, j, s', p + k);
    }
    ContentWritten(d, d', g, chain, n, p, bytes);
  }

  lemma ByteIs(d: Disk, g: Geometry, chain: seq<nat>, k: nat)
    requires g.csize > 0 && FileSector(g, chain, k / 512) in d
    ensures FileByte(d, g, chain, k) == d[FileSector(g, chain, k / 512)][k % 512]
  {
  }

  /** The sector behind the end of the file may hold anything. */
  lemma SectorGrabbed(d: Disk, g: Geometry, chain: seq<nat>, j: nat, win: Sector)
    requires g.Valid() && Clusters(g, chain) && j < Capacity(g, chain) && FileSector(g, chain, j) in d && g.csize > 0
    ensures var d' := d[FileSector(g, chain, j) := win];
      OthersKept(d, d', g, chain) && Content(d', g, chain, 512 * j) == Content(d, g, chain, 512 * j)
  {
    hide Geometry.Valid, FileSector, FileByte, Capacity;
    ChangeKeepsOthers(d, g, chain, j, win);
    forall k | 0 <= k < 512 * j
      ensures FileByte(d[FileSector(g, chain, j) := win], g, chain, k) == FileByte(d, g, chain, k)
    {
      ByteAfterChange(d, g, chain, j, win, k);
    }
  }

  /** Changes of the data area do not change the table. */
  lemma TableKept(d: Disk, d': Disk, g: Geometry)
    requires g.Valid() && d'.Keys == d.Keys && forall s :: s in d && s < g.database ==> d'[s] == d[s]
    ensures TableIn(d', g) == TableIn(d, g)
  {
    hide Geometry.Valid, Geometry.Offset;
    forall k: nat | k < g.sectsFat * 512 ensures TableByte(d', g, k) == TableByte(d, g, k) {
      TableBeforeData(g);
      SectorOfByte(k, k / 512);
    }
    hide TableByte;
    forall c | 2 <= c < g.maxClust ensures Entry(d', g, c) == Entry(d, g, c) {
      EntryInTable(g, c);
    }
  }
}
