/** How a FAT volume is laid out, and how the entries of its allocation table are packed into bytes. */
module FatEntries {

  import opened Bytes

  /** The contents of one sector. */
  type Sector = s: seq<Byte> | |s| == 512 witness seq(512, i => 0)

  /** The contents of the sectors of a volume. */
  type Disk = map<nat, Sector>

  datatype FatType = Fat12 | Fat16 | Fat32

  /** Where things are on the volume: the first copy of the table, its size in sectors, the number of
      copies, the first data sector, sectors per cluster, one more than the largest cluster number,
      and the number of sectors. */
  datatype Geometry = Geometry(fatType: FatType, fatbase: nat, sectsFat: nat, nFats: nat, database: nat,
                               csize: nat, maxClust: nat, total: nat)
  {
    /** The largest cluster number plus one is below what marks the end of a chain. */
    function EndMark(): nat {
      match fatType
      case Fat12 => 0xFFF
      case Fat16 => 0xFFFF
      case Fat32 => 0x0FFF_FFFF
    }

    /** The number of values of an entry. */
    function Values(): nat {
      EndMark() + 1
    }

    /** The number of bytes that the entries below c take up. */
    function Offset(c: nat): nat {
      match fatType
      case Fat12 => c + c / 2
      case Fat16 => 2 * c
      case Fat32 => 4 * c
    }

    ghost predicate Valid() {
      && 1 <= fatbase && 1 <= sectsFat && 1 <= nFats && fatbase + nFats * sectsFat <= database
      && csize in {1, 2, 4, 8, 16, 32, 64, 128} && 3 <= maxClust <= EndMark()
      && database + (maxClust - 2) * csize <= total
      && total <= 0x1_0000_0000 && Offset(maxClust) + 1 <= sectsFat * 512
    }

    /** The second and further copies of the table. */
    predicate Mirrored(s: nat) {
      fatbase + sectsFat <= s < fatbase + nFats * sectsFat
    }
  }

  /** Byte k of the table. */
  function TableByte(d: Disk, g: Geometry, k: nat): Byte {
    var s := g.fatbase + k / 512;
    if s in d then d[s][k % 512] else 0
  }

  /** The entry of cluster c. */
  function Entry(d: Disk, g: Geometry, c: nat): nat {
    var k := g.Offset(c);
    match g.fatType
    case Fat12 =>
      var wc := TableByte(d, g, k) + 0x100 * TableByte(d, g, k + 1);
      if c % 2 == 1 then wc / 0x10 else wc % 0x1000
    case Fat16 => TableByte(d, g, k) + 0x100 * TableByte(d, g, k + 1)
    case Fat32 =>
      (TableByte(d, g, k) + 0x100 * TableByte(d, g, k + 1) + 0x1_0000 * TableByte(d, g, k + 2)
       + 0x100_0000 * TableByte(d, g, k + 3)) % 0x1000_0000
  }

  /** The low and the high byte of a FAT12 entry after value val is put into it; b is what was there. */
  function Low12(c: nat, val: nat, b: Byte): Byte {
    if c % 2 == 1 then b % 0x10 + val % 0x10 * 0x10 else val % 0x100
  }

  function High12(c: nat, val: nat, b: Byte): Byte {
    if c % 2 == 1 then val / 0x10 % 0x100 else b / 0x10 * 0x10 + val / 0x100 % 0x10
  }

  /** The value of a FAT12 entry in its two bytes. */
  function Value12(c: nat, b0: Byte, b1: Byte): nat {
    if c % 2 == 1 then (b0 + 0x100 * b1) / 0x10 else (b0 + 0x100 * b1) % 0x1000
  }

  /** Two bytes of a FAT12 entry, put together again. */
  lemma Packed12(c: nat, val: nat, b0: Byte, b1: Byte)
    ensures Value12(c, Low12(c, val, b0), High12(c, val, b1)) == val % 0x1000
  {
    if c % 2 == 1 {
      NibbleFirst(val);
      UpperPart(b0 % 0x10, val % 0x10 + 0x10 * (val / 0x10 % 0x100));
    } else {
      ByteFirst(val);
      LowerPart(val % 0x100 + 0x100 * (val / 0x100 % 0x10), b1 / 0x10);
    }
  }

  lemma NibbleFirst(val: nat)
    ensures val % 0x1000 == val % 0x10 + 0x10 * (val / 0x10 % 0x100)
  {
  }

  lemma ByteFirst(val: nat)
    ensures val % 0x1000 == val % 0x100 + 0x100 * (val / 0x100 % 0x10)
  {
  }

  lemma UpperPart(x: nat, y: nat)
    requires x < 0x10
    ensures (x + 0x10 * y) / 0x10 == y
  {
  }

  lemma LowerPart(x: nat, y: nat)
    requires x < 0x1000
    ensures (x + 0x1000 * y) % 0x1000 == x
  {
  }

  /** The entry that shares a byte with the one before: the upper half of the shared byte stays. */
  lemma SharedLow(e: nat, val: nat, b0: Byte, b1: Byte)
    requires e % 2 == 1
    ensures Value12(e, High12(e - 1, val, b0), b1) == Value12(e, b0, b1)
  {
    UpperPart(val / 0x100 % 0x10, b0 / 0x10 + 0x10 * b1);
    UpperPart(b0 % 0x10, b0 / 0x10 + 0x10 * b1);
  }

  /** The entry that shares a byte with the next one: the lower half of the shared byte stays. */
  lemma SharedHigh(e: nat, val: nat, b0: Byte, b1: Byte)
    requires e % 2 == 0
    ensures Value12(e, b0, Low12(e + 1, val, b1)) == Value12(e, b0, b1)
  {
    LowerPart(b0 + 0x100 * (b1 % 0x10), val % 0x10);
    LowerPart(b0 + 0x100 * (b1 % 0x10), b1 / 0x10);
  }

  /** What byte k of the table is after val is put into the entry of cluster c. */
  function PutByte(d: Disk, g: Geometry, c: nat, val: nat, k: nat): Byte {
    var o := g.Offset(c);
    var b := TableByte(d, g, k);
    match g.fatType
    case Fat12 => if k == o then Low12(c, val, b) else if k == o + 1 then High12(c, val, b) else b
    case Fat16 => if o <= k < o + 2 then ValueByte(val, k - o) else b
    case Fat32 => if o <= k < o + 4 then ValueByte(val, k - o) else b
  }

  lemma PutEntry12(d: Disk, d': Disk, g: Geometry, c: nat, val: nat, e: nat)
    requires g.fatType == Fat12 && c < g.maxClust && e < g.maxClust
    requires forall k :: 0 <= k < g.Offset(g.maxClust) + 1 ==> TableByte(d', g, k) == PutByte(d, g, c, val, k)
    ensures Entry(d', g, e) == if e == c then val % 0x1000 else Entry(d, g, e)
  {
    hide TableByte, Low12, High12, Value12;
    var k := g.Offset(e);
    var b0, b1 := TableByte(d, g, k), TableByte(d, g, k + 1);
    EntryIs12(d, g, e);
    EntryIs12(d', g, e);
    assert k + 1 < g.Offset(g.maxClust) + 1;
    if e == c {
      Packed12(c, val, b0, b1);
    } else if e == c + 1 && e % 2 == 1 {
      SharedLow(e, val, b0, b1);
    } else if c == e + 1 && e % 2 == 0 {
      SharedHigh(e, val, b0, b1);
    } else {
      assert k + 1 < g.Offset(c) || g.Offset(c) + 1 < k;
    }
  }

  lemma EntryIs12(d: Disk, g: Geometry, e: nat)
    requires g.fatType == Fat12
    ensures Entry(d, g, e) == Value12(e, TableByte(d, g, g.Offset(e)), TableByte(d, g, g.Offset(e) + 1))
  {
  }

  lemma PutEntry16(d: Disk, d': Disk, g: Geometry, c: nat, val: nat, e: nat)
    requires g.fatType == Fat16 && c < g.maxClust && e < g.maxClust
    requires forall k :: 0 <= k < g.Offset(g.maxClust) + 1 ==> TableByte(d', g, k) == PutByte(d, g, c, val, k)
    ensures Entry(d', g, e) == if e == c then val % 0x1_0000 else Entry(d, g, e)
  {
    hide TableByte, ValueByte;
    Packed16(val);
    var k := g.Offset(e);
    assert PutByte(d, g, c, val, k) == TableByte(d', g, k) && PutByte(d, g, c, val, k + 1) == TableByte(d', g, k + 1);
  }

  lemma PutEntry32(d: Disk, d': Disk, g: Geometry, c: nat, val: nat, e: nat)
    requires g.fatType == Fat32 && c < g.maxClust && e < g.maxClust && val < 0x1_0000_0000
    requires forall k :: 0 <= k < g.Offset(g.maxClust) + 1 ==> TableByte(d', g, k) == PutByte(d, g, c, val, k)
    ensures Entry(d', g, e) == if e == c then val % 0x1000_0000 else Entry(d, g, e)
  {
    hide TableByte, ValueByte;
    Packed32(val);
    var k := g.Offset(e);
    assert PutByte(d, g, c, val, k) == TableByte(d', g, k) && PutByte(d, g, c, val, k + 1) == TableByte(d', g, k + 1);
    assert PutByte(d, g, c, val, k + 2) == TableByte(d', g, k + 2)
      && PutByte(d, g, c, val, k + 3) == TableByte(d', g, k + 3);
  }

  /** Putting a value into an entry changes that entry to the value, as far as it has bits for it, and
      no other entry; in FAT12 neighbouring entries share a byte. */
  lemma PutEntry(d: Disk, d': Disk, g: Geometry, c: nat, val: nat, e: nat)
    requires val < 0x1_0000_0000 && c < g.maxClust && e < g.maxClust
    requires forall k :: 0 <= k < g.Offset(g.maxClust) + 1 ==> TableByte(d', g, k) == PutByte(d, g, c, val, k)
    ensures Entry(d', g, e) == if e == c then val % g.Values() else Entry(d, g, e)
  {
    hide TableByte, PutByte, Entry;
    match g.fatType
    case Fat12 => PutEntry12(d, d', g, c, val, e);
    case Fat16 => PutEntry16(d, d', g, c, val, e);
    case Fat32 => PutEntry32(d, d', g, c, val, e);
  }
}
