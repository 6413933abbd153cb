/** The 32-byte directory entry of a file and its place on the volume (src/fat/directory.h). */
module DirEntry {
  import opened Bytes
  import opened Arith
  import opened Volume
  import opened FatCodec
  import opened Chains
  import opened FileData
  import opened Growth

  // Offsets in an entry
  const NAME: nat := 0x00
  const EXTENSION: nat := 0x08
  const ATTRIBUTES: nat := 0x0B
  const CASE_INFO: nat := 0x0C
  const A_DATE: nat := 0x12
  const CLUSTER_HIGH: nat := 0x14
  const M_TIME: nat := 0x16
  const M_DATE: nat := 0x18
  const CLUSTER_LOW: nat := 0x1A
  const FILE_SIZE: nat := 0x1C

  /** The 32-byte slot `offset` of a sector of a directory's cluster, or of the fixed root directory. */
  datatype EntryPosition = EntryPosition(cluster: nat, sector: nat, offset: int)

  predicate OnVolume(g: Geometry, pos: EntryPosition) {
    && (if pos.cluster == CLUSTER_ROOT then pos.sector < g.dataStart - g.rootDirStart
        else g.IsValidCluster(pos.cluster) && pos.sector < g.spc)
    && 0 <= pos.offset < g.bps / DIR_ENTRY_DATA_SIZE
  }

  /** Where a slot is on the volume, in bytes. */
  function EntryAddress(g: Geometry, pos: EntryPosition): nat
    requires 0 <= pos.offset
  {
    Mul(g.ClusterToSector(pos.cluster) + pos.sector, g.bps) + pos.offset * DIR_ENTRY_DATA_SIZE
  }

  type Entry = e: seq<byte> | |e| == 32 witness Zeros(32)

  /** A little-endian field of an entry. */
  function Get(e: Entry, at: nat, size: nat): nat
    requires (size == 1 || size == 2 || size == 4) && at + size <= 32
  {
    LeValue(Sub(e, at, size))
  }

  function Put(e: Entry, at: nat, v: nat, size: nat): Entry
    requires (size == 1 || size == 2 || size == 4) && at + size <= 32
  {
    Splice(e, at, LeBytes(v, size))
  }

  function Width(size: nat): nat {
    if size == 1 then 0x100 else if size == 2 then 0x1_0000 else 0x1_0000_0000
  }

  lemma GetPut(e: Entry, at: nat, v: nat, size: nat, at': nat, size': nat)
    requires (size == 1 || size == 2 || size == 4) && at + size <= 32
    requires (size' == 1 || size' == 2 || size' == 4) && at' + size' <= 32
    ensures at' == at && size' == size ==> Get(Put(e, at, v, size), at', size') == v % Width(size)
    ensures at' + size' <= at || at + size <= at' ==> Get(Put(e, at, v, size), at', size') == Get(e, at', size')
  {
    hide Splice, Sub, LeBytes, LeValue;
    LeRoundTrip(v, size);
    SubOfSplice(e, at, LeBytes(v, size));
    if at' + size' <= at || at + size <= at' {
      SubOutside(e, at, LeBytes(v, size), at', size');
    }
  }

  function SizeOf(e: Entry): (n: nat)
    ensures n <= 0xFFFF_FFFF
  {
    Get(e, FILE_SIZE, 4)
  }

  /** The start cluster; the high half counts on a FAT32 volume only. */
  function StartOf(g: Geometry, e: Entry): nat {
    Get(e, CLUSTER_LOW, 2) + if g.fsType == FAT32 then 0x1_0000 * Get(e, CLUSTER_HIGH, 2) else 0
  }

  predicate IsDirectory(e: Entry) {
    e[ATTRIBUTES] / 0x10 % 2 == 1
  }

  predicate IsWritable(e: Entry) {
    e[ATTRIBUTES] % 2 == 0
  }

  /** `a |= ATTRIB_ARCH` */
  function Archived(a: byte): (r: byte) {
    if a / 0x20 % 2 == 1 then a else a + 0x20
  }

  /** What syncToDisc makes of an entry. */
  function Synced(e: Entry, size: nat, start: nat, time: nat, date: nat): Entry {
    var e1 := Put(e, FILE_SIZE, size, 4);
    var e2 := Put(e1, CLUSTER_LOW, start, 2);
    var e3 := Put(e2, CLUSTER_HIGH, start / 0x1_0000, 2);
    var e4 := Put(e3, M_TIME, time, 2);
    var e5 := Put(e4, M_DATE, date, 2);
    var e6 := Put(e5, A_DATE, date, 2);
    e6[ATTRIBUTES := Archived(e6[ATTRIBUTES])]
  }

  /** Size and start cluster can be read back from the entry; the name and the other attributes stay. */
  lemma SyncedFields(g: Geometry, e: Entry, size: nat, start: nat, time: nat, date: nat)
    requires g.Ok() && size <= 0xFFFF_FFFF && start <= g.lastCluster
    ensures var e' := Synced(e, size, start, time, date);
            SizeOf(e') == size && StartOf(g, e') == start
            && e'[..ATTRIBUTES] == e[..ATTRIBUTES] && e'[ATTRIBUTES] == Archived(e[ATTRIBUTES])
            && IsDirectory(e') == IsDirectory(e) && IsWritable(e') == IsWritable(e)
  {
    hide Synced, Get, Archived;
    SyncedNumbers(e, size, start, time, date);
    SplitCluster(start);
    SyncedFront(e, size, start, time, date);
    ArchivedKeeps(e[ATTRIBUTES]);
  }

  lemma ArchivedKeeps(a: byte)
    ensures Archived(a) as int / 0x10 % 2 == a as int / 0x10 % 2 && Archived(a) as int % 2 == a as int % 2
  {
  }

  lemma PutBehind(e: Entry, at: nat, v: nat, size: nat)
    requires (size == 1 || size == 2 || size == 4) && ATTRIBUTES < at && at + size <= 32
    ensures Put(e, at, v, size)[..ATTRIBUTES + 1] == e[..ATTRIBUTES + 1]
  {
  }

  lemma SyncedFront(e: Entry, size: nat, start: nat, time: nat, date: nat)
    ensures var e' := Synced(e, size, start, time, date);
            e'[..ATTRIBUTES] == e[..ATTRIBUTES] && e'[ATTRIBUTES] == Archived(e[ATTRIBUTES])
  {
    hide Put, Archived;
    var e1 := Put(e, FILE_SIZE, size, 4);
    var e2 := Put(e1, CLUSTER_LOW, start, 2);
    var e3 := Put(e2, CLUSTER_HIGH, start / 0x1_0000, 2);
    var e4 := Put(e3, M_TIME, time, 2);
    var e5 := Put(e4, M_DATE, date, 2);
    var e6 := Put(e5, A_DATE, date, 2);
    PutBehind(e, FILE_SIZE, size, 4);
    PutBehind(e1, CLUSTER_LOW, start, 2);
    PutBehind(e2, CLUSTER_HIGH, start / 0x1_0000, 2);
    PutBehind(e3, M_TIME, time, 2);
    PutBehind(e4, M_DATE, date, 2);
    PutBehind(e5, A_DATE, date, 2);
    assert e6[..ATTRIBUTES + 1] == e[..ATTRIBUTES + 1];
    assert forall i :: 0 <= i <= ATTRIBUTES ==> e6[i] == e6[..ATTRIBUTES + 1][i];
  }

  lemma SplitCluster(start: nat)
    requires start < 0x1_0000_0000
    ensures start % 0x1_0000 + 0x1_0000 * (start / 0x1_0000 % 0x1_0000) == start
    ensures start < 0x1_0000 ==> start % 0x1_0000 == start
  {
  }

  lemma SyncedNumbers(e: Entry, size: nat, start: nat, time: nat, date: nat)
    ensures var e' := Synced(e, size, start, time, date);
            Get(e', FILE_SIZE, 4) == size % 0x1_0000_0000
            && Get(e', CLUSTER_LOW, 2) == start % 0x1_0000 && Get(e', CLUSTER_HIGH, 2) == start / 0x1_0000 % 0x1_0000
  {
    hide Get, Put;
    var e1 := Put(e, FILE_SIZE, size, 4);
    var e2 := Put(e1, CLUSTER_LOW, start, 2);
    var e3 := Put(e2, CLUSTER_HIGH, start / 0x1_0000, 2);
    var e4 := Put(e3, M_TIME, time, 2);
    var e5 := Put(e4, M_DATE, date, 2);
    var e6 := Put(e5, A_DATE, date, 2);
    GetPut(e, FILE_SIZE, size, 4, FILE_SIZE, 4);
    GetPut(e1, CLUSTER_LOW, start, 2, CLUSTER_LOW, 2);
    GetPut(e2, CLUSTER_HIGH, start / 0x1_0000, 2, CLUSTER_HIGH, 2);
    GetAcross(e1, e2, e3, e4, e5, e6, start, time, date, FILE_SIZE, 4);
    GetPut(e2, CLUSTER_HIGH, start / 0x1_0000, 2, CLUSTER_LOW, 2);
    GetLast(e3, e4, e5, e6, time, date, CLUSTER_LOW);
    GetLast(e3, e4, e5, e6, time, date, CLUSTER_HIGH);
    GetAttribute(e6, FILE_SIZE, 4);
    GetAttribute(e6, CLUSTER_LOW, 2);
    GetAttribute(e6, CLUSTER_HIGH, 2);
  }

  lemma GetAcross(e1: Entry, e2: Entry, e3: Entry, e4: Entry, e5: Entry, e6: Entry, start: nat, time: nat, date: nat,
        at: nat, size: nat)
    requires at == FILE_SIZE && size == 4
    requires e2 == Put(e1, CLUSTER_LOW, start, 2) && e3 == Put(e2, CLUSTER_HIGH, start / 0x1_0000, 2)
    requires e4 == Put(e3, M_TIME, time, 2) && e5 == Put(e4, M_DATE, date, 2) && e6 == Put(e5, A_DATE, date, 2)
    ensures Get(e6, at, size) == Get(e1, at, size)
  {
    hide Get, Put;
    GetPut(e1, CLUSTER_LOW, start, 2, at, size);
    GetPut(e2, CLUSTER_HIGH, start / 0x1_0000, 2, at, size);
    GetPut(e3, M_TIME, time, 2, at, size);
    GetPut(e4, M_DATE, date, 2, at, size);
    GetPut(e5, A_DATE, date, 2, at, size);
  }

  lemma GetLast(e3: Entry, e4: Entry, e5: Entry, e6: Entry, time: nat, date: nat, at: nat)
    requires at == CLUSTER_LOW || at == CLUSTER_HIGH
    requires e4 == Put(e3, M_TIME, time, 2) && e5 == Put(e4, M_DATE, date, 2) && e6 == Put(e5, A_DATE, date, 2)
    ensures Get(e6, at, 2) == Get(e3, at, 2)
  {
    hide Get, Put;
    GetPut(e3, M_TIME, time, 2, at, 2);
    GetPut(e4, M_DATE, date, 2, at, 2);
    GetPut(e5, A_DATE, date, 2, at, 2);
  }

  lemma GetAttribute(e: Entry, at: nat, size: nat)
    requires (size == 2 || size == 4) && at > ATTRIBUTES && at + size <= 32
    ensures Get(e[ATTRIBUTES := Archived(e[ATTRIBUTES])], at, size) == Get(e, at, size)
  {
    var e' := e[ATTRIBUTES := Archived(e[ATTRIBUTES])];
    assert Sub(e', at, size) == Sub(e, at, size);
  }

  /** A slot lies behind the tables, whole in its sector. */
  lemma SlotOnVolume(g: Geometry, pos: EntryPosition)
    requires g.Ok() && OnVolume(g, pos)
    ensures g.ClusterToSector(pos.cluster) + pos.sector < g.end
    ensures pos.offset * 32 + 32 <= g.bps
    ensures TableEnd(g) <= EntryAddress(g, pos) && EntryAddress(g, pos) + 32 <= Mul(g.end, g.bps)
    ensures if pos.cluster == CLUSTER_ROOT then EntryAddress(g, pos) + 32 <= DataLo(g)
            else var r := Mul(pos.sector, g.bps) + pos.offset * 32;
                 EntryAddress(g, pos) == ClusterBase(g, pos.cluster) + r && r + 32 <= g.Bpc()
                     && DataLo(g) <= EntryAddress(g, pos)
  {
    hide Mul;
    RootOnVolume(g);
    if pos.cluster == CLUSTER_ROOT {
      MulMono(g.rootDirStart, g.rootDirStart + pos.sector, g.bps);
      MulApart(g.rootDirStart + pos.sector, 1, g.dataStart, g.bps);
      MulOne(g.bps);
      assert g.ClusterToSector(pos.cluster) == g.rootDirStart;
    } else {
      PositionOnVolume(g, pos.cluster, pos.sector, pos.offset * 32, 32);
      ClusterOnVolume(g, pos.cluster);
    }
  }

  /** Storing a slot changes neither the table nor any file that does not have its cluster. */
  lemma SlotStore(g: Geometry, v: seq<byte>, pos: EntryPosition, d: Entry, file: seq<nat>)
    requires IsVolume(g, v) && OnVolume(g, pos) && Clusters(g, file) && pos.cluster !in file
    ensures EntryAddress(g, pos) + 32 <= |v|
    ensures var v' := Splice(v, EntryAddress(g, pos), d);
            IsVolume(g, v') && Table(g, v') == Table(g, v) && FileBytes(g, v', file) == FileBytes(g, v, file)
  {
    hide Mul, Splice, Table, FileBytes, EntryAddress;
    SlotOnVolume(g, pos);
    if pos.cluster == CLUSTER_ROOT {
      RootStore(g, v, EntryAddress(g, pos), d, file);
    } else {
      ClusterStore(g, v, pos, d, file);
    }
  }

  lemma ClusterStore(g: Geometry, v: seq<byte>, pos: EntryPosition, d: Entry, file: seq<nat>)
    requires IsVolume(g, v) && OnVolume(g, pos) && Clusters(g, file) && pos.cluster !in file
             && pos.cluster != CLUSTER_ROOT
    ensures EntryAddress(g, pos) + 32 <= |v|
    ensures var v' := Splice(v, EntryAddress(g, pos), d);
            IsVolume(g, v') && Table(g, v') == Table(g, v) && FileBytes(g, v', file) == FileBytes(g, v, file)
  {
    hide Mul, Splice, Table, FileBytes, ClusterBase, EntryAddress, DataLo, TableEnd;
    SlotOnVolume(g, pos);
    StoreBehindTables(g, v, EntryAddress(g, pos), d);
    StoreKeepsOtherFile(g, v, pos.cluster, Mul(pos.sector, g.bps) + pos.offset * 32, d, file);
  }

  lemma RootStore(g: Geometry, v: seq<byte>, at: nat, d: seq<byte>, file: seq<nat>)
    requires IsVolume(g, v) && Clusters(g, file) && TableEnd(g) <= at && at + |d| <= DataLo(g)
    ensures DataLo(g) <= |v|
    ensures var v' := Splice(v, at, d);
            IsVolume(g, v') && Table(g, v') == Table(g, v) && FileBytes(g, v', file) == FileBytes(g, v, file)
  {
    hide Mul, Table, FileBytes;
    RootOnVolume(g);
    var v' := Splice(v, at, d);
    assert v'[..TableEnd(g)] == v[..TableEnd(g)];
    TableFrame(g, v, v');
    forall i | 0 <= i < |file|
      ensures ClusterBytes(g, v', file[i]) == ClusterBytes(g, v, file[i])
    {
      ClusterOnVolume(g, file[i]);
      SubOutside(v, at, d, ClusterBase(g, file[i]), g.Bpc());
    }
    FileFrame(g, v, v', file);
  }

  /** What an image of the volume says about a file whose entry is at `pos`: its size, its chain and its
      bytes. */
  ghost predicate Shows(g: Geometry, image: seq<byte>, pos: EntryPosition, size: nat, ch: seq<nat>,
        content: seq<byte>) {
    && IsVolume(g, image) && OnVolume(g, pos) && EntryAddress(g, pos) + 32 <= |image| && Clusters(g, ch)
    && var e := Sub(image, EntryAddress(g, pos), 32);
       SizeOf(e) == size && ChainFrom(Table(g, image), StartOf(g, e), ch)
       && size <= |FileBytes(g, image, ch)| && FileBytes(g, image, ch)[..size] == content
  }
}
