/** Directories in plain bytes (src/fat/directory.c): which slots are listed, what the fields of an entry and of a
    long-name slot are, and how names are spelled. */
module DirLaws {
  import opened Bytes
  import opened Arith
  import opened Volume
  import opened BootLaws
  import opened FatCodec
  import opened Chains
  import opened FileData
  import opened DirEntry
  import opened LongNames
  import opened DirItems
  import opened DirEdits
  import opened DirArea

  /** A scan comes to the first slot that is an entry, if that is before the end, and to none if there is none. */
  lemma {:induction false} ScanStops(slots: seq<Entry>, i: nat, st: Scan) returns (j: nat)
    requires i <= |slots| && |st.lfn| == MAX_LFN_LENGTH && Numbered(slots)
    ensures i <= j <= |slots| && forall k :: i <= k < j ==> !IsEntry(slots[k]) && !IsEnd(slots[k])
    ensures match ScanFrom(slots, i, st)
            case NoMore => j < |slots| ==> IsEnd(slots[j])
            case Found(start, end, name, e) => j == end && j < |slots| && IsEntry(slots[j]) && e == slots[j]
    decreases |slots| - i
  {
    hide Feed, Checksum, AliasName, UntilZero;
    j := i;
    if i < |slots| && !IsEntry(slots[i]) && !IsEnd(slots[i]) {
      if slots[i][ATTRIBUTES] == ATTRIB_LFN {
        j := ScanStops(slots, i + 1, Feed(st, i, slots[i]));
      } else {
        j := ScanStops(slots, i + 1, st);
      }
    }
  }

  /** The same byte by byte: the scan passes over long-name slots, volume names, deleted slots and those that start
      with a control character or a space, and ends at a slot that starts with a zero. */
  lemma ScanBytes(slots: seq<Entry>, i: nat, st: Scan) returns (j: nat)
    requires i <= |slots| && |st.lfn| == MAX_LFN_LENGTH && Numbered(slots)
    ensures i <= j <= |slots|
    ensures forall k :: i <= k < j ==>
              slots[k][11] == 0x0F || slots[k][11] as int / 8 % 2 == 1 || 0 < slots[k][0] <= 0x20 || slots[k][0] == 0xE5
    ensures j < |slots| ==> slots[j][11] != 0x0F && slots[j][11] as int / 8 % 2 == 0
    ensures match ScanFrom(slots, i, st)
            case NoMore => j < |slots| ==> slots[j][0] == 0
            case Found(start, end, name, e) => j == end && j < |slots| && e == slots[j] && 0x20 < slots[j][0] != 0xE5
  {
    hide ScanFrom, Numbered;
    j := ScanStops(slots, i, st);
  }

  /** The list has the entries among the slots from `i` to `stop`, in their order; `at` says where they are. */
  ghost predicate Picked(slots: seq<Entry>, i: nat, stop: nat, at: seq<nat>, list: seq<Listed>) {
    && i <= stop <= |slots| && (stop < |slots| ==> IsEnd(slots[stop]))
    && (forall k :: i <= k < stop ==> !IsEnd(slots[k]) && (k in at <==> IsEntry(slots[k])))
    && |at| == |list| && (forall k :: 0 <= k < |at| ==> i <= at[k] < stop && list[k].entry == slots[at[k]])
    && forall j, k :: 0 <= j < k < |at| ==> at[j] < at[k]
  }

  lemma PickedMore(slots: seq<Entry>, i: nat, j: nat, stop: nat, at: seq<nat>, list: seq<Listed>, one: Listed)
    requires Picked(slots, j + 1, stop, at, list) && i <= j < |slots| && IsEntry(slots[j]) && one.entry == slots[j]
    requires forall k :: i <= k < j ==> !IsEntry(slots[k]) && !IsEnd(slots[k])
    ensures Picked(slots, i, stop, [j] + at, [one] + list)
  {
    var at', list' := [j] + at, [one] + list;
    assert forall k :: 0 < k < |at'| ==> at'[k] == at[k - 1] && list'[k] == list[k - 1];
    assert forall k :: k in at' <==> k == j || k in at;
    forall k | i <= k < stop
      ensures !IsEnd(slots[k]) && (k in at' <==> IsEntry(slots[k]))
    {
      if k <= j {
        assert k !in at;
      }
    }
  }

  /** Whatever the slots are, also orphans. */
  lemma {:induction false} ListsFromSlots(slots: seq<Entry>, i: nat, st: Scan, junk: seq<Ucs2>)
    returns (at: seq<nat>, stop: nat)
    requires i <= |slots| && |st.lfn| == MAX_LFN_LENGTH && |junk| == MAX_LFN_LENGTH && Numbered(slots)
    ensures Picked(slots, i, stop, at, ListFrom(slots, i, st, junk))
    decreases |slots| - i
  {
    hide ScanFrom, Numbered, IsEntry, IsEnd;
    var j := ScanStops(slots, i, st);
    match ScanFrom(slots, i, st) {
      case NoMore =>
        at, stop := [], j;
      case Found(start, end, name, e) =>
        at, stop := ListsFromSlots(slots, end + 1, Scan(false, 0, end, junk), junk);
        PickedMore(slots, i, end, stop, at, ListFrom(slots, end + 1, Scan(false, 0, end, junk), junk), Listed(name, e));
        at := [end] + at;
    }
  }

  /** Byte by byte: listed are the slots before the first end marker that are no long-name slots, no volume name,
      not deleted, and do not start with a control character or a space, in their order. */
  lemma ListedBytes(slots: seq<Entry>, junk: seq<Ucs2>) returns (at: seq<nat>, stop: nat)
    requires |junk| == MAX_LFN_LENGTH && Numbered(slots)
    ensures stop <= |slots|
    ensures stop < |slots| ==> slots[stop][0] == 0 && slots[stop][11] != 0x0F && slots[stop][11] as int / 8 % 2 == 0
    ensures forall k :: 0 <= k < stop ==>
              !(slots[k][0] == 0 && slots[k][11] != 0x0F && slots[k][11] as int / 8 % 2 == 0)
    ensures forall k :: 0 <= k < stop ==>
              (k in at <==> slots[k][11] != 0x0F && slots[k][11] as int / 8 % 2 == 0 && 0x20 < slots[k][0] != 0xE5)
    ensures |at| == |Listing(slots, junk)|
    ensures forall k :: 0 <= k < |at| ==> at[k] < stop && Listing(slots, junk)[k].entry == slots[at[k]]
    ensures forall j, k :: 0 <= j < k < |at| ==> at[j] < at[k]
  {
    hide ListFrom, Numbered;
    at, stop := ListsFromSlots(slots, 0, Scan(false, 0, -1, junk), junk);
  }

  /** Deleted slots start with 0xE5, the slot behind the last one with a zero, and deleting writes the former. */
  lemma FirstBytes(e: Entry)
    ensures (IsFree(e) <==> e[0] == 0xE5) && (IsLast(e) <==> e[0] == 0)
    ensures Erased(e)[0] == 0xE5 && forall k :: 0 < k < 32 ==> Erased(e)[k] == e[k]
  {
  }

  /** Where a slot is: `offset` counts slots of 32 bytes in a sector, of the fixed root directory or of a cluster. */
  lemma SlotIsAt(g: Geometry, pos: EntryPosition)
    requires g.Ok() && OnVolume(g, pos)
    ensures EntryAddress(g, pos)
         == ((if pos.cluster == 0 then g.rootDirStart else g.dataStart + (pos.cluster - 2) * g.spc) + pos.sector)
            * g.bps + 32 * pos.offset
  {
    hide Mul;
    ClusterIsAt(g, pos.cluster);
    MulIsProduct(g.ClusterToSector(pos.cluster) + pos.sector, g.bps);
  }

  /** The slots of a directory in the fixed root area, or in the clusters of its chain, are numbered in order. */
  lemma SlotIsNumber(g: Geometry, v: seq<byte>, dir: Dir, pos: EntryPosition, k: nat, i: nat)
    requires IsDir(g, v, dir) && OnVolume(g, pos)
    requires match dir
             case Fixed => pos.cluster == 0 && k == 0 case Chained(ch) => k < |ch| && pos.cluster == ch[k]
    requires i == (k * g.spc + pos.sector) * (g.bps / 32) + pos.offset
    ensures i < |DirSlots(g, v, dir)| && EntryAddress(g, pos) + 32 <= |v|
    ensures DirSlots(g, v, dir)[i] == v[EntryAddress(g, pos)..EntryAddress(g, pos) + 32]
  {
    hide Mul, DirSlots, IsDir, EntryAddress;
    MulIsProduct(k, g.spc);
    MulIsProduct(k * g.spc + pos.sector, g.bps / 32);
    assert g.Ok() by {
      DirIsVolume(g, v, dir);
    }
    if dir.Fixed? {
      assert SectorAt(g, dir, pos, pos.sector);
      assert SlotAt(g, dir, pos, i);
    } else {
      DirIsVolume(g, v, dir);
      assert SectorAt(g, dir, pos, k * g.spc + pos.sector);
      assert SlotAt(g, dir, pos, i);
    }
    SlotRead(g, v, dir, pos, i);
  }

  lemma DirIsVolume(g: Geometry, v: seq<byte>, dir: Dir)
    requires IsDir(g, v, dir)
    ensures IsVolume(g, v) && (dir.Chained? ==> forall k :: 0 <= k < |dir.ch| ==> g.IsValidCluster(dir.ch[k]))
  {
    hide Mul, Table, Closed;
    if dir.Chained? {
      ChainClusters(g, v, dir.ch);
    }
  }

  /** The fields of an entry: attributes in byte 11, the start cluster in bytes 26 and 27 and, on a FAT32 volume, 20
      and 21, the size in bytes 28 to 31. */
  lemma FieldsAre(g: Geometry, e: Entry)
    ensures SizeOf(e) == e[28] as int + 256 * (e[29] as int) + 0x1_0000 * (e[30] as int) + 0x100_0000 * (e[31] as int)
    ensures StartOf(g, e)
         == e[26] as int + 256 * (e[27] as int)
            + if g.fsType == FAT32 then 0x1_0000 * (e[20] as int + 256 * (e[21] as int)) else 0
    ensures (IsDirectory(e) <==> e[11] as int / 16 % 2 == 1) && (IsWritable(e) <==> e[11] as int % 2 == 0)
  {
    hide LeValue, Sub;
    LeFour(e, 28);
    LeTwo(e, 26);
    LeTwo(e, 20);
  }

  /** What a sync writes: the archive bit, the date in bytes 18 and 24, the time in 22, start cluster and size. The
      eleven bytes of the name, the case bits and the time of creation stay. */
  lemma SyncedBytes(e: Entry, size: nat, start: nat, time: nat, date: nat)
    ensures var e' := Synced(e, size, start, time, date);
            && e'[..11] == e[..11] && e'[12..18] == e[12..18]
            && e'[11] as int == e[11] as int + (if e[11] as int / 32 % 2 == 0 then 32 else 0)
            && e'[18..20] == e'[24..26] == [date % 256, date / 256 % 256]
            && e'[22..24] == [time % 256, time / 256 % 256]
            && e'[20..22] == [start / 0x1_0000 % 256, start / 0x1_0000 / 256 % 256]
            && e'[26..28] == [start % 256, start / 256 % 256]
            && e'[28..] == [size % 256, size / 256 % 256, size / 0x1_0000 % 256, size / 0x100_0000 % 256]
  {
    hide LeBytes, Synced, Archived;
    var e' := Synced(e, size, start, time, date);
    forall k | 0 <= k < 32
      ensures e'[k] == SyncedByte(e, size, start, time, date, k)
    {
      SyncedAt(e, size, start, time, date, k);
    }
    TwoBytesOf(time);
    TwoBytesOf(date);
    TwoBytesOf(start);
    TwoBytesOf(start / 0x1_0000);
    FourBytesOf(size);
    ArchivedIs(e[11]);
  }

  /** The field a byte is in, and its place there. */
  function SyncedByte(e: Entry, size: nat, start: nat, time: nat, date: nat, k: nat): byte
    requires k < 32
  {
    if k >= FILE_SIZE then LeBytes(size, 4)[k - FILE_SIZE]
    else if k >= CLUSTER_LOW then LeBytes(start, 2)[k - CLUSTER_LOW]
    else if k >= M_DATE then LeBytes(date, 2)[k - M_DATE]
    else if k >= M_TIME then LeBytes(time, 2)[k - M_TIME]
    else if k >= CLUSTER_HIGH then LeBytes(start / 0x1_0000, 2)[k - CLUSTER_HIGH]
    else if k >= A_DATE then LeBytes(date, 2)[k - A_DATE]
    else if k == ATTRIBUTES then Archived(e[k]) else e[k]
  }

  lemma SyncedAt(e: Entry, size: nat, start: nat, time: nat, date: nat, k: nat)
    requires k < 32
    ensures Synced(e, size, start, time, date)[k] == SyncedByte(e, size, start, time, date, k)
  {
    hide LeBytes, Archived, Put;
    var e1 := Put(e, FILE_SIZE, size, 4);
    var e2 := Put(e1, CLUSTER_LOW, start, 2);
    var e3 := Put(e2, CLUSTER_HIGH, start / 0x1_0000, 2);
    var e4 := Put(e3, M_TIME, time, 2);
    var e5 := Put(e4, M_DATE, date, 2);
    PutAt(e, FILE_SIZE, size, 4, k);
    PutAt(e1, CLUSTER_LOW, start, 2, k);
    PutAt(e2, CLUSTER_HIGH, start / 0x1_0000, 2, k);
    PutAt(e3, M_TIME, time, 2, k);
    PutAt(e4, M_DATE, date, 2, k);
    PutAt(e5, A_DATE, date, 2, k);
  }

  lemma PutAt(e: Entry, at: nat, v: nat, size: nat, k: nat)
    requires (size == 2 || size == 4) && at + size <= 32 && k < 32
    ensures Put(e, at, v, size)[k] == if at <= k < at + size then LeBytes(v, size)[k - at] else e[k]
  {
    hide LeBytes;
  }

  lemma TwoBytesOf(v: nat)
    ensures LeBytes(v, 2) == [v % 256, v / 256 % 256]
  {
  }

  lemma FourBytesOf(v: nat)
    ensures LeBytes(v, 4) == [v % 256, v / 256 % 256, v / 0x1_0000 % 256, v / 0x100_0000 % 256]
  {
  }

  lemma ArchivedIs(a: byte)
    ensures Archived(a) as int == a as int + if a as int / 32 % 2 == 0 then 32 else 0
  {
  }

  /** Long-name slot `ord` of a name, byte by byte: number and mark, attribute byte, checksum, two reserved fields,
      and thirteen units of two bytes, in three groups. A name has as many slots as its units need. */
  lemma LongSlotBytes(e: Entry, name: seq<Ucs2>, ord: nat, last: bool, chk: byte)
    requires ord > 0
    ensures IsLfnSlot(e, name, ord, last, chk) <==>
            && e[0] as int == ord + (if last then 64 else 0)
            && e[11] == 15 && e[12] == 0 && e[13] == chk && e[26] == e[27] == 0
            && forall j :: 0 <= j < 13 ==>
                 var at, p := [1, 3, 5, 7, 9, 14, 16, 18, 20, 22, 24, 28, 30][j], 13 * (ord - 1) + j;
                 e[at] as int + 256 * (e[at + 1] as int)
                     == if p < |name| then name[p] else if p == |name| then 0 else 0xFFFF
    ensures 13 * SlotCount(name) - 13 < |name| <= 13 * SlotCount(name)
  {
    hide LeValue, Sub;
    LeTwo(e, 26);
    forall j | 0 <= j < 13
      ensures UnitOffset(j) == [1, 3, 5, 7, 9, 14, 16, 18, 20, 22, 24, 28, 30][j]
      ensures Unit(e, j) as int == e[UnitOffset(j)] as int + 256 * (e[UnitOffset(j) + 1] as int)
    {
      LeTwo(e, UnitOffset(j));
    }
  }

  /** What the scan keeps of a long-name slot: a deleted one, or one with another checksum, ends the name; one marked
      as the last part begins it, and puts its end into the buffer; the thirteen units go to their place, but not
      to the last of the 256. */
  lemma FeedIs(st: Scan, i: int, e: Entry, x: nat)
    requires |st.lfn| == 256 && (e[0] < 128 ==> e[0] as int % 64 > 0) && x < 256
    ensures var st', begins, pos := Feed(st, i, e), 64 <= e[0] < 128, 13 * (e[0] as int % 64);
            && |st'.lfn| == 256
            && (st'.pending <==> begins || (e[0] < 64 && st.pending && st.chk == e[13]))
            && (st'.pending ==>
                  st'.chk == e[13] && st'.start == (if begins then i else st.start)
                  && st'.lfn[x] == if pos - 13 <= x < pos && x < 255 then Unit(e, x - (pos - 13))
                                   else if begins && x == Min(pos, 255) then 0 else st.lfn[x])
  {
    hide Stored, Get;
    var pos := 13 * (e[0] as int % 64);
    if e[0] < 128 {
      var lfn := if e[0] >= 64 then st.lfn[Min(pos, 255) := 0] else st.lfn;
      StoredAt(lfn, pos - 13, e, 13, x);
    }
  }

  /** The checksum takes the eleven bytes of the name in order: rotate to the right, then add. */
  lemma ChecksumIs(e: Entry, n: nat)
    requires n < 11
    ensures Checksum(e, 0) == 0
    ensures Checksum(e, n + 1) as int
         == (Checksum(e, n) as int / 2 + 128 * (Checksum(e, n) as int % 2) + e[n] as int) % 256
  {
  }

  /** README.TXT has the checksum 0x73. */
  lemma ChecksumOfReadme(e: Entry)
    requires e[..11] == [0x52, 0x45, 0x41, 0x44, 0x4D, 0x45, 0x20, 0x20, 0x54, 0x58, 0x54]
    ensures Checksum(e, 11) == 0x73
  {
    hide Checksum;
    ChecksumIs(e, 0);
    ChecksumStep(e, 0, 0, 82);
    ChecksumStep(e, 1, 82, 110);
    ChecksumStep(e, 2, 110, 120);
    ChecksumStep(e, 3, 120, 128);
    ChecksumStep(e, 4, 128, 141);
    ChecksumStep(e, 5, 141, 11);
    ChecksumStep(e, 6, 11, 165);
    ChecksumStep(e, 7, 165, 242);
    ChecksumStep(e, 8, 242, 205);
    ChecksumStep(e, 9, 205, 62);
    ChecksumStep(e, 10, 62, 115);
  }

  lemma ChecksumStep(e: Entry, n: nat, c: byte, r: byte)
    requires n < 11 && Checksum(e, n) == c
    requires r as int == (c as int / 2 + 128 * (c as int % 2) + e[..11][n] as int) % 256
    ensures Checksum(e, n + 1) == r
  {
    ChecksumIs(e, n);
  }
}
