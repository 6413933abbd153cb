/** Inputs for which the code does less than it promises: each method mounts the small volume, calls the
    driver and ends in the state its contract gives. */
module Failures {
  import opened Bytes
  import opened Arith
  import opened Volume
  import opened FatCodec
  import opened Chains
  import opened Fat
  import opened FileData
  import opened DirEntry
  import opened Growth
  import opened FileExtend
  import opened FatFile
  import opened SectorCache
  import opened BoundaryReads
  import opened SmallVolume

  /** The first byte behind cluster 2 on the volume is not the next byte of the file. */
  lemma FragmentedIsMisread()
    ensures var v, ch := Image(false), [2, 4];
            IsVolume(SMALL, v) && IsChain(Table(SMALL, v), ch) && Clusters(SMALL, ch) && SMALL.Bpc() == 512
            && !ReadsRight(SMALL, v, ch, 0, 1)
  {
    hide Mul, Div, Table, FileBytes, ClusterBytes;
    SmallIsOk(false);
    SmallFile(false);
    SmallBytes(false);
    var v := Image(false);
    FirstByte(SMALL, v, 3);
    assert Sub(v, 2048, 1)[0] == 1;
    assert Sub(FileBytes(SMALL, v, [2, 4]), 512, 1)[0] == FileBytes(SMALL, v, [2, 4])[512];
    MulOne(SMALL.Bpc());
  }

  /** Mounts the volume. */
  method MountSmall(full: bool) returns (pt: Partition)
    ensures fresh(pt) && fresh(pt.cache.Repr) && pt.Valid() && pt.g == SMALL && pt.cache.view == Image(full)
    ensures pt.firstFree == CLUSTER_FIRST
  {
    hide Mul, Div, Mod, Cache.Valid, Image, Mountable, BootSector.Consistent, BootOf;
    SmallIsDescribed(full);
    Products();
    var disc := new Disc(512, true, Image(full));
    var p := Mount(disc, 0, 8, 8);
    pt := p;
  }

  lemma SmallHasFile(full: bool)
    ensures var e := Sub(Image(full), 1024, 32);
            HasFile(SMALL, Image(full), e, [2, 4]) && !IsDirectory(e) && IsWritable(e) && SizeOf(e) == 1024
            && Closed(Table(SMALL, Image(full)))
  {
    hide Mul, Div, Mod, Image, Table, Closed, IsChain, SizeOf, StartOf, IsDirectory, IsWritable;
    SmallFile(full);
    SmallIsOk(full);
    Products();
    assert [2, 4][0] == 2;
  }

  lemma SlotPlace()
    ensures 2 < SMALL.end && Mul(2, SMALL.bps) == 1024
  {
    hide Mul, Div, Mod;
    Products();
  }

  /** Opens the file of the volume for reading and writing. */
  method OpenSmall(full: bool) returns (f: File)
    ensures fresh(f) && fresh(f.partition) && fresh(f.partition.cache.Repr) && f.partition.g == SMALL
    ensures f.Valid() && f.inUse && f.read && f.write && !f.append && f.partition.firstFree == CLUSTER_FIRST
    ensures f.partition.cache.view == Image(full) && f.chain == [2, 4] && f.filesize == 1024 && f.currentPosition == 0
    ensures f.dirEntryEnd == SLOT
  {
    hide Mul, Div, Mod, Cache.Valid, Image, Table, FileBytes, IsChain, Closed, SizeOf, StartOf, IsDirectory,
        IsWritable, HasFile, Sub, Confined, FileContent;
    SmallHasFile(full);
    SlotPlace();
    var pt := MountSmall(full);
    var ok, e := pt.cache.ReadPartialSector(2, 0, DIR_ENTRY_DATA_SIZE);
    assert e == Sub(Image(full), 1024, 32);
    var file, errno := File.Open(pt, ReadWrite, false, false, e, SLOT, false, [2, 4]);
    f := file;
  }

  /** The handle is one on the small volume. */
  ghost predicate OnSmall(f: File)
    reads f, f.partition, f.partition.cache, f.partition.cache.Repr
  {
    && f.Valid() && f.partition.g == SMALL && f.inUse && f.read && f.write && !f.append
    && f.filesize == 1024 && f.chain == [2, 4]
  }

  /** There is room for what the file has already. */
  lemma SmallRoom(f: File)
    requires OnSmall(f)
    ensures f.Capacity() >= 1024
  {
    hide Mul, Div, Mod, Table, FreeCount;
    Products();
    MulMono(2, |f.chain| + FreeCount(f.partition.T()), 512);
  }

  /** A chain that has grown from the file's, for a size that has not grown, is the same. */
  lemma SameChain(ch: seq<nat>)
    requires [2, 4] <= ch && JustLongEnough(SMALL, 1024, |ch|) && SMALL.Bpc() == 512
    ensures ch == [2, 4]
  {
    hide Mul;
    Products();
    if |ch| > 2 {
      MulMono(2, |ch| - 1, 512);
    }
  }

  /** The position behind cluster 2. */
  lemma BehindFirst(ch: seq<nat>, pos: FilePosition)
    requires ch == [2, 4] && Denotes(SMALL, ch, pos, 512) && pos.sector == 1
    ensures pos.cluster == 2
  {
    hide Mul;
    SmallIsOk(false);
    Products();
    var k: nat :| At(SMALL, ch, pos, k, 512);
    if k > 0 {
      MulMono(1, k, 512);
    }
  }

  /** The start of cluster 4. */
  lemma InSecond(ch: seq<nat>, pos: FilePosition)
    requires ch == [2, 4] && Denotes(SMALL, ch, pos, 512) && pos.sector < 1
    ensures pos.cluster == 4 && pos.sector == 0
  {
    hide Mul;
    SmallIsOk(false);
    Products();
    var k: nat :| At(SMALL, ch, pos, k, 512);
  }

  lemma OneCluster(ch: seq<nat>)
    requires ch <= [2, 4] && JustLongEnough(SMALL, 512, |ch|) && SMALL.Bpc() == 512
    ensures 4 !in ch
  {
    hide Mul;
    Products();
  }

  lemma ReleasedFour(t: seq<nat>, ch: seq<nat>)
    requires Released(t, [2, 4], ch) && 4 !in ch
    ensures |t| > 4 && t[4] == CLUSTER_FREE
  {
    assert 4 in [2, 4];
  }

  /** Cluster 3, which the file does not have, keeps its first byte. */
  lemma ForeignByte(v: seq<byte>, ch: seq<nat>)
    requires Grown(SMALL, Image(false), [2, 4], v, ch) && ch == [2, 4]
    ensures 2048 < |v| && v[2048] == 1
  {
    hide Mul, Div, Table, Image, ClusterBytes, FixedKept, FreeCount, IsChain, Closed;
    SmallIsOk(false);
    Products();
    SmallBytes(false);
    assert Untouched(SMALL, Image(false), v, 3);
    FirstByte(SMALL, v, 3);
  }

  lemma SmallContent(f: File)
    requires OnSmall(f) && f.partition.cache.view == Image(false)
    ensures f.Content()[512] == 0
  {
    hide Mul, Div, Table, Image, FileBytes, Closed, IsChain;
    SmallBytes(false);
  }

  lemma PatchedFront(s: seq<byte>, d: seq<byte>)
    requires |s| == 1024 && |d| == 512
    ensures |Patched(s, 0, d)| == 1024 && Patched(s, 0, d)[512] == s[512]
  {
  }

  /** Writes the first cluster of the file. */
  method WriteFirst(data: seq<byte>) returns (f: File, r: int)
    requires |data| == 512
    ensures fresh(f) && fresh(f.partition) && fresh(f.partition.cache.Repr) && OnSmall(f)
    ensures r == 512 && f.currentPosition == 512 && f.rwPosition.sector == 1 && f.rwPosition.cluster == 2
    ensures f.Content()[512] == 0 && 2048 < |f.partition.cache.view| && f.partition.cache.view[2048] == 1
  {
    hide Mul, Div, Mod, Cache.Valid, Image, Table, FileBytes, Closed, IsChain, FreeCount, NoneFree, FixedKept,
        Patched, Denotes, Grown;
    f := OpenSmall(false);
    SmallRoom(f);
    SmallContent(f);
    SmallIsOk(false);
    Products();
    PatchedFront(f.Content(), data);
    var errno;
    r, errno := f.Write(data);
    assert data[..512] == data;
    AfterWrite(f);
    ForeignByte(f.partition.cache.view, f.chain);
    BehindFirst(f.chain, f.rwPosition);
  }

  lemma AfterWrite(f: File)
    requires f.Stored() && f.partition.g == SMALL && |f.Content()| == 1024
    requires Grown(SMALL, Image(false), [2, 4], f.partition.cache.view, f.chain)
    ensures f.filesize == 1024 && f.chain == [2, 4]
  {
    hide Mul, Div, Mod, Image, Table, FileBytes, Closed, IsChain, FreeCount, FixedKept;
    SmallIsOk(false);
    SameChain(f.chain);
  }

  /** A write that ends on a cluster boundary, then a read of one byte: the read returns the byte that follows
      on the volume, which is not the next byte of the file. */
  method MisreadAfterWrite(data: seq<byte>) returns (f: File, r: int, d: seq<byte>)
    requires |data| == 512
    ensures f.Valid() && f.filesize == 1024 && r == 512 && |d| == 1 && f.currentPosition == 513
    ensures d != f.Content()[512..513]
  {
    hide Mul, Div, Mod, Cache.Valid, Image, Table, FileBytes, Closed, IsChain, Denotes;
    SmallIsOk(false);
    f, r := WriteFirst(data);
    ghost var content := f.Content();
    var n, errno;
    n, d, errno := f.Read(1);
    assert d[0] == f.partition.cache.view[2048];
    assert content[512..513][0] == content[512];
  }

  /** Linking on a full volume, twice: the second call returns a cluster that does not exist, and makes it the
      next one of the file. */
  method LinkTwice() returns (pt: Partition, first: nat, second: nat)
    ensures pt.Valid() && pt.g == SMALL && first == CLUSTER_ERROR && second == 5 && !pt.g.IsValidCluster(second)
    ensures pt.firstFree == 5 && pt.T()[4] == 5
  {
    hide Mul, Div, Mod, Cache.Valid, Image, Table, NextOf, EntryAddr, Written;
    SmallIsOk(true);
    SmallTable(true);
    pt := MountSmall(true);
    first := pt.LinkFreeCluster(4);
    second := pt.LinkFreeCluster(4);
    LinkBehindTable(SMALL, Image(true), 4);
  }

  /** Seeking to the start of the second cluster and cutting the file there: the position stays in the cluster
      that has been freed. */
  method CutAtCursor() returns (f: File, ret: int)
    ensures ret == 0 && f.Stored() && f.partition.g == SMALL && f.filesize == f.currentPosition == 512
    ensures !f.CursorOk() && f.rwPosition.cluster == 4 && f.partition.T()[4] == CLUSTER_FREE
  {
    hide Mul, Div, Mod, Cache.Valid, Image, Table, FileBytes, Closed, IsChain, FreeCount, Denotes, Confined, Released,
        Grown;
    SmallIsOk(false);
    Products();
    f := OpenSmall(false);
    var r, errno;
    r, errno := f.Seek(512, SEEK_SET);
    InSecond(f.chain, f.rwPosition);
    ret, errno := f.Truncate(512);
    OneCluster(f.chain);
    ReleasedFour(f.partition.T(), f.chain);
  }

  /** Growing beyond the room there is: the truncation fails, and the size is set all the same. */
  method GrowBeyondRoom() returns (f: File, ret: int)
    ensures ret == -1 && f.partition.Valid() && f.chain == [2, 4] && f.filesize == 2000 && !f.Stored()
  {
    hide Mul, Div, Mod, Cache.Valid, Image, Table, FileBytes, Closed, IsChain, FreeCount, Denotes, Released, BlankFrom,
        FixedKept, Untouched, ChainAfter;
    SmallIsOk(true);
    SmallTable(true);
    Products();
    f := OpenSmall(true);
    NoneFreeIsZero(f.partition.T());
    var errno;
    ret, errno := f.Truncate(2000);
    NoneFreeIsZero(f.partition.T());
  }

  lemma RoomForOneMore(t: seq<nat>)
    requires InTable(t, 3) && t[3] == CLUSTER_FREE
    ensures 3 * 512 <= Mul(2 + FreeCount(t), 512)
  {
    hide Mul;
    NoneFreeIsZero(t);
    Products();
    MulMono(3, 2 + FreeCount(t), 512);
  }

  /** A seek behind the end, and growing the file over it: the position still is where it was before. */
  method GrowOverCursor() returns (f: File, ret: int)
    ensures ret == 0 && f.Stored() && f.currentPosition == 1100 && f.filesize == 1200 && !f.CursorOk()
  {
    hide Mul, Div, Mod, Cache.Valid, Image, Table, FileBytes, Closed, IsChain, FreeCount, Denotes, Released, BlankFrom,
        Grown, ChainAfter;
    SmallIsOk(false);
    SmallTable(false);
    f := OpenSmall(false);
    var r, errno;
    r, errno := f.Seek(1100, SEEK_SET);
    assert Denotes(SMALL, [2, 4], f.rwPosition, 0);
    RoomForOneMore(f.partition.T());
    ret, errno := f.Truncate(1200);
  }

  /** The place of offset 600 in the file. */
  lemma At600(ch: seq<nat>, pos: FilePosition)
    requires ch == [2, 4] && Denotes(SMALL, ch, pos, 600) && pos.sector < 1
    ensures pos == FilePosition(4, 0, 88)
  {
    hide Mul;
    SmallIsOk(false);
    Products();
    var k: nat :| At(SMALL, ch, pos, k, 600);
  }

  lemma OnlyTwo(ch: seq<nat>)
    requires ch <= [2, 4] && JustLongEnough(SMALL, 500, |ch|) && SMALL.Bpc() == 512
    ensures ch == [2]
  {
    hide Mul;
    Products();
  }

  /** A seek into the second cluster, and a cut before it: the cursor is behind the end now, and the cluster of
      its position is free. */
  method CutBeforeCursor(full: bool) returns (f: File)
    ensures fresh(f) && fresh(f.partition) && fresh(f.partition.cache.Repr)
    ensures f.Valid() && f.partition.g == SMALL && f.inUse && f.write && f.filesize == 500 && f.currentPosition == 600
    ensures f.chain == [2] && f.rwPosition == FilePosition(4, 0, 88) && f.partition.Hint() == CLUSTER_FIRST
    ensures f.partition.firstFree <= SMALL.lastCluster && |f.partition.T()| == 5
    ensures var t := f.partition.T();
            t[2] != CLUSTER_FREE && t[3] == (if full then CLUSTER_EOF else CLUSTER_FREE) && t[4] == CLUSTER_FREE
  {
    hide Mul, Div, Mod, Cache.Valid, Image, Table, FileBytes, Closed, IsChain, FreeCount, Denotes, Released, BlankFrom,
        Grown, ChainAfter, FixedKept, ClusterBytes;
    SmallIsOk(full);
    SmallTable(full);
    f := OpenSmall(full);
    var r, errno, ret;
    r, errno := f.Seek(600, SEEK_SET);
    At600(f.chain, f.rwPosition);
    ret, errno := f.Truncate(500);
    OnlyTwo(f.chain);
    ReleasedFour(f.partition.T(), f.chain);
    assert Untouched(SMALL, Image(full), f.partition.cache.view, 3);
    LinkOut(f.partition.T(), f.chain, 0);
  }

  lemma TwoClusters(ch: seq<nat>)
    requires [2] <= ch && JustLongEnough(SMALL, 700, |ch|) && SMALL.Bpc() == 512
    ensures |ch| == 2 && ch == [2, ch[1]]
  {
    hide Mul;
    Products();
    if |ch| > 2 {
      MulMono(2, |ch| - 1, 512);
    }
  }

  lemma At600Again()
    ensures Denotes(SMALL, [2, 4], FilePosition(4, 0, 88), 600)
  {
    hide Mul;
    SmallIsOk(false);
    Products();
    assert At(SMALL, [2, 4], FilePosition(4, 0, 88), 1, 600);
  }

  /** Growing the file over that cursor when no other cluster is free: the cluster of the position is linked
      again, and the cursor is right. */
  method CursorRegained() returns (f: File, ret: int)
    ensures ret == 0 && f.Valid() && f.filesize == 700 && f.currentPosition == 600 && f.chain == [2, 4]
  {
    hide Mul, Div, Mod, Cache.Valid, Table, FileBytes, Closed, IsChain, FreeCount, Denotes, Released, BlankFrom,
        ChainAfter, FixedKept, Untouched;
    SmallIsOk(true);
    At600Again();
    f := CutBeforeCursor(true);
    RoomForTwo(f.partition.T());
    var errno;
    ret, errno := f.Truncate(700);
    TwoClusters(f.chain);
    LinkOut(f.partition.T(), f.chain, 1);
    ChainClusters(SMALL, f.partition.cache.view, f.chain);
    assert f.chain[1] in f.chain && f.chain[1] !in [2];
  }

  lemma RoomForTwo(t: seq<nat>)
    requires InTable(t, 4) && t[4] == CLUSTER_FREE
    ensures 2 * 512 <= Mul(1 + FreeCount(t), 512)
  {
    hide Mul;
    NoneFreeIsZero(t);
    Products();
    MulMono(2, 1 + FreeCount(t), 512);
  }

  /** The same when cluster 3 is free too: that one is linked, and the position is in a cluster that is still
      free. */
  method CursorLost() returns (f: File, ret: int)
    ensures ret == 0 && f.Stored() && f.filesize == 700 && f.currentPosition == 600 && f.chain == [2, 3]
    ensures !f.CursorOk() && f.rwPosition.cluster == 4 && |f.partition.T()| == 5 && f.partition.T()[4] == CLUSTER_FREE
  {
    hide Mul, Div, Mod, Cache.Valid, Table, FileBytes, Closed, IsChain, FreeCount, Released, BlankFrom, FixedKept,
        ClusterBytes, Draw, FreeFrom, NextFree;
    SmallIsOk(false);
    f := CutBeforeCursor(false);
    ghost var v0 := f.partition.cache.view;
    RoomForTwo(f.partition.T());
    NextIsThree(f.partition.T());
    var errno;
    ret, errno := f.Truncate(700);
    assert Untouched(SMALL, v0, f.partition.cache.view, 4);
  }

  lemma NextIsThree(t: seq<nat>)
    requires |t| == 5 && t[2] != CLUSTER_FREE && t[3] == CLUSTER_FREE
    ensures SMALL.Bpc() == 512 && ChainAfter(SMALL, t, CLUSTER_FIRST, [2], 700) == [2, 3]
  {
    hide Mul, Div;
    SmallIsOk(false);
    Products();
    DivModUnique(1, 512, 187);
    assert Draw(t, 2, 0) == [] && Used(t, []) == t;
    assert FreeFrom(t, 2) == FreeFrom(t, 3) == 3;
  }
}
