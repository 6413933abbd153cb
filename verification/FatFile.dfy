/** An open file of a FAT volume (src/fat/fatfile.c): its size, its cursor, and what a client sees of it,
    a sequence of bytes. */
module FatFile {
  import opened Bytes
  import opened Arith
  import opened Volume
  import opened FatCodec
  import opened FatLaws
  import opened Chains
  import opened Fat
  import opened FileData
  import opened FileRead
  import opened FileWrite
  import opened FileExtend
  import opened DirEntry
  import opened Growth
  import opened SectorCache

  const FILE_MAX_SIZE: nat := 0xFFFF_FFFF

  /** `s` with `d` written at `p`; a gap before `p` is filled with zeros. */
  function Patched(s: seq<byte>, p: nat, d: seq<byte>): (r: seq<byte>)
    ensures |r| == Max(|s|, p + |d|)
  {
    if |s| < p then s + Zeros(p - |s|) + d
    else s[..p] + d + if p + |d| < |s| then s[p + |d|..] else []
  }

  /** Byte by byte: what was written, else what was there, else zero. */
  lemma PatchedAt(s: seq<byte>, p: nat, d: seq<byte>, i: nat)
    requires i < |Patched(s, p, d)|
    ensures |s| <= |Patched(s, p, d)| && p + |d| <= |Patched(s, p, d)|
    ensures i < |s| || i < p + |d|
    ensures Patched(s, p, d)[i] == if p <= i < p + |d| then d[i - p] else if i < |s| then s[i] else 0
  {
  }

  /** Writing into the clusters is patching the content. */
  lemma PatchContent(size: nat, r0: seq<byte>, r1: seq<byte>, p: nat, d: seq<byte>)
    requires Wrote(size, r0, r1, p, d) && p <= size <= |r0|
    ensures Max(size, p + |d|) <= |r1|
    ensures r1[..Max(size, p + |d|)] == Patched(r0[..size], p, d)
  {
    var n := Max(size, p + |d|);
    assert r1[p..p + |d|] == d;
    assert r1[p + |d|..n] == if p + |d| < size then r0[..size][p + |d|..] else [];
    assert r1[..n] == r1[..p] + r1[p..p + |d|] + r1[p + |d|..n];
  }

  lemma PatchAfterZeros(s: seq<byte>, p: nat, d: seq<byte>)
    requires |s| <= p
    ensures Patched(Patched(s, |s|, Zeros(p - |s|)), p, d) == Patched(s, p, d)
  {
  }

  datatype Whence = SEEK_SET | SEEK_CUR | SEEK_END | Other

  /** off_t is a signed 64-bit number. */
  function Wrap64(x: int): (y: int)
    ensures -0x8000_0000_0000_0000 <= y < 0x8000_0000_0000_0000
    ensures -0x8000_0000_0000_0000 <= x < 0x8000_0000_0000_0000 ==> y == x
    ensures 0x8000_0000_0000_0000 <= x < 0x1_0000_0000_0000_0000 ==> y < 0
  {
    (x + 0x8000_0000_0000_0000) % 0x1_0000_0000_0000_0000 - 0x8000_0000_0000_0000
  }

  /** size_t and offsets in a file are unsigned 32-bit numbers. */
  function Wrap32(x: nat): (y: nat)
    ensures y <= 0xFFFF_FFFF && (x <= 0xFFFF_FFFF ==> y == x)
    ensures 0x1_0000_0000 <= x < 0x2_0000_0000 ==> y == x - 0x1_0000_0000
  {
    x % 0x1_0000_0000
  }

  datatype Errno = EOK | EBADF | EOVERFLOW | EIO | EINVAL | ENOSPC | EFBIG | EACCES | EISDIR | EROFS

  datatype Access = ReadOnly | WriteOnly | ReadWrite | NoAccess

  class File {
    const partition: Partition
    var filesize: nat
    var startCluster: nat
    var currentPosition: nat
    var rwPosition: FilePosition
    var appendPosition: FilePosition
    const read: bool
    const write: bool
    const append: bool
    const dirEntryEnd: EntryPosition
    var inUse: bool
    var modified: bool
    ghost var chain: seq<nat>

    /** The chain of clusters belongs to the file and is just long enough for its size. */
    ghost predicate Stored()
      reads this, partition, partition.cache, partition.cache.Repr
    {
      && this !in partition.cache.Repr
      && partition.Valid()
      && Closed(partition.T()) && ChainFrom(partition.T(), startCluster, chain)
      && filesize <= FILE_MAX_SIZE && currentPosition <= FILE_MAX_SIZE
      && (if filesize == 0 then chain == []
          else chain != [] && Mul(|chain| - 1, partition.g.Bpc()) < filesize <= Mul(|chain|, partition.g.Bpc()))
    }

    /** The cursor: whenever the offset is not behind the end of a non-empty file, the position denotes it. */
    ghost predicate CursorOk()
      reads this, partition
    {
      0 < filesize && currentPosition <= filesize ==> Denotes(partition.g, chain, rwPosition, currentPosition)
    }

    ghost predicate AppendOk()
      reads this, partition
    {
      append && 0 < filesize ==> Denotes(partition.g, chain, appendPosition, filesize)
    }

    /** What an operation that ran out of space leaves: every free cluster is in the file's chain. */
    ghost predicate Exhausted()
      reads this, partition, partition.cache, partition.cache.Repr
    {
      partition.Valid() && NoneFree(partition.T()) && ChainFrom(partition.T(), startCluster, chain)
    }

    /** The position is in a cluster that is not the file's but in use. */
    ghost predicate InUseElsewhere()
      requires partition.Valid()
      reads this, partition, partition.cache, partition.cache.Repr
    {
      var c := rwPosition.cluster;
      c !in chain && !(InTable(partition.T(), c) && partition.T()[c] == CLUSTER_FREE)
    }

    /** What follows `size` in the clusters of the file is zero. */
    ghost predicate BlankBehind(size: nat)
      reads this, partition, partition.cache, partition.cache.Repr
    {
      WellFormed(partition.g, partition.cache.view, chain)
      && (ChainClusters(partition.g, partition.cache.view, chain);
          BlankFrom(FileBytes(partition.g, partition.cache.view, chain), size))
    }

    /** From table `t`, hint `h` and chain `ch` the file has got the clusters that searches find in turn. */
    ghost predicate Taken(t: seq<nat>, h: nat, ch: seq<nat>)
      reads this, partition, partition.cache, partition.cache.Repr
    {
      partition.Valid() && Allocated(t, h, ch, partition.T(), partition.Hint(), chain)
    }

    /** The chain of the file grown to `len` bytes: the first free clusters from the hint on follow. */
    ghost function ChainFor(len: nat): (ch: seq<nat>)
      requires partition.Valid() && partition.g.Bpc() > 0 && 0 < len && partition.Hint() <= partition.g.lastCluster
      reads this, partition, partition.cache, partition.cache.Repr
    {
      ChainAfter(partition.g, partition.T(), partition.Hint(), chain, len)
    }

    ghost predicate Valid()
      reads this, partition, partition.cache, partition.cache.Repr
    {
      Stored() && CursorOk() && AppendOk()
    }

    /** All bytes of the clusters of the file, also those behind its end. */
    ghost function Raw(): (d: seq<byte>)
      requires Stored()
      reads this, partition, partition.cache, partition.cache.Repr
    {
      ChainClusters(partition.g, partition.cache.view, chain);
      FileBytes(partition.g, partition.cache.view, chain)
    }

    ghost function Content(): (d: seq<byte>)
      requires Stored()
      ensures |d| == filesize
      reads this, partition, partition.cache, partition.cache.Repr
    {
      MulZero(partition.g.Bpc());
      Raw()[..filesize]
    }

    /** A cursor before the end has its position inside a cluster, not behind one. */
    predicate Settled()
      reads this, partition
    {
      currentPosition < filesize ==> rwPosition.sector < partition.g.spc
    }

    /** A cursor that is not on a cluster boundary has its position inside a cluster. */
    lemma SettledInside()
      requires Valid() && currentPosition < filesize && partition.g.Bpc() > 0
      ensures Mod(currentPosition, partition.g.Bpc()) != 0 ==> Settled()
    {
      hide Mul, Div, Mod;
      var k: nat :| At(partition.g, chain, rwPosition, k, currentPosition);
      BoundaryOffset(partition.g, chain, rwPosition, k, currentPosition);
    }

    /** How many bytes a read of `len` gets. */
    function Readable(len: nat): (n: nat)
      reads this
    {
      if currentPosition >= filesize then 0 else Min(len, filesize - currentPosition)
    }

    /** A read of less than a sector at a position behind the last sector of its cluster: it gets the
        sector that follows on the volume, whether or not that is where the file goes on. */
    predicate Misplaced(len: nat)
      reads this, partition
    {
      0 < Readable(len) < partition.g.bps && rwPosition.sector == partition.g.spc
    }

    constructor (partition: Partition, read: bool, write: bool, append: bool, dirEntryEnd: EntryPosition,
                 filesize: nat, startCluster: nat, appendPosition: FilePosition, modified: bool, ghost chain: seq<nat>)
      ensures this.partition == partition && this.read == read && this.write == write && this.append == append
      ensures this.dirEntryEnd == dirEntryEnd && this.filesize == filesize && this.startCluster == startCluster
      ensures currentPosition == 0 && rwPosition == FilePosition(startCluster, 0, 0)
              && this.appendPosition == appendPosition
      ensures inUse && this.modified == modified && this.chain == chain
    {
      this.partition := partition;
      this.read, this.write, this.append, this.dirEntryEnd := read, write, append, dirEntryEnd;
      this.filesize, this.startCluster, currentPosition := filesize, startCluster, 0;
      rwPosition, this.appendPosition := FilePosition(startCluster, 0, 0), appendPosition;
      inUse, this.modified := true, modified;
      this.chain := chain;
    }

    /** Opens the file of an entry that was looked up, or has just been created. The refusals come first;
        then the file is cut if asked, and the append position is put at its end. */
    static method Open(partition: Partition, access: Access, flagAppend: bool, flagTrunc: bool,
                       e: Entry, dirEntryEnd: EntryPosition, created: bool, ghost ch: seq<nat>)
      returns (file: File?, errno: Errno)
      requires partition.Valid() && Closed(partition.T()) && HasFile(partition.g, partition.cache.view, e, ch)
      modifies partition, partition.cache.Repr
      ensures file == null <==> errno != EOK
      ensures errno == if access == NoAccess then EACCES else if IsDirectory(e) then EISDIR
                       else if access != ReadOnly && !IsWritable(e) then EROFS else EOK
      ensures file == null || !(flagTrunc && access != ReadOnly && ch != []) ==>
                partition.cache.view == old(partition.cache.view) && partition.firstFree == old(partition.firstFree)
      ensures Confined(partition.g, old(partition.cache.view), partition.cache.view, ch)
      ensures file != null && flagTrunc && access != ReadOnly && ch != [] ==>
                partition.Valid() && partition.firstFree == Min(old(partition.firstFree), ch[0])
                && forall c: nat :: c in ch ==> c < |partition.T()| && partition.T()[c] == 0
      ensures file != null ==>
                && fresh(file) && file.partition == partition && file.dirEntryEnd == dirEntryEnd && file.inUse
                && file.read == (access != WriteOnly) && file.write == (access != ReadOnly) && file.append == flagAppend
                && file.Valid() && file.currentPosition == 0
                && var cut := flagTrunc && file.write && ch != [];
                   file.chain == (if cut then [] else ch) && file.modified == (created || cut)
                   && file.Content() == if cut then [] else old(FileContent(partition.g, partition.cache.view, e, ch))
      ensures partition.Valid() && (old(partition.Counted()) ==> partition.Counted())
    {
      hide Cache.Valid, Mul, FileBytes, Table, Closed, IsChain, FreeCount, FixedKept, Div, Mod, Get, Freed;
      ConfinedNot(partition.g, partition.cache.view, ch);
      if access == NoAccess {
        return null, EACCES;
      }
      if IsDirectory(e) {
        return null, EISDIR;
      }
      var write := access != ReadOnly;
      if write && !IsWritable(e) {
        return null, EROFS;
      }
      var filesize, startCluster, modified := SizeOf(e), StartOf(partition.g, e), created;
      ghost var chain, v0 := ch, partition.cache.view;
      StartOrNone(Table(partition.g, v0), startCluster, ch);
      if flagTrunc && write && startCluster != CLUSTER_FREE {
        CutOff(partition, startCluster, ch);
        startCluster, filesize, modified, chain := CLUSTER_FREE, 0, true, [];
      }
      var appendPosition := FilePosition(startCluster, 0, 0);
      if flagAppend {
        appendPosition := AppendAt(partition, startCluster, filesize, chain);
      }
      file := new File(partition, access != WriteOnly, write, flagAppend, dirEntryEnd, filesize, startCluster,
          appendPosition, modified, chain);
      if chain != [] {
        StartDenotes(partition.g, chain);
      }
      errno := EOK;
    }

    static method CutOff(partition: Partition, startCluster: nat, ghost ch: seq<nat>)
      requires partition.Valid() && Closed(partition.T()) && IsChain(partition.T(), ch) && ch[0] == startCluster
      modifies partition, partition.cache.Repr
      ensures partition.Valid() && Closed(partition.T())
      ensures Confined(partition.g, old(partition.cache.view), partition.cache.view, ch)
      ensures forall c: nat :: c in ch ==> c < |partition.T()| && partition.T()[c] == 0
      ensures partition.firstFree == Min(old(partition.firstFree), startCluster)
      ensures old(partition.Counted()) ==> partition.Counted()
    {
      hide Cache.Valid, Mul, Table, Closed, FreeCount, FixedKept, Freed;
      FreedReleases(partition.T(), ch);
      ghost var v0 := partition.cache.view;
      var _ := partition.ClearChainLinks(startCluster, ch);
      FreedElsewhere(Table(partition.g, v0), ch);
      ConfinedByTable(partition.g, v0, partition.cache.view, ch);
    }

    /** The position of the end, for a file opened for appending. */
    static method AppendAt(partition: Partition, startCluster: nat, filesize: nat, ghost ch: seq<nat>)
      returns (pos: FilePosition)
      requires partition.Valid() && ChainFrom(partition.T(), startCluster, ch)
      requires if filesize == 0 then ch == [] else JustLongEnough(partition.g, filesize, |ch|)
      modifies partition.cache.Repr
      ensures partition.Valid() && partition.cache.view == old(partition.cache.view)
      ensures filesize > 0 ==> Denotes(partition.g, ch, pos, filesize)
    {
      hide Cache.Valid, Mul, Table, Div, Mod, IsChain;
      OffsetParts(partition.g, filesize);
      var cluster := partition.LastCluster(startCluster, ch);
      var sector, byte := Div(Mod(filesize, partition.g.Bpc()), partition.g.bps), Mod(filesize, partition.g.bps);
      pos := FilePosition(cluster, sector, byte);
      if filesize > 0 {
        EndPosition(partition.g, filesize, |ch|);
        MulSucc(|ch| - 1, partition.g.Bpc());
        if Mod(filesize, partition.g.Bpc()) == 0 {
          pos := FilePosition(cluster, partition.g.spc, 0);
        }
        assert At(partition.g, ch, pos, |ch| - 1, filesize);
      }
    }

    /** The entry lies on the volume and not in the file's own clusters. */
    ghost predicate EntryApart()
      reads this, partition
    {
      OnVolume(partition.g, dirEntryEnd) && dirEntryEnd.cluster !in chain
    }

    /** Writes size and start cluster into the directory entry and flushes. After that the disc alone shows
        the file as the cache does. */
    method Sync(time: nat, date: nat) returns (errno: Errno)
      requires Stored() && EntryApart()
      modifies this`modified, partition.cache.Repr
      ensures Stored() && partition.T() == old(partition.T()) && Content() == old(Content())
      ensures errno == if inUse then EOK else EBADF
      ensures modified == (old(modified) && !inUse)
      ensures EntryAddress(partition.g, dirEntryEnd) + 32 <= |old(partition.cache.view)|
      ensures partition.cache.view == if inUse && write
              && old(modified) then EntrySynced(old(partition.cache.view), time, date) else old(partition.cache.view)
      ensures inUse && write && old(modified) ==>
                |partition.cache.part| <= |partition.cache.disc.bytes|
                && partition.cache.Image() == partition.cache.view
                && Shows(partition.g, partition.cache.Image(), dirEntryEnd, filesize, chain, Content())
    {
      hide Cache.Valid, Mul, FileBytes, Table, Closed, IsChain, Splice, Sub, Synced, Get;
      ghost var v := partition.cache.view;
      SlotOnVolume(partition.g, dirEntryEnd);
      if !inUse {
        return EBADF;
      }
      if write && modified {
        SyncEntry(time, date);
        var flushed := partition.cache.Flush();
        SyncShows(v, time, date);
      }
      modified := false;
      errno := EOK;
    }

    /** The volume with the updated entry. */
    ghost function EntrySynced(v: seq<byte>, time: nat, date: nat): (v': seq<byte>)
      requires OnVolume(partition.g, dirEntryEnd) && EntryAddress(partition.g, dirEntryEnd) + 32 <= |v|
      reads this, partition
    {
      var at := EntryAddress(partition.g, dirEntryEnd);
      Splice(v, at, Synced(Sub(v, at, 32), filesize, startCluster, time, date))
    }

    method SyncEntry(time: nat, date: nat)
      requires partition.Valid() && OnVolume(partition.g, dirEntryEnd) && this !in partition.cache.Repr
      modifies partition.cache.Repr
      ensures partition.Valid() && EntryAddress(partition.g, dirEntryEnd) + 32 <= |old(partition.cache.view)|
      ensures partition.cache.view == EntrySynced(old(partition.cache.view), time, date)
    {
      hide Cache.Valid, Mul, Splice, Sub, Synced;
      SlotOnVolume(partition.g, dirEntryEnd);
      var sector := partition.g.ClusterToSector(dirEntryEnd.cluster) + dirEntryEnd.sector;
      var ok, d := partition.cache.ReadPartialSector(sector, dirEntryEnd.offset * DIR_ENTRY_DATA_SIZE,
          DIR_ENTRY_DATA_SIZE);
      ok := partition.cache.WritePartialSector(Synced(d, filesize, startCluster, time, date), sector,
          dirEntryEnd.offset * DIR_ENTRY_DATA_SIZE);
    }

    lemma SyncShows(v: seq<byte>, time: nat, date: nat)
      requires IsVolume(partition.g, v) && (chain == [] || IsChain(Table(partition.g, v), chain)) && EntryApart()
      requires ChainFrom(Table(partition.g, v), startCluster, chain) && filesize <= FILE_MAX_SIZE
      requires filesize <= Mul(|chain|, partition.g.Bpc())
      ensures EntryAddress(partition.g, dirEntryEnd) + 32 <= |v|
      ensures var v' := EntrySynced(v, time, date);
              IsVolume(partition.g, v') && Table(partition.g, v') == Table(partition.g, v)
                  && Clusters(partition.g, chain)
              && FileBytes(partition.g, v', chain) == FileBytes(partition.g, v, chain)
              && Shows(partition.g, v', dirEntryEnd, filesize, chain, FileBytes(partition.g, v, chain)[..filesize])
    {
      hide Mul, FileBytes, Table, IsChain, Splice, Sub, Synced, Get;
      var g := partition.g;
      SlotOnVolume(g, dirEntryEnd);
      ChainClusters(g, v, chain);
      var at := EntryAddress(g, dirEntryEnd);
      var e := Synced(Sub(v, at, 32), filesize, startCluster, time, date);
      StartInTable(g, v, startCluster, chain);
      SyncedFields(g, Sub(v, at, 32), filesize, startCluster, time, date);
      SlotStore(g, v, dirEntryEnd, e, chain);
      SubOfSplice(v, at, e);
    }

    method Close(time: nat, date: nat) returns (ret: int, errno: Errno)
      requires Stored() && EntryApart()
      modifies this`modified, this`inUse, partition.cache.Repr
      ensures Stored() && partition.T() == old(partition.T()) && Content() == old(Content()) && !inUse
      ensures if old(inUse) then ret == 0 && errno == EOK else ret == -1 && errno == EBADF
      ensures EntryAddress(partition.g, dirEntryEnd) + 32 <= |old(partition.cache.view)|
      ensures partition.cache.view == if old(inUse && write && modified) then EntrySynced(old(partition.cache.view),
                  time, date)
                                      else old(partition.cache.view)
      ensures old(inUse && write && modified) ==>
                |partition.cache.part| <= |partition.cache.disc.bytes|
                && partition.cache.Image() == partition.cache.view
                && Shows(partition.g, partition.cache.Image(), dirEntryEnd, filesize, chain, Content())
    {
      hide Cache.Valid, Mul, FileBytes, Table, Closed, IsChain, Splice, Sub, Synced, Get;
      SlotOnVolume(partition.g, dirEntryEnd);
      ret, errno := 0, EOK;
      if !inUse {
        return -1, EBADF;
      }
      if write {
        errno := Sync(time, date);
        if errno != EOK {
          ret := -1;
        }
      }
      inUse := false;
    }

    method Read(len: nat) returns (r: int, ptr: seq<byte>, errno: Errno)
      requires Valid() && len <= FILE_MAX_SIZE
      requires currentPosition + len <= FILE_MAX_SIZE || filesize < Wrap32(currentPosition + len)
      requires Misplaced(len) ==> rwPosition.cluster < partition.g.lastCluster
      modifies this`currentPosition, this`rwPosition, partition.cache.Repr
      ensures Valid() && partition.cache.view == old(partition.cache.view) && Content() == old(Content())
      ensures len > 0 && (!inUse || !read) ==>
                r == -1 && errno == EBADF && ptr == [] && currentPosition == old(currentPosition)
      ensures len == 0 || (inUse && read) ==>
                r == |ptr| == Max(0, Min(len, filesize - old(currentPosition)))
                && currentPosition == old(currentPosition) + r
                && (errno == EOVERFLOW <==> r < len) && (r == len ==> errno == EOK)
      ensures r > 0 || old(Settled()) ==> Settled()
      ensures r <= 0 ==> rwPosition == old(rwPosition)
      ensures r > 0 && !old(Misplaced(len)) ==> ptr == Content()[old(currentPosition)..currentPosition]
      ensures r > 0 && old(Misplaced(len)) ==>
                var behind := ClusterBase(partition.g, old(rwPosition.cluster)) + partition.g.Bpc();
                behind + |ptr| <= |partition.cache.view| && ptr == Sub(partition.cache.view, behind, |ptr|)
    {
      hide Cache.Valid, Mul, Sub, FileBytes, Table, Closed, IsChain;
      errno := EOK;
      ptr := [];
      if len == 0 {
        return 0, [], EOK;
      }
      if !inUse || !read {
        return -1, [], EBADF;
      }
      if currentPosition >= filesize || startCluster == CLUSTER_FREE {
        return 0, [], EOVERFLOW;
      }
      var n := len;
      if Wrap32(currentPosition + len) > filesize {
        errno := EOVERFLOW;
        n := filesize - currentPosition;
      }
      var position, d;
      position, d := ReadSteps(n);
      SubOfPrefix(Raw(), filesize, currentPosition, n);
      rwPosition := position;
      currentPosition := currentPosition + |d|;
      r, ptr := |d|, d;
    }

    /** The way from the cursor over `n` bytes of the file. */
    method ReadSteps(n: nat) returns (position: FilePosition, ptr: seq<byte>)
      requires Valid() && 0 < n && currentPosition + n <= filesize
      requires rwPosition.sector == partition.g.spc && n < partition.g.bps ==>
                 rwPosition.cluster < partition.g.lastCluster
      modifies partition.cache.Repr
      ensures Stored() && partition.cache.view == old(partition.cache.view) && Raw() == old(Raw())
      ensures |ptr| == n && Denotes(partition.g, chain, position, currentPosition + n)
      ensures position.sector == partition.g.spc ==> currentPosition + n == filesize
      ensures !(rwPosition.sector == partition.g.spc && n < partition.g.bps) ==> Delivered(Raw(), currentPosition, ptr)
      ensures rwPosition.sector == partition.g.spc && n < partition.g.bps ==>
                var behind := ClusterBase(partition.g, rwPosition.cluster) + partition.g.Bpc();
                behind + n <= |partition.cache.view| && ptr == Sub(partition.cache.view, behind, n)
    {
      hide Cache.Valid, Mul, Sub, FileBytes, Table;
      ghost var ch, p := chain, currentPosition;
      ghost var k :| At(partition.g, ch, rwPosition, k, p);
      ChainClusters(partition.g, partition.cache.view, ch);
      BpcPositive(partition.g);
      ghost var raw := Raw();
      var remain: nat := n;
      var d, more;
      d, position := ReadHead(partition, rwPosition, remain, ch, k, p);
      ptr, remain := d, remain - |d|;
      more, position := ReadAlign(partition, position, remain, ch, k, p + |ptr|);
      ptr, remain := ptr + more, remain - |more|;
      var rest;
      rest, position := ReadOn(partition, position, remain, ch, k, p + |ptr|);
      ptr := ptr + rest;
      if rwPosition.sector < partition.g.spc || n >= partition.g.bps {
        Chained(raw, p, d, more, rest);
      }
    }

    /** The offset a seek asks for. */
    function Target(pos: int, dir: Whence): (t: int)
      reads this
    {
      match dir
      case SEEK_SET => pos
      case SEEK_CUR => currentPosition + pos
      case SEEK_END => filesize + pos
      case Other => -1
    }

    /** Moves the cursor. Only a seek forwards inside the file needs the position it starts from. That off_t has
        64 bits shows only in the reason for which an offset out of range is refused. */
    method Seek(pos: int, dir: Whence) returns (r: int, errno: Errno)
      requires Stored() && AppendOk() && -0x8000_0000_0000_0000 <= pos < 0x8000_0000_0000_0000
      requires CursorOk() || !(inUse && currentPosition <= Target(pos, dir) <= filesize)
      modifies this`currentPosition, this`rwPosition, partition.cache.Repr
      ensures Stored() && AppendOk() && partition.cache.view == old(partition.cache.view) && Content() == old(Content())
      ensures inUse && dir == SEEK_SET && 0 <= pos <= 0xFFFF_FFFF ==> r == currentPosition == pos
      ensures inUse && dir == SEEK_CUR && 0 <= old(currentPosition) + pos <= 0xFFFF_FFFF ==>
                r == currentPosition == old(currentPosition) + pos
      ensures inUse && dir == SEEK_END && 0 <= old(filesize) + pos <= 0xFFFF_FFFF ==>
                r == currentPosition == old(filesize) + pos
      ensures r != -1 ==> errno == EOK && CursorOk() && Settled()
      ensures r != -1 ==> inUse && !dir.Other? && 0 <= r <= 0xFFFF_FFFF
                          && r == pos + match dir case SEEK_CUR => old(currentPosition)
                                                  case SEEK_END => old(filesize)
                                                  case _ => 0
      ensures r == -1 ==>
                currentPosition == old(currentPosition) && rwPosition == old(rwPosition)
                && errno == if !inUse then EBADF
                            else if dir == SEEK_CUR && old(currentPosition) + pos > 0x7FFF_FFFF_FFFF_FFFF then EOVERFLOW
                            else if dir == SEEK_END && old(filesize) + pos > 0x7FFF_FFFF_FFFF_FFFF then EOVERFLOW
                            else EINVAL
      ensures currentPosition > filesize || filesize == 0 ==> rwPosition == old(rwPosition)
    {
      hide Cache.Valid, Mul, Sub, FileBytes, Table, Div, Mod;
      if !inUse {
        return -1, EBADF;
      }
      var newPosition;
      match dir {
        case SEEK_SET => newPosition := pos;
        case SEEK_CUR => newPosition := Wrap64(currentPosition + pos);
        case SEEK_END => newPosition := Wrap64(filesize + pos);
        case Other => return -1, EINVAL;
      }
      if pos > 0 && newPosition < 0 {
        return -1, EOVERFLOW;
      }
      if newPosition < 0 || newPosition > FILE_MAX_SIZE {
        return -1, EINVAL;
      }
      if newPosition <= filesize && startCluster != CLUSTER_FREE {
        Walk(newPosition);
      }
      currentPosition := newPosition;
      return newPosition, EOK;
    }

    /** Where a walk to `position` starts: the current cluster or the first one, and how far it is. */
    method WalkFrom(position: nat) returns (cluster: nat, clusCount: int, ghost i: nat)
      requires Stored() && startCluster != CLUSTER_FREE && position <= filesize
      requires CursorOk() || position < currentPosition
      ensures partition.g.Bpc() > 0 && i < |chain| && cluster == chain[i]
      ensures 0 <= clusCount == Div(position, partition.g.Bpc()) - i
    {
      hide Cache.Valid, Mul, Sub, FileBytes, Table, Div, Mod;
      OffsetParts(partition.g, position);
      clusCount := Div(position, partition.g.Bpc());
      cluster := startCluster;
      i := 0;
      if position >= currentPosition {
        i :| At(partition.g, chain, rwPosition, i, currentPosition);
        PositionParts(partition.g, chain, rwPosition, i, currentPosition);
        DivMono(currentPosition, position, partition.g.Bpc());
        var currentCount := Div(currentPosition, partition.g.Bpc());
        if rwPosition.sector == partition.g.spc {
          currentCount := currentCount - 1;
        }
        clusCount := clusCount - currentCount;
        cluster := rwPosition.cluster;
      }
    }

    /** Sets the position for `position`, walking along the chain. */
    method Walk(position: nat)
      requires Stored() && startCluster != CLUSTER_FREE && position <= filesize
      requires CursorOk() || position < currentPosition
      modifies this`rwPosition, partition.cache.Repr
      ensures Stored() && partition.cache.view == old(partition.cache.view) && Raw() == old(Raw())
      ensures Denotes(partition.g, chain, rwPosition, position)
      ensures position < filesize ==> rwPosition.sector < partition.g.spc
    {
      hide Cache.Valid, Mul, Sub, FileBytes, Table, Div, Mod;
      var cluster, clusCount;
      ghost var i;
      cluster, clusCount, i := WalkFrom(position);
      OffsetParts(partition.g, position);
      OffsetInChain(partition.g, position, |chain|);
      var sector := Div(Mod(position, partition.g.Bpc()), partition.g.bps);
      var byte := Mod(position, partition.g.bps);
      cluster, clusCount, i := Advance(cluster, clusCount, i);
      // The chain is just long enough: it can run out only at the end of a last cluster that is full.
      if clusCount > 0 {
        if clusCount == 1 && filesize == position && sector == 0 {
          sector := partition.g.spc;
          byte := 0;
        }
        MulSucc(i, partition.g.Bpc());
      }
      rwPosition := FilePosition(cluster, sector, byte);
      assert At(partition.g, chain, rwPosition, i, position);
    }

    /** Follows `count` links, or as many as there are. */
    method Advance(cluster0: nat, count: int, ghost i0: nat) returns (cluster: nat, clusCount: int, ghost i: nat)
      requires Stored() && i0 < |chain| && cluster0 == chain[i0] && 0 <= count
      modifies partition.cache.Repr
      ensures Stored() && partition.cache.view == old(partition.cache.view)
      ensures i < |chain| && cluster == chain[i] && 0 <= clusCount && i + clusCount == i0 + count
      ensures clusCount > 0 ==> i == |chain| - 1
    {
      hide Cache.Valid, Mul, Table;
      ghost var t, ch := partition.T(), chain;
      ChainClusters(partition.g, partition.cache.view, ch);
      cluster, clusCount, i := cluster0, count, i0;
      LinkOut(t, ch, i);
      var nextCluster := partition.NextCluster(cluster);
      while clusCount > 0 && nextCluster != CLUSTER_FREE && nextCluster != CLUSTER_EOF
        invariant Stored() && partition.T() == t && partition.cache.view == old(partition.cache.view)
        invariant 0 <= i < |ch| && cluster == ch[i] && InTable(t, cluster) && nextCluster == t[cluster]
        invariant 0 <= clusCount && i + clusCount == i0 + count
        decreases clusCount
      {
        LinkOut(t, ch, i);
        LinkOut(t, ch, i + 1);
        clusCount := clusCount - 1;
        cluster := nextCluster;
        i := i + 1;
        nextCluster := partition.NextCluster(cluster);
      }
      LinkOut(t, ch, i);
    }

    /** A file that has clusters: its chain is just long enough, or it has just been started. */
    ghost predicate Linked()
      reads this, partition, partition.cache, partition.cache.Repr
    {
      && this !in partition.cache.Repr
      && partition.Valid()
      && WellFormed(partition.g, partition.cache.view, chain)
      && chain != [] && chain[0] == startCluster
      && filesize <= FILE_MAX_SIZE && currentPosition <= FILE_MAX_SIZE
      && JustLongEnough(partition.g, filesize, |chain|)
    }

    lemma StoredIsLinked()
      requires Stored() && chain != []
      ensures Linked() && filesize <= |FileBytes(partition.g, partition.cache.view, chain)|
      ensures Content() == FileBytes(partition.g, partition.cache.view, chain)[..filesize]
    {
      ChainClusters(partition.g, partition.cache.view, chain);
    }

    lemma LinkedIsStored()
      requires Linked() && filesize > 0
      ensures Stored() && filesize <= |FileBytes(partition.g, partition.cache.view, chain)|
      ensures Content() == FileBytes(partition.g, partition.cache.view, chain)[..filesize]
    {
      ChainClusters(partition.g, partition.cache.view, chain);
    }

    /** The bytes up to the size, of a file with or without clusters. */
    ghost function Bytes(): (d: seq<byte>)
      requires WellFormed(partition.g, partition.cache.view, chain)
      reads this, partition, partition.cache
    {
      ChainClusters(partition.g, partition.cache.view, chain);
      var raw := FileBytes(partition.g, partition.cache.view, chain);
      if filesize <= |raw| then raw[..filesize] else raw
    }

    /** Gives a file without clusters its first one. */
    method StartFile() returns (ok: bool)
      requires Stored() && partition.firstFree <= partition.g.lastCluster
      modifies this`startCluster, this`chain, this`appendPosition, this`rwPosition, partition, partition.cache.Repr
      ensures ok ==> Linked() && partition.firstFree <= partition.g.lastCluster
      ensures Grown(partition.g, old(partition.cache.view), old(chain), partition.cache.view, chain)
      ensures Bytes() == old(Bytes())
      ensures ok ==> if old(chain) == [] then rwPosition == appendPosition == FilePosition(startCluster, 0, 0)
                     else rwPosition == old(rwPosition) && appendPosition == old(appendPosition)
                          && chain == old(chain) && partition.cache.view == old(partition.cache.view)
      ensures !ok ==> old(chain) == [] && Stored() && chain == [] && Exhausted() && BlankBehind(0)
                      && rwPosition == old(rwPosition) && appendPosition == old(appendPosition)
      ensures ok ==> Taken(old(partition.T()), old(partition.Hint()), old(chain))
      ensures old(partition.Counted()) ==> partition.Valid() && partition.Counted()
    {
      hide Cache.Valid, Mul, FileBytes, Table, Closed, NoneFree, FreeCount, Untouched, FixedKept, Allocated, BlankFrom;
      ghost var v0 := partition.cache.view;
      AllocatedNot(partition.T(), partition.Hint(), chain);
      NothingIsBlank(partition.g, v0);
      GrownNot(partition.g, v0, chain);
      ok := true;
      if startCluster == CLUSTER_FREE {
        assert chain == [];
        var next := LinkTail(partition, CLUSTER_FREE, chain);
        if !partition.g.IsValidCluster(next) {
          return false;
        }
        startCluster := next;
        chain := [next];
        assert [] + [next] == [next];
        appendPosition := FilePosition(startCluster, 0, 0);
        rwPosition := FilePosition(startCluster, 0, 0);
      } else {
        StoredIsLinked();
      }
    }

    /** Fills the gap between the end of the file and a cursor behind it. */
    method GrowToCursor() returns (ok: bool)
      requires Linked() && filesize < currentPosition && partition.firstFree <= partition.g.lastCluster
      modifies this`filesize, this`chain, this`rwPosition, partition, partition.cache.Repr
      ensures Grown(partition.g, old(partition.cache.view), old(chain), partition.cache.view, chain)
              && partition.Valid()
      ensures ok ==> Linked() && partition.firstFree <= partition.g.lastCluster && filesize == currentPosition
      ensures ok ==> Denotes(partition.g, chain, rwPosition, currentPosition)
      ensures ok ==> Bytes() == Patched(old(Bytes()), old(filesize), Zeros(currentPosition - old(filesize)))
      ensures !ok ==> filesize == old(filesize) && Bytes() == old(Bytes()) && BlankBehind(filesize)
                      && Mul(|chain|, partition.g.Bpc()) < currentPosition && Exhausted()
      ensures ok ==> Taken(old(partition.T()), old(partition.Hint()), old(chain))
      ensures old(partition.Counted()) ==> partition.Counted()
    {
      hide Cache.Valid, Mul, FileBytes, Table, Closed, IsChain, NoneFree, FreeCount, Untouched, FixedKept, Patched,
          Wrote, Allocated, BlankFrom;
      ghost var v0, ch0 := partition.cache.view, chain;
      ChainClusters(partition.g, v0, ch0);
      var pos;
      ghost var k;
      ok, pos, chain, k := Extend(partition, startCluster, filesize, currentPosition, chain);
      if ok {
        PatchContent(filesize, FileBytes(partition.g, v0, ch0), FileBytes(partition.g, partition.cache.view, chain),
            filesize, Zeros(currentPosition - filesize));
        PositionInFile(partition.g, chain, pos, k, currentPosition);
        StillLongEnough(partition.g, ch0, chain, filesize, currentPosition);
        rwPosition := pos;
        filesize := currentPosition;
      }
    }

    /** Grows the file with the cursor at the new size, then puts the cursor back. */
    method GrowTo(len: nat) returns (ok: bool)
      requires Linked() && filesize < len <= FILE_MAX_SIZE && partition.firstFree <= partition.g.lastCluster
      modifies this`filesize, this`chain, this`rwPosition, this`appendPosition, this`currentPosition, partition,
               partition.cache.Repr
      ensures Grown(partition.g, old(partition.cache.view), old(chain), partition.cache.view, chain)
              && partition.Valid()
      ensures ok ==> Linked() && filesize == len && Bytes() == Patched(old(Bytes()), len, [])
      ensures ok ==> partition.firstFree <= partition.g.lastCluster
      ensures ok && append ==> Denotes(partition.g, chain, appendPosition, len)
      ensures !ok ==> filesize == old(filesize) && Bytes() == old(Bytes()) && Exhausted() && BlankBehind(filesize)
                      && Mul(|chain|, partition.g.Bpc()) < len
      ensures rwPosition == old(rwPosition) && currentPosition == old(currentPosition)
      ensures ok ==> Taken(old(partition.T()), old(partition.Hint()), old(chain))
      ensures old(partition.Counted()) ==> partition.Counted()
    {
      hide Cache.Valid, Mul, FileBytes, Table, Closed, IsChain, NoneFree, FreeCount, Untouched, FixedKept, Patched,
          Wrote, Allocated, BlankFrom;
      BytesLength();
      PatchZeros(Bytes(), len);
      var savedPosition, savedOffset := rwPosition, currentPosition;
      currentPosition := len;
      ok := GrowToCursor();
      if append {
        appendPosition := rwPosition;
      }
      rwPosition, currentPosition := savedPosition, savedOffset;
    }

    lemma BytesLength()
      requires Linked()
      ensures |Bytes()| == filesize
    {
      ChainClusters(partition.g, partition.cache.view, chain);
    }

    /** The steps of a write at a position that denotes `p`. The new chain is recorded; size and positions
        are left to the caller. */
    method StoreAt(position: FilePosition, ptr: seq<byte>, flagAppending: bool, ghost p: nat)
      returns (n: nat, pos: FilePosition)
      requires Linked() && partition.firstFree <= partition.g.lastCluster && p <= filesize && 0 < |ptr|
      requires Denotes(partition.g, chain, position, p) && (flagAppending ==> filesize <= p + |ptr|)
      modifies this`chain, partition, partition.cache.Repr
      ensures Grown(partition.g, old(partition.cache.view), old(chain), partition.cache.view, chain)
              && partition.Valid()
      ensures n <= |ptr| && (n < |ptr| ==> NoneFree(partition.T()) && p + n == Mul(|chain|, partition.g.Bpc()))
      ensures n == |ptr| ==> partition.firstFree <= partition.g.lastCluster
      ensures Denotes(partition.g, chain, pos, p + n) && p + n <= Mul(|chain|, partition.g.Bpc())
      ensures n > 0 ==> BehindStart(pos)
      ensures Clusters(partition.g, chain)
              && Max(filesize, p + n) <= |FileBytes(partition.g, partition.cache.view, chain)|
      ensures FileBytes(partition.g, partition.cache.view, chain)[..Max(filesize, p + n)] == Patched(old(Bytes()), p,
              ptr[..n])
      ensures chain != [] && chain[0] == startCluster
              && (0 < Max(filesize, p + n) ==> JustLongEnough(partition.g, Max(filesize, p + n), |chain|))
      ensures old(partition.Counted()) ==> partition.Counted()
    {
      hide Cache.Valid, Mul, FileBytes, Table, Closed, IsChain, NoneFree, FreeCount, Untouched, FixedKept, Patched,
          Wrote;
      ghost var v0, ch0 := partition.cache.view, chain;
      ghost var k: nat :| At(partition.g, chain, position, k, p);
      ChainClusters(partition.g, v0, ch0);
      n, pos, chain, k := WriteSteps(partition, position, ptr, flagAppending, chain, k, p, filesize);
      PatchContent(filesize, FileBytes(partition.g, v0, ch0), FileBytes(partition.g, partition.cache.view, chain), p,
          ptr[..n]);
      PositionInFile(partition.g, chain, pos, k, p + n);
      if 0 < Max(filesize, p + n) {
        if n < |ptr| {
          FullIsNeeded(partition.g, ch0, chain);
        }
        StillLongEnough(partition.g, ch0, chain, filesize, p + n);
      }
    }

    /** How many bytes fit: those of the file's clusters and of all free ones. */
    ghost function Capacity(): (n: nat)
      requires Stored()
      reads this, partition, partition.cache, partition.cache.Repr
    {
      Mul(|chain| + FreeCount(partition.T()), partition.g.Bpc())
    }

    /** A cluster is free if its entry is zero. */
    lemma CapacityIs()
      requires Stored()
      ensures Capacity()
           == (|chain| + |set c | 2 <= c <= partition.g.lastCluster && partition.T()[c] == 0|)
              * (partition.g.spc * partition.g.bps)
    {
      hide Cache.Valid, Mul, Table, FreeCount, FileBytes, IsChain, Closed;
      var t := partition.T();
      FreeCountIs(t);
      MulIsProduct(|chain| + FreeCount(t), partition.g.Bpc());
      MulIsProduct(partition.g.spc, partition.g.bps);
      assert (set c | 2 <= c < |t| && t[c] == 0) == set c | 2 <= c <= partition.g.lastCluster && t[c] == 0;
    }

    function WriteStart(): (p: nat)
      reads this
    {
      if append then filesize else currentPosition
    }

    /** Writes at the cursor, or at the end in append mode, growing the file as needed. The result is exact:
        everything fits that the free clusters have room for. */
    method Write(ptr: seq<byte>) returns (r: int, errno: Errno)
      requires Valid() && partition.firstFree <= partition.g.lastCluster && currentPosition + |ptr| <= FILE_MAX_SIZE
      modifies this, partition, partition.cache.Repr
      ensures Grown(partition.g, old(partition.cache.view), old(chain), partition.cache.view, chain)
              && partition.Valid()
      ensures var start, n := if append then old(filesize) else old(currentPosition),
                  Min(|ptr|, 0xFFFF_FFFF - old(filesize));
              && r == (if !(inUse && write) then -1
                       else if n == 0 then 0
                       else if start > old(Capacity()) || old(Capacity()) == 0 then -1
                       else Min(n, old(Capacity()) - start))
              && errno == if !(inUse && write) then EBADF else if r == n then EOK else ENOSPC
      ensures r == -1 || ptr == [] || old(filesize) == FILE_MAX_SIZE ==>
                filesize == old(filesize) && currentPosition == old(currentPosition) && Bytes() == old(Content())
      ensures r == -1 && old(inUse && write) ==> Exhausted() && BlankBehind(filesize)
      ensures r != -1 && ptr != [] && old(filesize) < FILE_MAX_SIZE ==>
                Stored() && AppendOk() && modified
                && Content() == Patched(old(Content()), old(WriteStart()), ptr[..r])
                && currentPosition == old(currentPosition) + (if append then 0 else r)
                && (!append || old(currentPosition) <= old(filesize) || filesize < currentPosition ==> CursorOk())
      ensures r > 0 && !append ==>
                partition.g.Bpc() > 0
                && (rwPosition.sector == partition.g.spc <==> Mod(currentPosition, partition.g.Bpc()) == 0)
      ensures errno == EOK ==> partition.firstFree <= partition.g.lastCluster
      ensures !(inUse && write && ptr != [] && old(filesize) < FILE_MAX_SIZE) ==>
                Valid() && rwPosition == old(rwPosition) && chain == old(chain)
                    && partition.cache.view == old(partition.cache.view)
      ensures old(partition.Counted()) ==> partition.Counted()
      ensures inUse == old(inUse) && (old(modified) ==> modified)
    {
      hide Cache.Valid, Mul, FileBytes, Table, Closed, IsChain, NoneFree, FreeCount, Untouched, FixedKept, Patched,
          Wrote, Allocated, BlankFrom;
      GrownNot(partition.g, partition.cache.view, chain);
      BytesIsContent();
      if !inUse || !write {
        return -1, EBADF;
      }
      var len := |ptr|;
      if len + filesize > FILE_MAX_SIZE {
        len := FILE_MAX_SIZE - filesize;
      }
      if len <= 0 {
        return 0, EOK;
      }
      r, errno := WriteSome(ptr[..len]);
      assert r >= 0 ==> ptr[..len][..r] == ptr[..r];
      if r > 0 && !append {
        BoundaryForm(partition.g, chain, rwPosition, currentPosition);
      }
    }

    /** The part of a write before the bytes are stored: a start cluster, and zeros up to the cursor. */
    method Prepare() returns (ok: bool, position: FilePosition)
      requires Valid() && partition.firstFree <= partition.g.lastCluster
      modifies this`startCluster, this`chain, this`appendPosition, this`rwPosition, this`filesize, partition,
               partition.cache.Repr
      ensures Grown(partition.g, old(partition.cache.view), old(chain), partition.cache.view, chain)
              && partition.Valid()
      ensures ok ==>
                Linked() && partition.firstFree <= partition.g.lastCluster
                  && filesize == Max(old(filesize), WriteStart())
      ensures ok ==> Denotes(partition.g, chain, position, WriteStart())
      ensures ok ==> Bytes() == Patched(old(Content()), old(WriteStart()), []) && WriteStart() == old(WriteStart())
      ensures ok && 0 < old(filesize) && old(currentPosition) <= old(filesize) ==>
                Denotes(partition.g, chain, rwPosition, old(currentPosition))
      ensures ok && old(filesize) == 0 && old(currentPosition) == 0 ==> Denotes(partition.g, chain, rwPosition, 0)
      ensures !ok ==> filesize == old(filesize) && Bytes() == old(Content()) && NoneFree(partition.T())
                      && (chain == [] || Mul(|chain|, partition.g.Bpc()) < WriteStart())
                      && WriteStart() == old(WriteStart()) && Exhausted() && BlankBehind(filesize)
      ensures old(partition.Counted()) ==> partition.Counted()
    {
      hide Cache.Valid, Mul, FileBytes, Table, Closed, IsChain, NoneFree, FreeCount, Untouched, FixedKept, Patched,
          Wrote, Allocated, BlankFrom;
      ghost var v0, ch0 := partition.cache.view, chain;
      BytesIsContent();
      ghost var s := Content();
      PatchNothing(s, WriteStart());
      ok := StartFile();
      position := appendPosition;
      if !ok {
        return;
      }
      StartDenotes(partition.g, chain);
      if !append {
        if currentPosition > filesize {
          ghost var v1, ch1 := partition.cache.view, chain;
          ok := GrowToCursor();
          GrownMore(partition.g, v0, ch0, v1, ch1, partition.cache.view, chain);
          PatchZeros(s, currentPosition);
        }
        position := rwPosition;
      }
    }

    method WriteSome(ptr: seq<byte>) returns (r: int, errno: Errno)
      requires Valid() && partition.firstFree <= partition.g.lastCluster && currentPosition + |ptr| <= FILE_MAX_SIZE
      requires inUse && write && 0 < |ptr| && filesize + |ptr| <= FILE_MAX_SIZE
      modifies this`startCluster, this`chain, this`appendPosition, this`rwPosition, this`filesize,
               this`currentPosition, this`modified,
               partition, partition.cache.Repr
      ensures Grown(partition.g, old(partition.cache.view), old(chain), partition.cache.view, chain)
              && partition.Valid()
      ensures r == if old(WriteStart()) > old(Capacity()) || old(Capacity()) == 0 then -1
              else Min(|ptr|, old(Capacity()) - old(WriteStart()))
      ensures errno == if r == |ptr| then EOK else ENOSPC
      ensures old(modified) ==> modified
      ensures r == -1 ==>
                filesize == old(filesize) && currentPosition == old(currentPosition) && Bytes() == old(Content())
      ensures r == -1 ==> Exhausted() && BlankBehind(filesize)
      ensures r != -1 ==>
                Stored() && AppendOk() && Content() == Patched(old(Content()), old(WriteStart()), ptr[..r]) && modified
                && currentPosition == old(currentPosition) + (if append then 0 else r)
                && (!append || old(currentPosition) <= old(filesize) || filesize < currentPosition ==> CursorOk())
      ensures r > 0 ==> BehindStart(if append then appendPosition else rwPosition)
      ensures r == |ptr| ==> partition.firstFree <= partition.g.lastCluster
      ensures old(partition.Counted()) ==> partition.Counted()
    {
      hide Cache.Valid, Mul, FileBytes, Table, Closed, IsChain, NoneFree, FreeCount, Untouched, FixedKept, Patched,
          Wrote, Allocated, BlankFrom;
      ghost var v0, ch0, p := partition.cache.view, chain, WriteStart();
      ghost var s := Content();
      var ok, position := Prepare();
      ghost var v1, ch1 := partition.cache.view, chain;
      if !ok {
        NoRoom(partition.g, v0, ch0, v1, ch1, p);
        return -1, ENOSPC;
      }
      var n := StoreAndFinish(position, ptr);
      GrownMore(partition.g, v0, ch0, v1, ch1, partition.cache.view, chain);
      RoomFor(partition.g, v0, ch0, partition.cache.view, chain, p, n, |ptr|);
      PatchPatch(s, p, ptr[..n]);
      r, errno := n, if n == |ptr| then EOK else ENOSPC;
    }

    /** The part of a write from the storing of the bytes on. */
    method StoreAndFinish(position: FilePosition, ptr: seq<byte>) returns (n: nat)
      requires Linked() && partition.firstFree <= partition.g.lastCluster && 0 < |ptr|
      requires WriteStart() <= filesize && filesize + |ptr| <= FILE_MAX_SIZE && currentPosition + |ptr| <= FILE_MAX_SIZE
      requires Denotes(partition.g, chain, position, WriteStart())
      modifies this`chain, this`appendPosition, this`rwPosition, this`filesize, this`currentPosition, this`modified,
               partition, partition.cache.Repr
      ensures Grown(partition.g, old(partition.cache.view), old(chain), partition.cache.view, chain)
              && partition.Valid()
      ensures n <= |ptr| && old(WriteStart()) + n <= Mul(|chain|, partition.g.Bpc()) && chain != []
      ensures n < |ptr| ==> NoneFree(partition.T()) && old(WriteStart()) + n == Mul(|chain|, partition.g.Bpc())
      ensures n == |ptr| ==> partition.firstFree <= partition.g.lastCluster
      ensures Stored() && AppendOk() && Content() == Patched(old(Bytes()), old(WriteStart()), ptr[..n]) && modified
      ensures currentPosition == old(currentPosition) + if append then 0 else n
      ensures !append ==> CursorOk()
      ensures old(Denotes(partition.g, chain, rwPosition, currentPosition)) || filesize < currentPosition ==> CursorOk()
      ensures n > 0 ==> BehindStart(if append then appendPosition else rwPosition)
      ensures filesize == Max(old(filesize), old(WriteStart()) + n)
      ensures old(partition.Counted()) ==> partition.Counted()
    {
      hide Cache.Valid, Mul, FileBytes, Table, Closed, IsChain, NoneFree, FreeCount, Untouched, FixedKept, Patched,
          Wrote, Denotes;
      ghost var ch0, p := chain, WriteStart();
      var flagAppending := append || |ptr| + currentPosition > filesize;
      var pos;
      n, pos := StoreAt(position, ptr, flagAppending, p);
      SomethingFits(partition.g, chain, p, n, |ptr|);
      SameCursor(partition.g, ch0, chain, rwPosition, currentPosition);
      modified := true;
      if append {
        appendPosition := pos;
        filesize := filesize + n;
      } else {
        rwPosition := pos;
        currentPosition := currentPosition + n;
        if filesize < currentPosition {
          filesize := currentPosition;
        }
      }
      LinkedIsStored();
    }

    lemma BytesIsContent()
      requires Stored()
      ensures WellFormed(partition.g, partition.cache.view, chain) && Bytes() == Content()
    {
      ChainClusters(partition.g, partition.cache.view, chain);
      MulZero(partition.g.Bpc());
    }

    /** The cursor sits exactly at the new end, at the start of a cluster that is about to be dropped. */
    predicate CutAtCursor(len: nat)
      reads this, partition
      requires partition.g.Bpc() > 0
    {
      0 < len == currentPosition && Mod(len, partition.g.Bpc()) == 0 && rwPosition.sector == 0
    }

    /** Sets the size. Growing adds zeros and succeeds exactly if there is room; when it fails the size is
        set all the same and the chain is too short for it, unless there was no cluster to start with. Shrinking
        keeps the first `len` bytes; it loses the position of the cursor exactly when that was in a dropped cluster
        but not behind the new end. Growing over a cursor behind the end leaves the position: it is right exactly
        if it denotes the cursor in the chain the file has then, which the table and the hint decide. */
    method Truncate(len: int) returns (ret: int, errno: Errno)
      requires Valid() && partition.firstFree <= partition.g.lastCluster && partition.g.Bpc() > 0
      modifies this, partition, partition.cache.Repr
      ensures ret == 0 <==> old(inUse && write && 0 <= len <= 0xFFFF_FFFF && (len <= filesize || len <= Capacity()))
      ensures ret == 0 ==> errno == EOK && Stored() && AppendOk() && filesize == len && modified
                           && Content() == (if len <= old(filesize) then old(Content())[..len]
                                            else Patched(old(Content()), len, []))
      ensures ret == 0 && len >= old(filesize) ==>
                Grown(partition.g, old(partition.cache.view), old(chain), partition.cache.view, chain)
      ensures ret == 0 && len < old(filesize) ==>
                Confined(partition.g, old(partition.cache.view), partition.cache.view, old(chain))
                  && chain <= old(chain)
                  && Released(partition.T(), old(chain), chain)
                  && partition.firstFree <= old(partition.firstFree)
      ensures ret == 0 ==> partition.firstFree <= partition.g.lastCluster && Capacity() == old(Capacity())
      ensures ret == 0 && old(filesize) > 0 ==> rwPosition == old(rwPosition)
      ensures inUse == old(inUse) && (old(modified) ==> modified)
      ensures ret == 0 && len >= old(filesize) && (old(currentPosition) <= old(filesize) || len < currentPosition) ==>
                CursorOk()
      ensures ret == 0 && old(filesize) == 0 < currentPosition <= len ==> !CursorOk()
      ensures ret == 0 && len > old(filesize) ==> chain == old(ChainFor(len))
      ensures ret == 0 && 0 < old(filesize) < currentPosition <= len ==>
                (CursorOk() <==> old(Denotes(partition.g, ChainFor(len), rwPosition, currentPosition)))
                && (old(Denotes(partition.g, chain, rwPosition, currentPosition)) ==> CursorOk())
                && (old(DenotesOther(partition.g, chain, rwPosition, currentPosition) || InUseElsewhere())
                    ==> !CursorOk())
      ensures ret == 0 && len < old(filesize) ==> (CursorOk() <==> !old(CutAtCursor(len)))
      ensures ret != 0 ==>
                ret == -1
                && errno == if len < 0 then EINVAL else if len > 0xFFFF_FFFF then EFBIG else if !inUse then EBADF
                            else if !write then EINVAL else ENOSPC
      ensures errno == ENOSPC ==>
                Exhausted() && 0 <= len && Mul(|chain|, partition.g.Bpc()) < len
                && Grown(partition.g, old(partition.cache.view), old(chain), partition.cache.view, chain)
                && old(Content()) <= Bytes() && BlankBehind(old(filesize))
                && filesize == (if chain == [] then old(filesize) else len)
                && modified == (old(modified) || chain != [])
      ensures ret != 0 && errno != ENOSPC ==>
                partition.cache.view == old(partition.cache.view) && filesize == old(filesize) && chain == old(chain)
      ensures currentPosition == old(currentPosition)
      ensures old(partition.Counted()) ==> partition.Valid() && partition.Counted()
    {
      hide Cache.Valid, Mul, FileBytes, Table, Closed, IsChain, NoneFree, FreeCount, Untouched, FixedKept, Patched,
          Wrote, Released, Denotes, Allocated, BlankFrom, ChainAfter;
      ret, errno := 0, EOK;
      if len < 0 {
        return -1, EINVAL;
      }
      if len > FILE_MAX_SIZE {
        return -1, EFBIG;
      }
      if !inUse {
        return -1, EBADF;
      }
      if !write {
        return -1, EINVAL;
      }
      if len == filesize {
        GrownNot(partition.g, partition.cache.view, chain);
        WithinCapacity();
        modified := true;
      } else {
        ret, errno := Resize(len);
      }
    }

    /** The part of a truncation from the comparison with the size on. */
    method Resize(len: nat) returns (ret: int, errno: Errno)
      requires Valid() && partition.firstFree <= partition.g.lastCluster && partition.g.Bpc() > 0
      requires len != filesize && len <= FILE_MAX_SIZE
      modifies this`startCluster, this`chain, this`appendPosition, this`rwPosition, this`filesize,
               this`currentPosition, this`modified, partition, partition.cache.Repr
      ensures ret == (if len <= old(filesize) || len <= old(Capacity()) then 0 else -1)
      ensures errno == if ret == 0 then EOK else ENOSPC
      ensures currentPosition == old(currentPosition)
      ensures ret == 0 ==> Stored() && AppendOk() && filesize == len && modified
                           && Content() == (if len <= old(filesize) then old(Content())[..len]
                                            else Patched(old(Content()), len, []))
      ensures ret == 0 ==> partition.firstFree <= partition.g.lastCluster && Capacity() == old(Capacity())
      ensures ret == 0 && old(filesize) > 0 ==> rwPosition == old(rwPosition)
      ensures len > old(filesize) ==>
                Grown(partition.g, old(partition.cache.view), old(chain), partition.cache.view, chain)
      ensures len < old(filesize) ==>
                Confined(partition.g, old(partition.cache.view), partition.cache.view, old(chain))
                  && chain <= old(chain)
      ensures len < old(filesize) ==> Released(partition.T(), old(chain), chain)
      ensures len < old(filesize) ==> partition.firstFree <= old(partition.firstFree)
      ensures ret == 0 && len > old(filesize) && (old(currentPosition) <= old(filesize) || len < currentPosition) ==>
                CursorOk()
      ensures ret == 0 && old(filesize) == 0 < currentPosition <= len ==> !CursorOk()
      ensures ret == 0 && len > old(filesize) ==> chain == old(ChainFor(len))
      ensures ret == 0 && 0 < old(filesize) < currentPosition <= len ==>
                (CursorOk() <==> old(Denotes(partition.g, ChainFor(len), rwPosition, currentPosition)))
                && (old(Denotes(partition.g, chain, rwPosition, currentPosition)) ==> CursorOk())
                && (old(DenotesOther(partition.g, chain, rwPosition, currentPosition) || InUseElsewhere())
                    ==> !CursorOk())
      ensures len < old(filesize) ==> (CursorOk() <==> !old(CutAtCursor(len)))
      ensures ret != 0 ==>
                Exhausted() && Mul(|chain|, partition.g.Bpc()) < len && old(Content()) <= Bytes()
                && BlankBehind(old(filesize))
                && filesize == (if chain == [] then old(filesize) else len)
                && modified == (old(modified) || chain != [])
      ensures old(partition.Counted()) ==> partition.Valid() && partition.Counted()
    {
      hide Cache.Valid, Mul, FileBytes, Table, Closed, IsChain, NoneFree, FreeCount, Untouched, FixedKept, Patched,
          Wrote, Denotes, Confined, CutAtCursor, Released, Allocated, BlankFrom, ChainAfter;
      ret, errno := 0, EOK;
      if len > filesize {
        ghost var ch0 := chain;
        ret, errno := TruncateGrow(len);
        if ret == 0 {
          GrownChain(partition.g, old(partition.T()), old(partition.Hint()), ch0, partition.T(), partition.Hint(),
              chain, len);
        }
        SameCursor(partition.g, ch0, chain, rwPosition, currentPosition);
        NotTaken(partition.g, old(partition.cache.view), ch0, partition.cache.view, chain, old(rwPosition),
            currentPosition);
        OtherStays(partition.g, partition.cache.view, ch0, chain, old(rwPosition), currentPosition);
        if ret != 0 {
          LongerBytes(len);
          StartOrNone(partition.T(), startCluster, chain);
        }
        if startCluster == CLUSTER_FREE {
          return;
        }
      } else {
        TruncateShrink(len);
      }
      filesize := len;
      modified := true;
    }

    /** A longer size shows more bytes of the same clusters. */
    lemma LongerBytes(len: nat)
      requires WellFormed(partition.g, partition.cache.view, chain) && filesize <= len
      ensures Clusters(partition.g, chain)
      ensures var raw := FileBytes(partition.g, partition.cache.view, chain);
              Bytes() <= if len <= |raw| then raw[..len] else raw
    {
      ChainClusters(partition.g, partition.cache.view, chain);
    }

    /** A first cluster if there is none, and then zeros up to the new size; the cursor stays. */
    method StartAndGrow(len: nat) returns (ok: bool)
      requires Valid() && partition.firstFree <= partition.g.lastCluster && filesize < len <= FILE_MAX_SIZE
      modifies this`startCluster, this`chain, this`appendPosition, this`rwPosition, this`filesize,
               this`currentPosition, partition, partition.cache.Repr
      ensures partition.Valid() && currentPosition == old(currentPosition)
      ensures Grown(partition.g, old(partition.cache.view), old(chain), partition.cache.view, chain)
      ensures ok ==> Linked() && filesize == len && Bytes() == Patched(old(Content()), len, [])
      ensures ok ==> partition.firstFree <= partition.g.lastCluster
      ensures ok && append ==> Denotes(partition.g, chain, appendPosition, len)
      ensures ok ==> rwPosition == if old(chain) == [] then FilePosition(startCluster, 0, 0) else old(rwPosition)
      ensures ok ==> Taken(old(partition.T()), old(partition.Hint()), old(chain))
      ensures !ok ==> (chain == [] || Mul(|chain|, partition.g.Bpc()) < len) && Exhausted()
                      && filesize == old(filesize) && Bytes() == old(Content()) && BlankBehind(filesize)
      ensures old(partition.Counted()) ==> partition.Counted()
    {
      hide Cache.Valid, Mul, FileBytes, Table, Closed, IsChain, NoneFree, FreeCount, Untouched, FixedKept, Patched,
          Wrote, Denotes, Allocated, BlankFrom;
      ghost var v0, ch0 := partition.cache.view, chain;
      BytesIsContent();
      var saved := appendPosition;
      ok := StartFile();
      if !ok {
        return;
      }
      appendPosition := saved;
      ghost var v1, ch1, t1, h1 := partition.cache.view, chain, partition.T(), partition.Hint();
      ok := GrowTo(len);
      GrownMore(partition.g, v0, ch0, v1, ch1, partition.cache.view, chain);
      if ok {
        AllocatedMore(old(partition.T()), old(partition.Hint()), ch0, t1, h1, ch1, partition.T(), partition.Hint(),
            chain);
      }
    }

    /** A truncation to a larger size. */
    method TruncateGrow(len: nat) returns (ret: int, errno: Errno)
      requires Valid() && partition.firstFree <= partition.g.lastCluster && filesize < len <= FILE_MAX_SIZE
      modifies this`startCluster, this`chain, this`appendPosition, this`rwPosition, this`filesize,
               this`currentPosition, partition, partition.cache.Repr
      ensures partition.Valid() && currentPosition == old(currentPosition)
      ensures ret == (if len <= old(Capacity()) then 0 else -1) && errno == if ret == 0 then EOK else ENOSPC
      ensures ret == 0 ==> Stored() && AppendOk() && filesize == len && Content() == Patched(old(Content()), len, [])
      ensures Grown(partition.g, old(partition.cache.view), old(chain), partition.cache.view, chain)
      ensures ret == 0 ==> partition.firstFree <= partition.g.lastCluster && Capacity() == old(Capacity())
      ensures ret == 0 && old(filesize) > 0 ==> rwPosition == old(rwPosition)
      ensures ret == 0 && (old(currentPosition) <= old(filesize) || len < currentPosition) ==> CursorOk()
      ensures ret == 0 && old(filesize) == 0 < currentPosition <= len ==> !CursorOk()
      ensures ret == -1 ==> Mul(|chain|, partition.g.Bpc()) < len && Exhausted()
                            && filesize == old(filesize) && Bytes() == old(Content()) && BlankBehind(filesize)
      ensures ret == 0 ==> Taken(old(partition.T()), old(partition.Hint()), old(chain))
      ensures ret == 0 ==> JustLongEnough(partition.g, len, |chain|)
      ensures old(partition.Counted()) ==> partition.Counted()
    {
      hide Cache.Valid, Mul, FileBytes, Table, Closed, IsChain, NoneFree, FreeCount, Untouched, FixedKept, Patched,
          Wrote, Denotes, Allocated, BlankFrom;
      ghost var v0, ch0 := partition.cache.view, chain;
      var ok := StartAndGrow(len);
      if ok {
        SameCursor(partition.g, ch0, chain, rwPosition, currentPosition);
        StartDenotes(partition.g, chain);
        if currentPosition > 0 {
          OnlyZeroIsThere(partition.g, partition.cache.view, chain, currentPosition);
        }
        LinkedIsStored();
        FitsRoom(partition.g, v0, ch0, partition.cache.view, chain, len);
        ret, errno := 0, EOK;
      } else {
        NoRoom(partition.g, v0, ch0, partition.cache.view, chain, len);
        MulZero(partition.g.Bpc());
        ret, errno := -1, ENOSPC;
      }
    }

    /** A truncation to a smaller size. */
    method TruncateShrink(len: nat)
      requires Valid() && len < filesize && partition.g.Bpc() > 0
      modifies this`startCluster, this`chain, this`appendPosition, this`filesize, partition, partition.cache.Repr
      ensures Stored() && AppendOk() && filesize == len && Content() == old(Content())[..len]
      ensures Confined(partition.g, old(partition.cache.view), partition.cache.view, old(chain)) && chain <= old(chain)
      ensures Released(partition.T(), old(chain), chain)
      ensures partition.firstFree <= old(partition.firstFree)
              && FreeCount(partition.T()) + |chain| == old(FreeCount(partition.T()) + |chain|)
      ensures CursorOk() <==> !old(CutAtCursor(len))
      ensures old(partition.Counted()) ==> partition.Counted()
    {
      hide Cache.Valid, Mul, FileBytes, Table, Closed, IsChain, FreeCount, FixedKept, Div, Mod, Freed, Released;
      if len == 0 {
        DropAll();
      } else {
        DropTail(len);
      }
    }

    /** A truncation to zero. */
    method DropAll()
      requires Stored() && 0 < filesize
      modifies this`startCluster, this`chain, this`appendPosition, this`filesize, partition, partition.cache.Repr
      ensures Stored() && filesize == 0
      ensures Confined(partition.g, old(partition.cache.view), partition.cache.view, old(chain)) && chain <= old(chain)
      ensures Released(partition.T(), old(chain), chain)
      ensures partition.firstFree <= old(partition.firstFree)
              && FreeCount(partition.T()) + |chain| == old(FreeCount(partition.T()) + |chain|)
      ensures old(partition.Counted()) ==> partition.Counted()
    {
      hide Cache.Valid, Mul, FileBytes, Table, Closed, FreeCount, FixedKept;
      ghost var v0, ch0 := partition.cache.view, chain;
      FreedCount(partition.T(), chain);
      FreedReleases(partition.T(), chain);
      var ok := partition.ClearChainLinks(startCluster, chain);
      startCluster := CLUSTER_FREE;
      chain := [];
      appendPosition := FilePosition(CLUSTER_FREE, 0, 0);
      filesize := 0;
      ConfinedByTable(partition.g, v0, partition.cache.view, ch0);
    }

    /** A truncation that leaves some bytes. */
    method DropTail(len: nat)
      requires Valid() && 0 < len < filesize && partition.g.Bpc() > 0
      modifies this`startCluster, this`chain, this`appendPosition, this`filesize, partition, partition.cache.Repr
      ensures Stored() && AppendOk() && filesize == len && Content() == old(Content())[..len]
      ensures Confined(partition.g, old(partition.cache.view), partition.cache.view, old(chain)) && chain <= old(chain)
      ensures Released(partition.T(), old(chain), chain)
      ensures partition.firstFree <= old(partition.firstFree)
              && FreeCount(partition.T()) + |chain| == old(FreeCount(partition.T()) + |chain|)
      ensures CursorOk() <==> !old(CutAtCursor(len))
      ensures old(partition.Counted()) ==> partition.Counted()
    {
      hide Cache.Valid, Mul, FileBytes, Table, Closed, FreeCount, FixedKept, Div, Mod, Freed, IsChain, Confined,
          Released;
      ghost var v0, ch0, raw0 := partition.cache.view, chain, Raw();
      ChainClusters(partition.g, v0, ch0);
      TrimLength(partition.g, len, filesize, |chain|);
      var chainLength := Div(len - 1, partition.g.Bpc()) + 1;
      var lastCluster := TrimTo(chainLength);
      if append {
        var sector := if Mod(len, partition.g.Bpc()) == 0 then partition.g.spc
            else Div(Mod(len, partition.g.Bpc()), partition.g.bps);
        appendPosition := FilePosition(lastCluster, sector, Mod(len, partition.g.bps));
        assert At(partition.g, chain, appendPosition, chainLength - 1, len);
      }
      if currentPosition <= filesize {
        CutCursor(partition.g, ch0, chainLength, rwPosition, currentPosition, len);
      }
      filesize := len;
      PrefixOfPrefix(raw0, old(filesize), Mul(chainLength, partition.g.Bpc()), len);
    }

    /** Cuts the chain; the clusters kept have their bytes still. */
    method TrimTo(chainLength: nat) returns (lastCluster: nat)
      requires Stored() && 0 < chainLength <= |chain|
      modifies this`chain, partition, partition.cache.Repr
      ensures partition.Valid() && Closed(partition.T()) && IsChain(partition.T(), chain)
              && chain == old(chain)[..chainLength]
      ensures chain[0] == startCluster && lastCluster == chain[chainLength - 1] && chain <= old(chain)
      ensures Confined(partition.g, old(partition.cache.view), partition.cache.view, old(chain))
      ensures Released(partition.T(), old(chain), chain)
      ensures partition.firstFree <= old(partition.firstFree)
              && FreeCount(partition.T()) + |chain| == old(FreeCount(partition.T()) + |chain|)
      ensures Clusters(partition.g, chain) && Mul(chainLength, partition.g.Bpc()) <= |old(Raw())|
      ensures FileBytes(partition.g, partition.cache.view, chain) == old(Raw())[..Mul(chainLength, partition.g.Bpc())]
      ensures old(partition.Counted()) ==> partition.Counted()
    {
      hide Cache.Valid, Mul, FileBytes, Table, Closed, FreeCount, FixedKept, Freed, IsChain;
      ghost var v0, ch0 := partition.cache.view, chain;
      ghost var t := partition.T();
      ChainClusters(partition.g, v0, ch0);
      TrimmedElsewhere(t, ch0, chainLength);
      TrimReleases(t, ch0, chainLength);
      TrimEffect(t, ch0, chainLength);
      lastCluster := partition.TrimChain(startCluster, chainLength, chain);
      chain := chain[..chainLength];
      ConfinedByTable(partition.g, v0, partition.cache.view, ch0);
      FileBytesPrefix(partition.g, v0, ch0, chainLength);
      TableWritesKeepFiles(partition.g, v0, partition.cache.view, chain);
    }

    lemma WithinCapacity()
      requires Stored()
      ensures filesize <= Capacity()
    {
      MulMono(|chain|, |chain| + FreeCount(partition.T()), partition.g.Bpc());
      MulZero(partition.g.Bpc());
    }
  }

  lemma Chained(raw: seq<byte>, p: nat, a: seq<byte>, b: seq<byte>, c: seq<byte>)
    requires a == [] || Delivered(raw, p, a)
    requires Delivered(raw, p + |a|, b) && Delivered(raw, p + |a| + |b|, c)
    ensures Delivered(raw, p, a + b + c)
  {
    DeliveredMore(raw, p, a, b);
    DeliveredMore(raw, p, a + b, c);
  }

  /** A chain that grew for the bytes up to `end` only is just long enough afterwards. */
  lemma StillLongEnough(g: Geometry, ch0: seq<nat>, ch: seq<nat>, size: nat, end: nat)
    requires g.Ok() && JustLongEnough(g, size, |ch0|) && Needed(g, ch0, ch, end) && |ch0| <= |ch|
    requires end <= Mul(|ch|, g.Bpc()) && 0 < Max(size, end) && size <= Mul(|ch0|, g.Bpc())
    ensures JustLongEnough(g, Max(size, end), |ch|)
  {
    hide Mul;
    MulMono(|ch0|, |ch|, g.Bpc());
    MulZero(g.Bpc());
  }

  lemma FullIsNeeded(g: Geometry, ch0: seq<nat>, ch: seq<nat>)
    requires g.Ok() && ch != []
    ensures Needed(g, ch0, ch, Mul(|ch|, g.Bpc()))
  {
    hide Mul;
    BpcPositive(g);
    MulSucc(|ch| - 1, g.Bpc());
  }

  lemma PatchNothing(s: seq<byte>, p: nat)
    ensures p <= |s| ==> Patched(s, p, []) == s
  {
  }

  lemma PatchZeros(s: seq<byte>, p: nat)
    requires |s| <= p
    ensures Patched(s, |s|, Zeros(p - |s|)) == Patched(s, p, [])
  {
  }

  /** A position not at the start of a cluster is behind one exactly if its offset is on a cluster boundary. */
  lemma BoundaryForm(g: Geometry, ch: seq<nat>, pos: FilePosition, p: nat)
    requires g.Ok() && Denotes(g, ch, pos, p) && BehindStart(pos)
    ensures g.Bpc() > 0 && (pos.sector == g.spc <==> Mod(p, g.Bpc()) == 0)
  {
    hide Mul, Div, Mod;
    var k: nat :| At(g, ch, pos, k, p);
    BoundaryOffset(g, ch, pos, k, p);
  }

  /** Where the offset of a position is in its cluster. */
  lemma BoundaryOffset(g: Geometry, ch: seq<nat>, pos: FilePosition, k: nat, p: nat)
    requires g.Ok() && At(g, ch, pos, k, p) && (pos.sector == g.spc ==> pos.byte == 0)
    ensures g.Bpc() > 0 && (Mod(p, g.Bpc()) == 0 <==> pos.sector == g.spc || !BehindStart(pos))
  {
    hide Mul, Div, Mod;
    OffsetParts(g, p);
    PositionParts(g, ch, pos, k, p);
    DivMod(p, g.Bpc());
    MulZero(g.bps);
    if pos.sector == g.spc {
      MulSucc(k, g.Bpc());
    } else if pos.sector > 0 {
      MulMono(1, pos.sector, g.bps);
      MulOne(g.bps);
    }
  }

  /** The start of the first cluster is offset 0. */
  lemma StartDenotes(g: Geometry, ch: seq<nat>)
    requires g.Ok() && ch != []
    ensures Denotes(g, ch, FilePosition(ch[0], 0, 0), 0)
  {
    assert At(g, ch, FilePosition(ch[0], 0, 0), 0, 0);
  }

  lemma PatchPatch(s: seq<byte>, p: nat, d: seq<byte>)
    ensures Patched(Patched(s, p, []), p, d) == Patched(s, p, d)
  {
    if |s| < p {
      PatchZeros(s, p);
      PatchAfterZeros(s, p, d);
    } else {
      PatchNothing(s, p);
    }
  }

  /** Preparing fails only if the cursor is behind everything there is room for. */
  lemma NoRoom(g: Geometry, v0: seq<byte>, ch0: seq<nat>, v1: seq<byte>, ch1: seq<nat>, p: nat)
    requires Grown(g, v0, ch0, v1, ch1) && NoneFree(Table(g, v1))
    requires ch1 == [] || Mul(|ch1|, g.Bpc()) < p
    ensures var room := Mul(|ch0| + FreeCount(Table(g, v0)), g.Bpc()); p > room || room == 0
  {
    hide Table, FreeCount, NoneFree;
    NoneFreeIsZero(Table(g, v1));
    MulZero(g.Bpc());
  }

  /** What was written fits, and if something was left out it did not fit. */
  lemma RoomFor(g: Geometry, v0: seq<byte>, ch0: seq<nat>, v1: seq<byte>, ch1: seq<nat>, p: nat, n: nat, wanted: nat)
    requires Grown(g, v0, ch0, v1, ch1) && ch1 != [] && n <= wanted
    requires p + n <= Mul(|ch1|, g.Bpc())
    requires n < wanted ==> NoneFree(Table(g, v1)) && p + n == Mul(|ch1|, g.Bpc())
    ensures var room := Mul(|ch0| + FreeCount(Table(g, v0)), g.Bpc());
            0 < room && p <= room && n == Min(wanted, room - p)
  {
    hide Table, FreeCount, NoneFree, Mul;
    NoneFreeIsZero(Table(g, v1));
    MulMono(|ch1|, |ch0| + FreeCount(Table(g, v0)), g.Bpc());
    MulMono(1, |ch1|, g.Bpc());
    MulOne(g.Bpc());
    BpcPositive(g);
  }

  /** A write that leaves something out has filled the file's clusters, so the file is not empty. */
  lemma SomethingFits(g: Geometry, ch: seq<nat>, p: nat, n: nat, wanted: nat)
    requires g.Ok() && ch != [] && 0 < wanted && n <= wanted && (n < wanted ==> p + n == Mul(|ch|, g.Bpc()))
    ensures 0 < p + n
  {
    hide Mul;
    BpcPositive(g);
    MulMono(1, |ch|, g.Bpc());
    MulOne(g.Bpc());
  }

  /** A position keeps its meaning when the chain grows. */
  lemma SameCursor(g: Geometry, ch0: seq<nat>, ch: seq<nat>, pos: FilePosition, p: nat)
    requires ch0 <= ch
    ensures Denotes(g, ch0, pos, p) ==> Denotes(g, ch, pos, p)
  {
    if Denotes(g, ch0, pos, p) {
      var k: nat :| At(g, ch0, pos, k, p);
      assert At(g, ch, pos, k, p);
    }
  }

  lemma FitsRoom(g: Geometry, v0: seq<byte>, ch0: seq<nat>, v1: seq<byte>, ch1: seq<nat>, size: nat)
    requires Grown(g, v0, ch0, v1, ch1) && size <= Mul(|ch1|, g.Bpc())
    ensures size <= Mul(|ch0| + FreeCount(Table(g, v0)), g.Bpc())
  {
    hide Table, FreeCount, Mul;
    MulMono(|ch1|, |ch0| + FreeCount(Table(g, v0)), g.Bpc());
  }

  lemma PrefixOfPrefix(s: seq<byte>, a: nat, b: nat, n: nat)
    requires n <= a <= |s| && n <= b <= |s|
    ensures s[..a][..n] == s[..b][..n] == s[..n]
  {
  }

  lemma NothingIsBlank(g: Geometry, v: seq<byte>)
    requires IsVolume(g, v)
    ensures BlankFrom(FileBytes(g, v, []), 0)
  {
  }

  /** The chain `ch` grown to hold `len` bytes: what it lacks is drawn from the table `t`, from the hint `h` on. */
  function ChainAfter(g: Geometry, t: seq<nat>, h: nat, ch: seq<nat>, len: nat): (ch': seq<nat>)
    requires g.Bpc() > 0 && 0 < len && TableOk(t) && h < |t|
  {
    var k := Div(len - 1, g.Bpc()) + 1;
    ch + Draw(t, h, if |ch| < k then k - |ch| else 0)
  }

  lemma GrownChain(g: Geometry, t0: seq<nat>, h0: nat, ch0: seq<nat>, t1: seq<nat>, h1: nat, ch1: seq<nat>, len: nat)
    requires g.Bpc() > 0 && 0 < len && TableOk(t0) && CLUSTER_FIRST <= h0 < |t0|
    requires Allocated(t0, h0, ch0, t1, h1, ch1) && JustLongEnough(g, len, |ch1|)
    ensures ch1 == ChainAfter(g, t0, h0, ch0, len)
  {
    hide Mul, Div, Draw, Drawn;
    ClustersWanted(g, len, |ch1|);
    DrawnIsDraw(t0, h0, ch1[|ch0|..]);
    assert ch1 == ch0 + ch1[|ch0|..];
  }

  lemma ClustersWanted(g: Geometry, len: nat, n: nat)
    requires g.Bpc() > 0 && 0 < len && JustLongEnough(g, len, n)
    ensures Div(len - 1, g.Bpc()) + 1 == n
  {
    hide Mul, Div, Mod;
    var k := Div(len - 1, g.Bpc());
    DivMod(len - 1, g.Bpc());
    MulSucc(k, g.Bpc());
    MulSucc(n - 1, g.Bpc());
    if k < n - 1 {
      MulMono(k + 1, n - 1, g.Bpc());
    } else if n - 1 < k {
      MulMono(n, k, g.Bpc());
    }
  }

  /** The offset `p` is at sector and byte of the `k`-th cluster, or at its end. */
  predicate InPlace(g: Geometry, pos: FilePosition, k: nat, p: nat) {
    && pos.sector <= g.spc && pos.byte < g.bps && (pos.sector == g.spc ==> pos.byte == 0)
    && p == Mul(k, g.Bpc()) + Mul(pos.sector, g.bps) + pos.byte
  }

  /** When a position denotes an offset in a chain that has grown: if it did before, or if its cluster is one of
      the new ones and this is its place. In particular it does not if its cluster is in use elsewhere. */
  lemma DenotesGrown(g: Geometry, ch: seq<nat>, ns: seq<nat>, pos: FilePosition, p: nat)
    ensures Denotes(g, ch + ns, pos, p)
            <==> Denotes(g, ch, pos, p)
                 || exists i: nat :: i < |ns| && ns[i] == pos.cluster && InPlace(g, pos, |ch| + i, p)
    ensures pos.cluster !in ch && pos.cluster !in ns ==> !Denotes(g, ch + ns, pos, p)
  {
    hide Mul;
    var all := ch + ns;
    if Denotes(g, all, pos, p) {
      var k: nat :| At(g, all, pos, k, p);
      if k < |ch| {
        assert At(g, ch, pos, k, p);
      } else {
        assert ns[k - |ch|] == pos.cluster && InPlace(g, pos, |ch| + (k - |ch|), p);
      }
    }
    if Denotes(g, ch, pos, p) {
      var k: nat :| At(g, ch, pos, k, p);
      assert At(g, all, pos, k, p);
    }
    forall i: nat | i < |ns| && ns[i] == pos.cluster && InPlace(g, pos, |ch| + i, p)
      ensures Denotes(g, all, pos, p)
    {
      assert At(g, all, pos, |ch| + i, p);
    }
  }

  /** Growing does not take clusters that are in use. */
  lemma NotTaken(g: Geometry, v0: seq<byte>, ch0: seq<nat>, v1: seq<byte>, ch1: seq<nat>, pos: FilePosition, p: nat)
    requires Grown(g, v0, ch0, v1, ch1)
    ensures var c := pos.cluster;
            c !in ch0 && !(InTable(Table(g, v0), c) && Table(g, v0)[c] == CLUSTER_FREE) ==> !Denotes(g, ch1, pos, p)
  {
    hide Mul, Table, FreeCount, FixedKept, Untouched, Closed, IsChain;
    ChainClusters(g, v1, ch1);
  }

  /** The position stands for an offset other than `p`. */
  ghost predicate DenotesOther(g: Geometry, ch: seq<nat>, pos: FilePosition, p: nat) {
    exists q: nat :: q != p && Denotes(g, ch, pos, q)
  }

  /** A position that stands for one offset does not come to stand for another when the chain grows. */
  lemma OtherStays(g: Geometry, view: seq<byte>, ch0: seq<nat>, ch: seq<nat>, pos: FilePosition, p: nat)
    requires WellFormed(g, view, ch) && ch0 <= ch
    ensures DenotesOther(g, ch0, pos, p) ==> !Denotes(g, ch, pos, p)
  {
    hide Mul;
    ChainClusters(g, view, ch);
    forall q: nat | Denotes(g, ch0, pos, q) && Denotes(g, ch, pos, p)
      ensures q == p
    {
      SameOffset(g, ch0, ch, pos, q, p);
    }
  }

  lemma SameOffset(g: Geometry, ch0: seq<nat>, ch: seq<nat>, pos: FilePosition, q: nat, p: nat)
    requires Distinct(ch) && ch0 <= ch && Denotes(g, ch0, pos, q) && Denotes(g, ch, pos, p)
    ensures q == p
  {
    hide Mul;
    var k: nat :| At(g, ch0, pos, k, q);
    var j: nat :| At(g, ch, pos, j, p);
    assert ch[k] == ch[j];
  }

  /** The start of the file denotes no other offset. */
  lemma OnlyZeroIsThere(g: Geometry, view: seq<byte>, ch: seq<nat>, p: nat)
    requires WellFormed(g, view, ch) && ch != [] && 0 < p
    ensures !Denotes(g, ch, FilePosition(ch[0], 0, 0), p)
  {
    StartDenotes(g, ch);
    OtherStays(g, view, ch, ch, FilePosition(ch[0], 0, 0), p);
  }

  /** How many clusters a shorter size needs, and where its end is in the last of them. */
  lemma TrimLength(g: Geometry, len: nat, size: nat, n: nat)
    requires g.Ok() && 0 < len < size && g.Bpc() > 0 && JustLongEnough(g, size, n)
    ensures var k := Div(len - 1, g.Bpc()) + 1;
            k <= n && JustLongEnough(g, len, k) && (Mod(len, g.Bpc()) == 0 <==> len == Mul(k, g.Bpc()))
            && Mod(len, g.bps) < g.bps && (Mod(len, g.Bpc()) == 0 ==> Mod(len, g.bps) == 0)
            && len == Mul(k - 1, g.Bpc())
                 + Mul(if Mod(len, g.Bpc()) == 0 then g.spc else Div(Mod(len, g.Bpc()), g.bps), g.bps) + Mod(len, g.bps)
            && (if Mod(len, g.Bpc()) == 0 then g.spc else Div(Mod(len, g.Bpc()), g.bps)) <= g.spc
            && (Mod(len, g.Bpc()) != 0 ==> Div(Mod(len, g.Bpc()), g.bps) < g.spc)
  {
    hide Mul, Div, Mod;
    var k := Div(len - 1, g.Bpc()) + 1;
    DivMod(len - 1, g.Bpc());
    MulSucc(k - 1, g.Bpc());
    OffsetParts(g, len);
    if n < k {
      MulMono(n, k - 1, g.Bpc());
    }
    LastCluster(g, len, k);
  }

  lemma LastCluster(g: Geometry, len: nat, k: nat)
    requires g.Bpc() > 0 && 0 < k && Mul(k - 1, g.Bpc()) < len <= Mul(k - 1, g.Bpc()) + g.Bpc() == Mul(k, g.Bpc())
    ensures if len == Mul(k, g.Bpc()) then Mod(len, g.Bpc()) == 0
            else Mod(len, g.Bpc()) != 0 && Div(len, g.Bpc()) == k - 1
  {
    hide Mul, Div, Mod;
    if len == Mul(k, g.Bpc()) {
      DivModUnique(k, g.Bpc(), 0);
    } else {
      DivModUnique(k - 1, g.Bpc(), len - Mul(k - 1, g.Bpc()));
    }
  }

  /** When a cursor not behind the new end survives the cut of the chain to `k` clusters. */
  lemma CutCursor(g: Geometry, ch: seq<nat>, k: nat, pos: FilePosition, cur: nat, len: nat)
    requires g.Ok() && g.Bpc() > 0 && Distinct(ch) && 0 < k <= |ch| && 0 < len && Denotes(g, ch, pos, cur)
    requires JustLongEnough(g, len, k) && (Mod(len, g.Bpc()) == 0 <==> len == Mul(k, g.Bpc()))
    ensures cur <= len ==>
              (Denotes(g, ch[..k], pos, cur) <==> !(cur == len && Mod(len, g.Bpc()) == 0 && pos.sector == 0))
  {
    hide Mul, Mod;
    var j: nat :| At(g, ch, pos, j, cur);
    MulZero(g.bps);
    BpcPositive(g);
    if j < k {
      assert At(g, ch[..k], pos, j, cur);
      MulApart(j, 1, k, g.Bpc());
      MulOne(g.Bpc());
    } else {
      MulMono(k, j, g.Bpc());
      if cur <= len {
        SectorZero(g, pos.sector);
      }
    }
  }

  lemma SectorZero(g: Geometry, sector: nat)
    requires g.Ok() && Mul(sector, g.bps) == 0
    ensures sector == 0
  {
    hide Mul;
    if sector > 0 {
      MulMono(1, sector, g.bps);
      MulOne(g.bps);
    }
  }

  /** The start cluster of a file is in the table, or there is none. */
  lemma StartInTable(g: Geometry, v: seq<byte>, start: nat, ch: seq<nat>)
    requires IsVolume(g, v) && ChainFrom(Table(g, v), start, ch)
    ensures start <= g.lastCluster
  {
  }

  lemma StartOrNone(t: seq<nat>, start: nat, ch: seq<nat>)
    requires ChainFrom(t, start, ch)
    ensures start == CLUSTER_FREE <==> ch == []
  {
  }

  /** The volume holds the file of an entry: a chain from its start cluster, just long enough for its size. */
  ghost predicate HasFile(g: Geometry, v: seq<byte>, e: Entry, ch: seq<nat>) {
    IsVolume(g, v) && ChainFrom(Table(g, v), StartOf(g, e), ch)
    && if SizeOf(e) == 0 then ch == [] else JustLongEnough(g, SizeOf(e), |ch|)
  }

  ghost function FileContent(g: Geometry, v: seq<byte>, e: Entry, ch: seq<nat>): (d: seq<byte>)
    requires HasFile(g, v, e, ch)
    ensures |d| == SizeOf(e)
  {
    ChainClusters(g, v, ch);
    FileBytes(g, v, ch)[..SizeOf(e)]
  }

  lemma ConfinedNot(g: Geometry, v: seq<byte>, ch: seq<nat>)
    requires IsVolume(g, v)
    ensures Confined(g, v, v, ch)
  {
  }

  lemma FreedElsewhere(t: seq<nat>, ch: seq<nat>)
    ensures forall c: nat :: c < |t| && c !in ch ==> Freed(t, ch)[c] == t[c]
  {
  }

  /** Dropping clusters of a file touches nothing else. */
  lemma ConfinedByTable(g: Geometry, v0: seq<byte>, v1: seq<byte>, ch: seq<nat>)
    requires IsVolume(g, v0) && IsVolume(g, v1) && DataKept(g, v0, v1)
    requires forall c: nat :: g.IsValidCluster(c) && c !in ch ==> Table(g, v1)[c] == Table(g, v0)[c]
    ensures Confined(g, v0, v1, ch)
  {
    hide Table, ClusterBytes;
    RootKept(g, v0, v1);
    forall c: nat | g.IsValidCluster(c) && c !in ch
      ensures Untouched(g, v0, v1, c)
    {
      ClusterKept(g, v0, v1, c);
    }
  }
}
