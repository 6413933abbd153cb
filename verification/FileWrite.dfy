/** The steps of writing a file (src/fat/fatfile.c, _FAT_write_r). Each step stores some bytes where the
    position points and moves the position on, linking clusters as it goes. */
module FileWrite {
  import opened Bytes
  import opened Arith
  import opened Volume
  import opened FatCodec
  import opened Chains
  import opened Fat
  import opened FileData
  import opened FileRead
  import opened Growth
  import opened SectorCache

  /** From `r0` to `r1` the bytes `d` have been written at `p`, nothing before them has changed, and of
      what follows them nothing below `size`. The file may have got longer. */
  ghost predicate Wrote(size: nat, r0: seq<byte>, r1: seq<byte>, p: nat, d: seq<byte>) {
    && p <= |r0| <= |r1| && p + |d| <= |r1|
    && r1[..p] == r0[..p]
    && Sub(r1, p, |d|) == d
    && forall i :: p + |d| <= i < size && i < |r0| ==> r1[i] == r0[i]
  }

  lemma WroteMore(size: nat, r0: seq<byte>, r1: seq<byte>, r2: seq<byte>, p: nat, d: seq<byte>, e: seq<byte>)
    requires Wrote(size, r0, r1, p, d) && Wrote(size, r1, r2, p + |d|, e)
    ensures Wrote(size, r0, r2, p, d + e)
  {
    assert r2[..p] == r2[..p + |d|][..p] && r1[..p] == r1[..p + |d|][..p];
    assert Sub(r2, p, |d|) == r2[..p + |d|][p..] && Sub(r1, p, |d|) == r1[..p + |d|][p..];
    SubConcat(r2, p, |d|, |e|);
  }

  lemma WroteNothing(size: nat, r: seq<byte>, p: nat, more: seq<byte>)
    requires p <= |r|
    ensures Wrote(size, r, r + more, p, [])
    ensures more == [] ==> r + more == r
  {
  }

  lemma WroteSplice(size: nat, r: seq<byte>, p: nat, d: seq<byte>)
    requires p + |d| <= |r|
    ensures Wrote(size, r, Splice(r, p, d), p, d)
  {
  }

  /** Zeros after the bytes written do not matter behind the end of the file. */
  lemma WroteErase(size: nat, r: seq<byte>, p: nat, d: seq<byte>, n: nat)
    requires |d| <= n && p + n <= |r| && size <= p + |d|
    ensures Wrote(size, r, Splice(r, p, Splice(Zeros(n), 0, d)), p, d)
  {
  }

  /** No cluster has been linked that the bytes up to `limit` do not need. */
  predicate Needed(g: Geometry, ch0: seq<nat>, ch: seq<nat>, limit: nat) {
    |ch| == |ch0| || (ch != [] && Mul(|ch| - 1, g.Bpc()) < limit)
  }

  /** A position that is not at the start of a cluster. */
  predicate BehindStart(pos: FilePosition) {
    pos.sector > 0 || pos.byte > 0
  }

  /** linkFreeCluster at the end of a file's chain, or for a file without clusters. */
  method LinkTail(pt: Partition, cluster: nat, ghost ch: seq<nat>) returns (r: nat)
    requires pt.Valid() && WellFormed(pt.g, pt.cache.view, ch) && pt.firstFree <= pt.g.lastCluster
    requires cluster == if ch == [] then CLUSTER_FREE else ch[|ch| - 1]
    modifies pt, pt.cache.Repr
    ensures pt.Valid() && Clusters(pt.g, ch)
    ensures pt.g.IsValidCluster(r) ==>
              Grown(pt.g, old(pt.cache.view), ch, pt.cache.view, ch + [r]) && Clusters(pt.g, ch + [r])
              && FileBytes(pt.g, pt.cache.view, ch) == FileBytes(pt.g, old(pt.cache.view), ch)
              && pt.firstFree <= pt.g.lastCluster
              && Allocated(old(pt.T()), old(pt.Hint()), ch, pt.T(), pt.Hint(), ch + [r])
    ensures !pt.g.IsValidCluster(r) ==>
              r == CLUSTER_ERROR && pt.cache.view == old(pt.cache.view) && NoneFree(old(pt.T()))
    ensures old(pt.Counted()) ==> pt.Counted()
  {
    hide Cache.Valid, Mul, Table, FileBytes, FreeCount, Closed, NextOf, EntryAddr, Written, FixedKept, Allocated;
    ghost var t := pt.T();
    ChainClusters(pt.g, pt.cache.view, ch);
    NextOfFree(pt.g, pt.cache.view);
    if ch != [] {
      LinkOut(t, ch, |ch| - 1);
    }
    r := pt.LinkFreeCluster(cluster);
    if pt.g.IsValidCluster(r) {
      GrownByLink(pt.g, old(pt.cache.view), ch, r, pt.cache.view);
      LinkCount(t, cluster, r);
      AllocatedOne(t, old(pt.Hint()), ch, cluster, r);
    }
  }

  lemma NextOfFree(g: Geometry, v: seq<byte>)
    requires IsVolume(g, v)
    ensures Table(g, v)[CLUSTER_FREE] == CLUSTER_FREE
  {
  }

  /** A position at the end of a cluster moves to the next one, which
      is linked if there is none. Fails exactly when a cluster is needed and none is free. */
  method CheckNext(pt: Partition, position: FilePosition, remain: nat, flagNoError: bool,
                   ghost ch0: seq<nat>, ghost k: nat, ghost p: nat, ghost size: nat)
    returns (ok: bool, pos: FilePosition, ghost ch: seq<nat>, ghost j: nat)
    requires pt.Valid() && WellFormed(pt.g, pt.cache.view, ch0) && pt.firstFree <= pt.g.lastCluster
    requires At(pt.g, ch0, position, k, p) && (position.sector == pt.g.spc ==> position.byte == 0)
    modifies pt, pt.cache.Repr
    ensures pt.Valid() && Grown(pt.g, old(pt.cache.view), ch0, pt.cache.view, ch)
    ensures At(pt.g, ch, pos, j, p) && pos.byte == position.byte && Clusters(pt.g, ch0) && Clusters(pt.g, ch)
    ensures Wrote(size, FileBytes(pt.g, old(pt.cache.view), ch0), FileBytes(pt.g, pt.cache.view, ch), p, [])
    ensures Needed(pt.g, ch0, ch, p + remain)
    ensures remain == 0 ==> ok
    ensures remain == 0 || !flagNoError || position.sector < pt.g.spc ==>
              pos == position && ch == ch0 && pt.cache.view == old(pt.cache.view) && pt.firstFree == old(pt.firstFree)
    ensures remain > 0 && !flagNoError ==> !ok
    ensures remain > 0 && ok && position.sector == pt.g.spc ==> pos.sector == 0
    ensures remain > 0 && ok ==> pos.sector < pt.g.spc
    ensures j == if remain > 0 && ok && position.sector == pt.g.spc then k + 1 else k
    ensures ok ==> pt.firstFree <= pt.g.lastCluster
    ensures ok ==> Allocated(old(pt.T()), old(pt.Hint()), ch0, pt.T(), pt.Hint(), ch)
    ensures !ok ==> pos == position && ch == ch0 && pt.cache.view == old(pt.cache.view)
    ensures !ok && flagNoError ==> NoneFree(old(pt.T())) && p == Mul(|ch0|, pt.g.Bpc()) && position.sector == pt.g.spc
    ensures old(pt.Counted()) ==> pt.Counted()
  {
    hide Cache.Valid, Mul, Table, FileBytes, FreeCount, Closed, IsChain, Allocated, FirstFreeFrom;
    pos, ch, j := position, ch0, k;
    ChainClusters(pt.g, pt.cache.view, ch);
    GrownNot(pt.g, pt.cache.view, ch);
    AllocatedNot(pt.T(), pt.Hint(), ch);
    PositionInFile(pt.g, ch, pos, k, p);
    WroteNothing(size, FileBytes(pt.g, pt.cache.view, ch), p, []);
    if remain == 0 {
      return true, pos, ch, j;
    }
    if !flagNoError {
      return false, pos, ch, j;
    }
    if pos.sector == pt.g.spc {
      ghost var v0 := pt.cache.view;
      LinkOut(pt.T(), ch, k);
      var next := pt.NextCluster(pos.cluster);
      if next == CLUSTER_EOF || next == CLUSTER_FREE {
        next := LinkTail(pt, pos.cluster, ch);
        if pt.g.IsValidCluster(next) {
          ch := ch + [next];
          FileBytesOfAppended(pt.g, pt.cache.view, ch0, next);
          WroteNothing(size, FileBytes(pt.g, v0, ch0), p, ClusterBytes(pt.g, pt.cache.view, next));
        }
      }
      EndOfCluster(pt.g, k);
      if !pt.g.IsValidCluster(next) {
        return false, pos, ch, j;
      }
      pos := FilePosition(next, 0, pos.byte);
      j := k + 1;
    }
    ok := true;
  }

  lemma FileBytesOfAppended(g: Geometry, v: seq<byte>, ch: seq<nat>, r: nat)
    requires IsVolume(g, v) && Clusters(g, ch) && g.IsValidCluster(r)
    ensures Clusters(g, ch + [r]) && FileBytes(g, v, ch + [r]) == FileBytes(g, v, ch) + ClusterBytes(g, v, r)
  {
    assert (ch + [r])[..|ch|] == ch;
  }

  lemma EndOfCluster(g: Geometry, k: nat)
    ensures Mul(k, g.Bpc()) + Mul(g.spc, g.bps) == Mul(k + 1, g.Bpc()) && Mul(0, g.bps) == 0
  {
    hide Mul;
    MulSucc(k, g.Bpc());
    MulZero(g.bps);
  }

  /** Stores bytes inside one sector; `erase` zeros the rest of the sector. */
  method StorePart(pt: Partition, pos: FilePosition, d: seq<byte>, erase: bool, ghost ch: seq<nat>, ghost k: nat,
        ghost p: nat, ghost size: nat)
    requires pt.Valid() && WellFormed(pt.g, pt.cache.view, ch) && At(pt.g, ch, pos, k, p)
    requires pos.sector < pt.g.spc && pos.byte + |d| <= pt.g.bps && (erase ==> pos.byte == 0 && size <= p + |d|)
    modifies pt.cache.Repr
    ensures pt.Valid() && Clusters(pt.g, ch) && Grown(pt.g, old(pt.cache.view), ch, pt.cache.view, ch)
    ensures Wrote(size, FileBytes(pt.g, old(pt.cache.view), ch), FileBytes(pt.g, pt.cache.view, ch), p, d)
    ensures pt.T() == old(pt.T())
  {
    hide Cache.Valid, Mul, FileBytes, Splice, Wrote, Table, ClusterBase, Closed, IsChain, Untouched, FreeCount,
        FixedKept;
    ChainClusters(pt.g, pt.cache.view, ch);
    ghost var v, r := pt.cache.view, Mul(pos.sector, pt.g.bps) + pos.byte;
    ghost var raw := FileBytes(pt.g, v, ch);
    PositionOnVolume(pt.g, pos.cluster, pos.sector, pos.byte, |d|);
    RootOnVolume(pt.g);
    var sector := pt.g.ClusterToSector(pos.cluster) + pos.sector;
    if erase {
      PositionOnVolume(pt.g, pos.cluster, pos.sector, 0, pt.g.bps);
      ghost var e := Splice(Zeros(pt.g.bps), 0, d);
      WriteInCluster(pt.g, v, ch, k, r, e);
      GrownByStore(pt.g, v, ch, k, r, e);
      WroteErase(size, raw, p, d, pt.g.bps);
      StoreBehindTables(pt.g, v, ClusterBase(pt.g, pos.cluster) + r, e);
      var _ := pt.cache.EraseWritePartialSector(d, sector, 0);
    } else {
      WriteInCluster(pt.g, v, ch, k, r, d);
      GrownByStore(pt.g, v, ch, k, r, d);
      WroteSplice(size, raw, p, d);
      StoreBehindTables(pt.g, v, ClusterBase(pt.g, pos.cluster) + r, d);
      var _ := pt.cache.WritePartialSector(d, sector, pos.byte);
    }
  }

  /** Stores whole sectors inside one cluster. */
  method StoreWhole(pt: Partition, pos: FilePosition, n: nat, d: seq<byte>, ghost ch: seq<nat>, ghost k: nat,
        ghost p: nat, ghost size: nat)
    requires pt.Valid() && WellFormed(pt.g, pt.cache.view, ch) && At(pt.g, ch, pos, k, p)
    requires pos.sector + n <= pt.g.spc && pos.byte == 0 && |d| == Mul(n, pt.g.bps)
    modifies pt.cache.Repr
    ensures pt.Valid() && Clusters(pt.g, ch) && Grown(pt.g, old(pt.cache.view), ch, pt.cache.view, ch)
    ensures Wrote(size, FileBytes(pt.g, old(pt.cache.view), ch), FileBytes(pt.g, pt.cache.view, ch), p, d)
    ensures pt.T() == old(pt.T())
  {
    hide Cache.Valid, Mul, FileBytes, Splice, Wrote, Table, ClusterBase, Closed, IsChain, Untouched, FreeCount,
        FixedKept;
    ChainClusters(pt.g, pt.cache.view, ch);
    ghost var v, r := pt.cache.view, Mul(pos.sector, pt.g.bps);
    SectorsOnVolume(pt.g, pos.cluster, pos.sector, n);
    WriteInCluster(pt.g, v, ch, k, r, d);
    GrownByStore(pt.g, v, ch, k, r, d);
    WroteSplice(size, FileBytes(pt.g, v, ch), p, d);
    RootOnVolume(pt.g);
    StoreBehindTables(pt.g, v, ClusterBase(pt.g, pos.cluster) + r, d);
    Whole(d);
    var ok;
    ghost var m;
    ok, m := pt.cache.WriteSectors(pt.g.ClusterToSector(pos.cluster) + pos.sector, n, d);
  }

  /** Writes up to the end of a sector that is not written from its start. */
  method WriteHead(pt: Partition, position: FilePosition, data: seq<byte>, done: nat, ghost ch: seq<nat>,
        ghost k: nat, ghost p: nat, ghost size: nat)
    returns (n: nat, pos: FilePosition)
    requires pt.Valid() && WellFormed(pt.g, pt.cache.view, ch) && At(pt.g, ch, position, k, p)
    requires position.sector < pt.g.spc && done < |data|
    modifies pt.cache.Repr
    ensures pt.Valid() && Clusters(pt.g, ch) && Grown(pt.g, old(pt.cache.view), ch, pt.cache.view, ch)
    ensures done + n <= |data| && (done + n == |data| || pos.byte == 0)
    ensures Wrote(size, FileBytes(pt.g, old(pt.cache.view), ch), FileBytes(pt.g, pt.cache.view, ch), p,
            Sub(data, done, n))
    ensures At(pt.g, ch, pos, k, p + n) && (pos.sector == pt.g.spc ==> pos.byte == 0)
    ensures n > 0 ==> BehindStart(pos)
    ensures n == 0 ==> pos == position
  {
    hide Cache.Valid, Mul, FileBytes, Sub, Wrote, Table, Closed, IsChain, Grown;
    pos, n := position, 0;
    var remain := |data| - done;
    var tempVar := pt.g.bps - pos.byte;
    if tempVar > remain {
      tempVar := remain;
    }
    if tempVar < pt.g.bps {
      StorePart(pt, pos, Sub(data, done, tempVar), false, ch, k, p, size);
      n := tempVar;
      pos := pos.(byte := pos.byte + tempVar);
      if pos.byte >= pt.g.bps {
        MulSucc(pos.sector, pt.g.bps);
        pos := pos.(byte := 0, sector := pos.sector + 1);
      }
    } else {
      ChainClusters(pt.g, pt.cache.view, ch);
      GrownNot(pt.g, pt.cache.view, ch);
      PositionInFile(pt.g, ch, pos, k, p);
      WroteNone(size, FileBytes(pt.g, pt.cache.view, ch), p, data, done);
    }
  }

  lemma WroteNone(size: nat, r: seq<byte>, p: nat, data: seq<byte>, done: nat)
    requires p <= |r| && done <= |data|
    ensures Wrote(size, r, r, p, Sub(data, done, 0))
  {
  }

  /** Writes whole sectors up to the end of the cluster, but leaves a whole cluster to
      the next step. */
  method WriteAlign(pt: Partition, position: FilePosition, data: seq<byte>, done: nat, ghost ch: seq<nat>,
        ghost k: nat, ghost p: nat, ghost size: nat)
    returns (n: nat, pos: FilePosition)
    requires pt.Valid() && WellFormed(pt.g, pt.cache.view, ch) && At(pt.g, ch, position, k, p)
    requires done <= |data| && (position.byte == 0 || done == |data|)
    requires position.sector == pt.g.spc ==> position.byte == 0
    modifies pt.cache.Repr
    ensures pt.Valid() && Clusters(pt.g, ch) && Grown(pt.g, old(pt.cache.view), ch, pt.cache.view, ch)
    ensures done + n <= |data| && (done + n == |data| || pos.byte == 0)
    ensures Wrote(size, FileBytes(pt.g, old(pt.cache.view), ch), FileBytes(pt.g, pt.cache.view, ch), p,
            Sub(data, done, n))
    ensures At(pt.g, ch, pos, k, p + n) && (pos.sector == pt.g.spc ==> pos.byte == 0)
    ensures BehindStart(pos) || (n == 0 && pos == position)
    ensures |data| - done - n >= pt.g.bps ==> pos.sector == 0 || pos.sector == pt.g.spc
  {
    hide Cache.Valid, Mul, FileBytes, Sub, Wrote, Table, Closed, IsChain, Grown, Div;
    pos, n := position, 0;
    var remain := |data| - done;
    var tempVar := if remain > Mul(pt.g.spc - pos.sector, pt.g.bps) then pt.g.spc - pos.sector
        else Div(remain, pt.g.bps);
    SectorsWanted(pt.g, pos.sector, remain);
    if 0 < tempVar < pt.g.spc {
      Distrib(pos.sector, tempVar, pt.g.bps);
      StoreWhole(pt, pos, tempVar, Sub(data, done, Mul(tempVar, pt.g.bps)), ch, k, p, size);
      n := Mul(tempVar, pt.g.bps);
      pos := pos.(sector := pos.sector + tempVar);
    } else {
      MulZero(pt.g.bps);
      ChainClusters(pt.g, pt.cache.view, ch);
      GrownNot(pt.g, pt.cache.view, ch);
      PositionInFile(pt.g, ch, pos, k, p);
      WroteNone(size, FileBytes(pt.g, pt.cache.view, ch), p, data, done);
    }
  }

  /** Groups the clusters from `position` on that follow one another on the volume, linking new ones as
      long as more than one further cluster is wanted. */
  method Group(pt: Partition, cluster: nat, remain: nat, ghost ch0: seq<nat>, ghost k: nat, ghost p: nat,
        ghost size: nat)
    returns (flagNoError: bool, chunkEnd: nat, nextChunkStart: nat, chunkSize: nat, ghost n: nat, ghost ch: seq<nat>)
    requires pt.Valid() && WellFormed(pt.g, pt.cache.view, ch0) && pt.firstFree <= pt.g.lastCluster
    requires k < |ch0| && ch0[k] == cluster && pt.g.Bpc() <= remain && p == Mul(k, pt.g.Bpc())
    modifies pt, pt.cache.Repr
    ensures pt.Valid() && Clusters(pt.g, ch0) && Clusters(pt.g, ch)
            && Grown(pt.g, old(pt.cache.view), ch0, pt.cache.view, ch)
    ensures Wrote(size, FileBytes(pt.g, old(pt.cache.view), ch0), FileBytes(pt.g, pt.cache.view, ch), p, [])
    ensures 0 < n && IsRun(ch, k, n) && chunkSize == Mul(n, pt.g.Bpc()) <= remain && chunkEnd == ch[k + n - 1]
    ensures Needed(pt.g, ch0, ch, p + remain)
    ensures nextChunkStart == chunkEnd || (k + n < |ch| && nextChunkStart == ch[k + n] && chunkSize < remain)
    ensures flagNoError && chunkSize + pt.g.Bpc() < remain ==>
              k + n < |ch| && nextChunkStart == ch[k + n] && nextChunkStart != chunkEnd + 1
    ensures flagNoError ==> pt.firstFree <= pt.g.lastCluster
    ensures !flagNoError ==> chunkSize < remain && nextChunkStart == chunkEnd && NoneFree(pt.T()) && k + n == |ch|
    ensures old(pt.Counted()) ==> pt.Counted()
  {
    hide Cache.Valid, Mul, FileBytes, Sub, Wrote, Table, Closed, IsChain, Grown, NoneFree, FreeCount;
    flagNoError, chunkEnd, nextChunkStart, chunkSize, n, ch := true, cluster, cluster, pt.g.Bpc(), 1, ch0;
    ghost var v0 := pt.cache.view;
    ChainClusters(pt.g, v0, ch0);
    GrownNot(pt.g, v0, ch0);
    MulOne(pt.g.Bpc());
    BpcPositive(pt.g);
    RunFitsFile(ch0, k, 1, pt.g.Bpc());
    WroteNothing(size, FileBytes(pt.g, v0, ch0), p, []);
    while flagNoError && chunkSize + pt.g.Bpc() < remain
      invariant pt.Valid() && Clusters(pt.g, ch) && Grown(pt.g, v0, ch0, pt.cache.view, ch)
      invariant WellFormed(pt.g, pt.cache.view, ch)
      invariant Wrote(size, FileBytes(pt.g, v0, ch0), FileBytes(pt.g, pt.cache.view, ch), p, [])
      invariant 0 < n && IsRun(ch, k, n) && chunkSize == Mul(n, pt.g.Bpc()) <= remain
                && chunkEnd == nextChunkStart == ch[k + n - 1]
      invariant flagNoError && pt.firstFree <= pt.g.lastCluster && Needed(pt.g, ch0, ch, p + remain)
      invariant old(pt.Counted()) ==> pt.Counted()
      decreases remain - chunkSize
    {
      Distrib(k, n, pt.g.Bpc());
      var next;
      flagNoError, next, ch := GroupStep(pt, chunkEnd, remain - chunkSize, ch, k, n, p, size, v0, ch0);
      if !flagNoError {
        break;
      }
      nextChunkStart := next;
      if nextChunkStart != chunkEnd + 1 {
        break;
      }
      chunkEnd := nextChunkStart;
      chunkSize := chunkSize + pt.g.Bpc();
      MulSucc(n, pt.g.Bpc());
      n := n + 1;
    }
  }

  /** One round of that loop: the cluster after the group, linked if need be. */
  method GroupStep(pt: Partition, chunkEnd: nat, remain: nat, ghost ch1: seq<nat>, ghost k: nat, ghost n: nat,
                   ghost p: nat, ghost size: nat, ghost v0: seq<byte>, ghost ch0: seq<nat>)
    returns (flagNoError: bool, next: nat, ghost ch: seq<nat>)
    requires pt.Valid() && WellFormed(pt.g, pt.cache.view, ch1) && pt.firstFree <= pt.g.lastCluster && 0 < remain
    requires 0 < n && IsRun(ch1, k, n) && chunkEnd == ch1[k + n - 1] && p == Mul(k, pt.g.Bpc())
    requires Clusters(pt.g, ch1) && Grown(pt.g, v0, ch0, pt.cache.view, ch1) && Clusters(pt.g, ch0)
    requires Wrote(size, FileBytes(pt.g, v0, ch0), FileBytes(pt.g, pt.cache.view, ch1), p, [])
    requires Needed(pt.g, ch0, ch1, Mul(k + n, pt.g.Bpc()) + remain)
    modifies pt, pt.cache.Repr
    ensures Needed(pt.g, ch0, ch, Mul(k + n, pt.g.Bpc()) + remain)
    ensures pt.Valid() && WellFormed(pt.g, pt.cache.view, ch) && Clusters(pt.g, ch)
            && Grown(pt.g, v0, ch0, pt.cache.view, ch)
    ensures Wrote(size, FileBytes(pt.g, v0, ch0), FileBytes(pt.g, pt.cache.view, ch), p, [])
    ensures IsRun(ch, k, n) && chunkEnd == ch[k + n - 1]
    ensures flagNoError ==> k + n < |ch| && next == ch[k + n] && pt.firstFree <= pt.g.lastCluster
    ensures !flagNoError ==> NoneFree(pt.T()) && k + n == |ch|
    ensures old(pt.Counted()) ==> pt.Counted()
  {
    hide Cache.Valid, Mul, FileBytes, Sub, Wrote, Table, Closed, IsChain, NoneFree, FreeCount, Untouched, FixedKept;
    ghost var v1 := pt.cache.view;
    var nextPosition := FilePosition(chunkEnd, pt.g.spc, 0);
    EndOfCluster(pt.g, k + n - 1);
    ghost var j;
    flagNoError, nextPosition, ch, j := CheckNext(pt, nextPosition, remain, true, ch1, k + n - 1,
        Mul(k + n, pt.g.Bpc()), size);
    next := nextPosition.cluster;
    if !flagNoError {
      BpcPositive(pt.g);
      MulInjective(k + n, |ch|, pt.g.Bpc());
    }
    GrownMore(pt.g, v0, ch0, v1, ch1, pt.cache.view, ch);
    MulMono(k, k + n, pt.g.Bpc());
    WroteNoneEarlier(size, FileBytes(pt.g, v1, ch1), FileBytes(pt.g, pt.cache.view, ch), Mul(k + n, pt.g.Bpc()), p);
    WroteMore(size, FileBytes(pt.g, v0, ch0), FileBytes(pt.g, v1, ch1), FileBytes(pt.g, pt.cache.view, ch), p, [], []);
  }

  /** Having written nothing at `q` is having written nothing at `p` if all in between is unchanged. */
  lemma WroteNoneEarlier(size: nat, r0: seq<byte>, r1: seq<byte>, q: nat, p: nat)
    requires Wrote(size, r0, r1, q, []) && p <= q
    ensures Wrote(size, r0, r1, p, [])
  {
    assert r1[..p] == r1[..q][..p] && r0[..p] == r0[..q][..p];
    forall i | p <= i < size && i < |r0|
      ensures r1[i] == r0[i]
    {
      if i < q {
        assert r1[i] == r1[..q][i] && r0[i] == r0[..q][i];
      }
    }
  }

  /** Writes whole clusters, group by group. Stops early only when no cluster is free. */
  method WriteClusters(pt: Partition, position: FilePosition, data: seq<byte>, done0: nat, ghost ch0: seq<nat>,
        ghost k0: nat, ghost p: nat, ghost size: nat)
    returns (flagNoError: bool, n: nat, pos: FilePosition, ghost ch: seq<nat>, ghost k: nat)
    requires pt.Valid() && WellFormed(pt.g, pt.cache.view, ch0) && At(pt.g, ch0, position, k0, p)
             && pt.firstFree <= pt.g.lastCluster
    requires done0 <= |data| && (done0 < |data| ==> position.byte == 0)
             && (position.sector == pt.g.spc ==> position.byte == 0)
    requires |data| - done0 >= pt.g.bps ==> position.sector == 0 || position.sector == pt.g.spc
    modifies pt, pt.cache.Repr
    ensures pt.Valid() && Clusters(pt.g, ch0) && Clusters(pt.g, ch)
            && Grown(pt.g, old(pt.cache.view), ch0, pt.cache.view, ch)
    ensures done0 + n <= |data|
    ensures Wrote(size, FileBytes(pt.g, old(pt.cache.view), ch0), FileBytes(pt.g, pt.cache.view, ch), p,
            Sub(data, done0, n))
    ensures At(pt.g, ch, pos, k, p + n) && (pos.sector == pt.g.spc ==> pos.byte == 0)
    ensures BehindStart(pos) || (n == 0 && pos == position) || (flagNoError && done0 + n < |data|)
    ensures done0 + n < |data| ==> pos.byte == 0
    ensures |data| - done0 - n >= pt.g.bps ==> pos.sector == 0 || pos.sector == pt.g.spc
    ensures flagNoError ==> pt.firstFree <= pt.g.lastCluster && |data| - done0 - n < pt.g.Bpc()
    ensures Needed(pt.g, ch0, ch, p + |data| - done0)
    ensures !flagNoError ==> NoneFree(pt.T()) && done0 + n < |data| && p + n == Mul(|ch|, pt.g.Bpc())
    ensures old(pt.Counted()) ==> pt.Counted()
  {
    hide Cache.Valid, Mul, FileBytes, Sub, Wrote, Table, Closed, IsChain, Grown, NoneFree, FreeCount;
    flagNoError, n, pos, ch, k := true, 0, position, ch0, k0;
    ghost var v0 := pt.cache.view;
    ChainClusters(pt.g, v0, ch0);
    GrownNot(pt.g, v0, ch0);
    BpcPositive(pt.g);
    PositionInFile(pt.g, ch0, pos, k0, p);
    WroteNone(size, FileBytes(pt.g, v0, ch0), p, data, done0);
    while |data| - done0 - n >= pt.g.Bpc() && flagNoError
      invariant pt.Valid() && done0 + n <= |data|
      invariant WellFormed(pt.g, pt.cache.view, ch) && Clusters(pt.g, ch) && Grown(pt.g, v0, ch0, pt.cache.view, ch)
      invariant Wrote(size, FileBytes(pt.g, v0, ch0), FileBytes(pt.g, pt.cache.view, ch), p, Sub(data, done0, n))
      invariant At(pt.g, ch, pos, k, p + n) && (pos.sector == pt.g.spc ==> pos.byte == 0)
      invariant done0 + n < |data| ==> pos.byte == 0
      invariant |data| - done0 - n >= pt.g.bps ==> pos.sector == 0 || pos.sector == pt.g.spc
      invariant BehindStart(pos) || (n == 0 && pos == position) || (flagNoError && done0 + n < |data|)
      invariant Needed(pt.g, ch0, ch, p + |data| - done0)
      invariant if flagNoError then pt.firstFree <= pt.g.lastCluster
                else NoneFree(pt.T()) && done0 + n < |data| && p + n == Mul(|ch|, pt.g.Bpc())
      invariant old(pt.Counted()) ==> pt.Counted()
      decreases |data| - n, flagNoError
    {
      ghost var v1, ch1 := pt.cache.view, ch;
      var m;
      flagNoError, m, pos, ch, k := WriteChunk(pt, pos, data, done0 + n, ch, k, p + n, size);
      GrownMoreClusters(pt.g, v0, ch0, v1, ch1, pt.cache.view, ch);
      WroteMore(size, FileBytes(pt.g, v0, ch0), FileBytes(pt.g, v1, ch1), FileBytes(pt.g, pt.cache.view, ch), p,
          Sub(data, done0, n), Sub(data, done0 + n, m));
      SubConcat(data, done0, n, m);
      n := n + m;
    }
  }

  lemma GrownMoreClusters(g: Geometry, v0: seq<byte>, ch0: seq<nat>, v1: seq<byte>, ch1: seq<nat>, v2: seq<byte>,
        ch2: seq<nat>)
    requires Grown(g, v0, ch0, v1, ch1) && Grown(g, v1, ch1, v2, ch2)
    ensures Grown(g, v0, ch0, v2, ch2) && WellFormed(g, v2, ch2)
  {
    GrownMore(g, v0, ch0, v1, ch1, v2, ch2);
  }

  /** One round of that loop. */
  method WriteChunk(pt: Partition, position: FilePosition, data: seq<byte>, done: nat, ghost ch0: seq<nat>,
        ghost k0: nat, ghost p: nat, ghost size: nat)
    returns (flagNoError: bool, n: nat, pos: FilePosition, ghost ch: seq<nat>, ghost k: nat)
    requires pt.Valid() && WellFormed(pt.g, pt.cache.view, ch0) && At(pt.g, ch0, position, k0, p)
             && pt.firstFree <= pt.g.lastCluster
    requires done + pt.g.Bpc() <= |data| && position.byte == 0 && (position.sector == 0 || position.sector == pt.g.spc)
    modifies pt, pt.cache.Repr
    ensures pt.Valid() && Clusters(pt.g, ch0) && Clusters(pt.g, ch)
            && Grown(pt.g, old(pt.cache.view), ch0, pt.cache.view, ch)
    ensures done + n <= |data| && (flagNoError ==> 0 < n)
    ensures Wrote(size, FileBytes(pt.g, old(pt.cache.view), ch0), FileBytes(pt.g, pt.cache.view, ch), p,
            Sub(data, done, n))
    ensures At(pt.g, ch, pos, k, p + n) && pos.byte == 0 && (pos.sector == 0 || pos.sector == pt.g.spc)
    ensures BehindStart(pos) || (flagNoError && done + n < |data|)
    ensures Needed(pt.g, ch0, ch, p + |data| - done)
    ensures if flagNoError then pt.firstFree <= pt.g.lastCluster
            else NoneFree(pt.T()) && done + n < |data| && p + n == Mul(|ch|, pt.g.Bpc())
    ensures old(pt.Counted()) ==> pt.Counted()
  {
    hide Cache.Valid, Mul, FileBytes, Sub, Wrote, Table, Closed, IsChain, NoneFree, FreeCount, Untouched, FixedKept;
    ghost var v0 := pt.cache.view;
    var remain := |data| - done;
    BpcPositive(pt.g);
    ChainClusters(pt.g, v0, ch0);
    PositionInFile(pt.g, ch0, position, k0, p);
    n := 0;
    flagNoError, pos, ch, k := CheckNext(pt, position, remain, true, ch0, k0, p, size);
    if flagNoError {
      flagNoError, n, pos, ch, k := StoreChunk(pt, pos, data, done, ch, k, p, size, v0, ch0);
    } else {
      WroteNone(size, FileBytes(pt.g, v0, ch0), p, data, done);
    }
  }

  method StoreChunk(pt: Partition, position: FilePosition, data: seq<byte>, done: nat, ghost ch1: seq<nat>,
        ghost k1: nat, ghost p: nat, ghost size: nat,
                    ghost v0: seq<byte>, ghost ch0: seq<nat>)
    returns (flagNoError: bool, n: nat, pos: FilePosition, ghost ch: seq<nat>, ghost k: nat)
    requires pt.Valid() && WellFormed(pt.g, pt.cache.view, ch1) && At(pt.g, ch1, position, k1, p)
             && pt.firstFree <= pt.g.lastCluster
    requires done + pt.g.Bpc() <= |data| && position.byte == 0 && position.sector == 0
    requires Clusters(pt.g, ch1) && Clusters(pt.g, ch0) && Grown(pt.g, v0, ch0, pt.cache.view, ch1)
    requires Wrote(size, FileBytes(pt.g, v0, ch0), FileBytes(pt.g, pt.cache.view, ch1), p, [])
    requires Needed(pt.g, ch0, ch1, p + |data| - done)
    modifies pt, pt.cache.Repr
    ensures pt.Valid() && Clusters(pt.g, ch) && Grown(pt.g, v0, ch0, pt.cache.view, ch)
    ensures 0 < n && done + n <= |data|
    ensures Wrote(size, FileBytes(pt.g, v0, ch0), FileBytes(pt.g, pt.cache.view, ch), p, Sub(data, done, n))
    ensures At(pt.g, ch, pos, k, p + n) && pos.byte == 0 && (pos.sector == 0 || pos.sector == pt.g.spc)
    ensures BehindStart(pos) || (flagNoError && done + n < |data|)
    ensures Needed(pt.g, ch0, ch, p + |data| - done)
    ensures if flagNoError then pt.firstFree <= pt.g.lastCluster
            else NoneFree(pt.T()) && done + n < |data| && p + n == Mul(|ch|, pt.g.Bpc())
    ensures old(pt.Counted()) ==> pt.Counted()
  {
    hide Cache.Valid, Mul, FileBytes, Sub, Wrote, Table, Closed, IsChain, NoneFree, FreeCount, Untouched, FixedKept,
        Div;
    var remain := |data| - done;
    ghost var v1 := pt.cache.view;
    MulZero(pt.g.bps);
    var chunkEnd, nextChunkStart, chunkSize;
    ghost var m;
    flagNoError, chunkEnd, nextChunkStart, chunkSize, m, ch := Group(pt, position.cluster, remain, ch1, k1, p, size);
    ghost var v2 := pt.cache.view;
    GrownMore(pt.g, v0, ch0, v1, ch1, v2, ch);
    WroteMore(size, FileBytes(pt.g, v0, ch0), FileBytes(pt.g, v1, ch1), FileBytes(pt.g, v2, ch), p, [], []);
    StoreGroup(pt, position.cluster, data, done, chunkSize, ch, k1, m, p, size);
    GrownMore(pt.g, v0, ch0, v2, ch, pt.cache.view, ch);
    WroteMore(size, FileBytes(pt.g, v0, ch0), FileBytes(pt.g, v2, ch), FileBytes(pt.g, pt.cache.view, ch), p, [],
        Sub(data, done, chunkSize));
    assert [] + Sub(data, done, chunkSize) == Sub(data, done, chunkSize);
    n := chunkSize;
    BpcPositive(pt.g);
    MulOne(pt.g.Bpc());
    MulMono(1, m, pt.g.Bpc());
    EndOfCluster(pt.g, k1 + m - 1);
    Distrib(k1, m, pt.g.Bpc());
    if chunkEnd != nextChunkStart && pt.g.IsValidCluster(nextChunkStart) {
      pos, k := FilePosition(nextChunkStart, 0, position.byte), k1 + m;
    } else {
      pos, k := FilePosition(chunkEnd, pt.g.spc, position.byte), k1 + m - 1;
    }
  }

  method StoreGroup(pt: Partition, cluster: nat, data: seq<byte>, done: nat, chunkSize: nat, ghost ch: seq<nat>,
        ghost k: nat, ghost m: nat, ghost p: nat, ghost size: nat)
    requires pt.Valid() && WellFormed(pt.g, pt.cache.view, ch) && 0 < m && IsRun(ch, k, m) && cluster == ch[k]
    requires p == Mul(k, pt.g.Bpc()) && chunkSize == Mul(m, pt.g.Bpc()) && done + chunkSize <= |data|
    modifies pt.cache.Repr
    ensures pt.Valid() && Clusters(pt.g, ch) && Grown(pt.g, old(pt.cache.view), ch, pt.cache.view, ch)
    ensures Wrote(size, FileBytes(pt.g, old(pt.cache.view), ch), FileBytes(pt.g, pt.cache.view, ch), p,
            Sub(data, done, chunkSize))
    ensures pt.T() == old(pt.T())
  {
    hide Cache.Valid, Mul, FileBytes, Sub, Splice, Wrote, Table, Closed, IsChain, FreeCount, Grown, Div;
    ghost var v, d := pt.cache.view, Sub(data, done, chunkSize);
    ChainClusters(pt.g, v, ch);
    RunSectors(pt.g, ch, k, m);
    WriteRunOfClusters(pt.g, v, ch, k, m, d);
    GrownByRun(pt.g, v, ch, k, m, d);
    RootOnVolume(pt.g);
    StoreBehindTables(pt.g, v, ClusterBase(pt.g, cluster), d);
    WroteSplice(size, FileBytes(pt.g, v, ch), p, d);
    Whole(d);
    var ok;
    ghost var n;
    ok, n := pt.cache.WriteSectors(pt.g.ClusterToSector(cluster), Div(chunkSize, pt.g.bps), Sub(data, done, chunkSize));
  }

  /** Writes what is left, once the position is on a cluster: sectors, then part of a sector. */
  method WriteTail(pt: Partition, position: FilePosition, data: seq<byte>, done: nat, erase: bool, ghost ch: seq<nat>,
        ghost k: nat, ghost p: nat, ghost size: nat)
    returns (pos: FilePosition)
    requires pt.Valid() && WellFormed(pt.g, pt.cache.view, ch) && At(pt.g, ch, position, k, p)
    requires done < |data| && |data| - done < pt.g.Bpc() && position.sector < pt.g.spc && position.byte == 0
    requires |data| - done >= pt.g.bps ==> position.sector == 0
    requires erase ==> size <= p + |data| - done
    modifies pt.cache.Repr
    ensures pt.Valid() && Clusters(pt.g, ch) && Grown(pt.g, old(pt.cache.view), ch, pt.cache.view, ch)
            && pt.T() == old(pt.T())
    ensures Wrote(size, FileBytes(pt.g, old(pt.cache.view), ch), FileBytes(pt.g, pt.cache.view, ch), p,
            Sub(data, done, |data| - done))
    ensures At(pt.g, ch, pos, k, p + |data| - done) && (pos.sector == pt.g.spc ==> pos.byte == 0)
    ensures BehindStart(pos)
  {
    hide Cache.Valid, Mul, FileBytes, Sub, Wrote, Table, Closed, IsChain, FreeCount, Untouched, FixedKept,
        Div;
    ghost var v0 := pt.cache.view;
    ChainClusters(pt.g, v0, ch);
    GrownNot(pt.g, v0, ch);
    PositionInFile(pt.g, ch, position, k, p);
    WroteNone(size, FileBytes(pt.g, v0, ch), p, data, done);
    pos := position;
    var remain := |data| - done;
    var tempVar := Div(remain, pt.g.bps);
    DivMod(remain, pt.g.bps);
    RestFits(pt.g, pos.sector, remain);
    MulZero(pt.g.bps);
    var n := 0;
    if tempVar > 0 {
      n := Mul(tempVar, pt.g.bps);
      Distrib(pos.sector, tempVar, pt.g.bps);
      StoreWhole(pt, pos, tempVar, Sub(data, done, n), ch, k, p, size);
      pos := pos.(sector := pos.sector + tempVar);
    }
    if remain - n > 0 {
      ghost var v1 := pt.cache.view;
      StorePart(pt, pos, Sub(data, done + n, remain - n), erase, ch, k, p + n, size);
      GrownMore(pt.g, v0, ch, v1, ch, pt.cache.view, ch);
      WroteMore(size, FileBytes(pt.g, v0, ch), FileBytes(pt.g, v1, ch), FileBytes(pt.g, pt.cache.view, ch), p,
          Sub(data, done, n), Sub(data, done + n, remain - n));
      SubConcat(data, done, n, remain - n);
      pos := pos.(byte := pos.byte + (remain - n));
    }
  }

  /** Links one more cluster if the rest needs it, and writes the rest. */
  method WriteRest(pt: Partition, position: FilePosition, data: seq<byte>, done: nat, flagNoError: bool, erase: bool,
                   ghost ch0: seq<nat>, ghost k0: nat, ghost p: nat, ghost size: nat)
    returns (n: nat, pos: FilePosition, ghost ch: seq<nat>, ghost k: nat)
    requires pt.Valid() && WellFormed(pt.g, pt.cache.view, ch0) && At(pt.g, ch0, position, k0, p)
    requires done <= |data| && (done < |data| ==> position.byte == 0)
             && (position.sector == pt.g.spc ==> position.byte == 0)
    requires flagNoError ==> |data| - done < pt.g.Bpc() && pt.firstFree <= pt.g.lastCluster
    requires !flagNoError ==> NoneFree(pt.T()) && done < |data| && p == Mul(|ch0|, pt.g.Bpc())
    requires |data| - done >= pt.g.bps ==> position.sector == 0 || position.sector == pt.g.spc
    requires erase ==> size <= p + |data| - done
    modifies pt, pt.cache.Repr
    ensures pt.Valid() && Clusters(pt.g, ch0) && Clusters(pt.g, ch)
            && Grown(pt.g, old(pt.cache.view), ch0, pt.cache.view, ch)
    ensures done + n <= |data| && (done + n < |data| ==> NoneFree(pt.T()) && p + n == Mul(|ch|, pt.g.Bpc()))
    ensures done + n == |data| ==> pt.firstFree <= pt.g.lastCluster
    ensures Needed(pt.g, ch0, ch, p + |data| - done)
    ensures Wrote(size, FileBytes(pt.g, old(pt.cache.view), ch0), FileBytes(pt.g, pt.cache.view, ch), p,
            Sub(data, done, n))
    ensures At(pt.g, ch, pos, k, p + n) && (pos.sector == pt.g.spc ==> pos.byte == 0)
    ensures BehindStart(pos) || (n == 0 && pos == position && (done == |data| || !flagNoError))
    ensures old(pt.Counted()) ==> pt.Counted()
  {
    hide Cache.Valid, Mul, FileBytes, Sub, Wrote, Table, Closed, IsChain, NoneFree, FreeCount, Untouched, FixedKept;
    ghost var v0 := pt.cache.view;
    ChainClusters(pt.g, v0, ch0);
    PositionInFile(pt.g, ch0, position, k0, p);
    WroteNone(size, FileBytes(pt.g, v0, ch0), p, data, done);
    if flagNoError {
      assert pt.firstFree <= pt.g.lastCluster;
    } else {
      GrownNot(pt.g, v0, ch0);
      return 0, position, ch0, k0;
    }
    var ok;
    ok, pos, ch, k := CheckNext(pt, position, |data| - done, flagNoError, ch0, k0, p, size);
    n := 0;
    if ok && done < |data| {
      ghost var v1 := pt.cache.view;
      pos := WriteTail(pt, pos, data, done, erase, ch, k, p, size);
      n := |data| - done;
      GrownMore(pt.g, v0, ch0, v1, ch, pt.cache.view, ch);
      WroteMore(size, FileBytes(pt.g, v0, ch0), FileBytes(pt.g, v1, ch), FileBytes(pt.g, pt.cache.view, ch), p, [],
          Sub(data, done, n));
      assert [] + Sub(data, done, n) == Sub(data, done, n);
    }
  }

  /** The writing of `data` at a position of the file, from the first alignment on. Writes all of it, or as
      much as there are clusters for. */
  method WriteSteps(pt: Partition, position: FilePosition, data: seq<byte>, erase: bool, ghost ch0: seq<nat>,
        ghost k0: nat, ghost p: nat, ghost size: nat)
    returns (n: nat, pos: FilePosition, ghost ch: seq<nat>, ghost k: nat)
    requires pt.Valid() && WellFormed(pt.g, pt.cache.view, ch0) && At(pt.g, ch0, position, k0, p)
             && pt.firstFree <= pt.g.lastCluster
    requires 0 < |data| && (position.sector == pt.g.spc ==> position.byte == 0)
    requires erase ==> size <= p + |data|
    modifies pt, pt.cache.Repr
    ensures pt.Valid() && Clusters(pt.g, ch0) && Clusters(pt.g, ch)
            && Grown(pt.g, old(pt.cache.view), ch0, pt.cache.view, ch)
    ensures Needed(pt.g, ch0, ch, p + |data|)
    ensures n <= |data| && (n < |data| ==> NoneFree(pt.T()) && p + n == Mul(|ch|, pt.g.Bpc()))
            && (n == |data| ==> pt.firstFree <= pt.g.lastCluster)
    ensures Wrote(size, FileBytes(pt.g, old(pt.cache.view), ch0), FileBytes(pt.g, pt.cache.view, ch), p, data[..n])
    ensures At(pt.g, ch, pos, k, p + n) && (pos.sector == pt.g.spc ==> pos.byte == 0)
    ensures n > 0 ==> BehindStart(pos)
    ensures old(pt.Counted()) ==> pt.Counted()
  {
    hide Cache.Valid, Mul, FileBytes, Sub, Wrote, Table, Closed, IsChain, NoneFree, FreeCount, Untouched, FixedKept;
    ghost var v0 := pt.cache.view;
    ChainClusters(pt.g, v0, ch0);
    PositionInFile(pt.g, ch0, position, k0, p);
    var ok;
    ok, pos, ch, k := CheckNext(pt, position, |data|, true, ch0, k0, p, size);
    if !ok {
      return 0, pos, ch, k;
    }
    n, pos, ch, k := WriteAligned(pt, pos, data, erase, ch, k, p, size, v0, ch0);
  }

  method WriteAligned(pt: Partition, position: FilePosition, data: seq<byte>, erase: bool, ghost ch1: seq<nat>,
        ghost k1: nat, ghost p: nat, ghost size: nat,
                      ghost v0: seq<byte>, ghost ch0: seq<nat>)
    returns (n: nat, pos: FilePosition, ghost ch: seq<nat>, ghost k: nat)
    requires pt.Valid() && WellFormed(pt.g, pt.cache.view, ch1) && At(pt.g, ch1, position, k1, p)
             && pt.firstFree <= pt.g.lastCluster
    requires 0 < |data| && position.sector < pt.g.spc && (erase ==> size <= p + |data|)
    requires Clusters(pt.g, ch1) && Clusters(pt.g, ch0) && Grown(pt.g, v0, ch0, pt.cache.view, ch1)
    requires Wrote(size, FileBytes(pt.g, v0, ch0), FileBytes(pt.g, pt.cache.view, ch1), p, [])
    requires Needed(pt.g, ch0, ch1, p + |data|)
    modifies pt, pt.cache.Repr
    ensures pt.Valid() && Clusters(pt.g, ch) && Grown(pt.g, v0, ch0, pt.cache.view, ch)
    ensures Needed(pt.g, ch0, ch, p + |data|)
    ensures n <= |data| && (n < |data| ==> NoneFree(pt.T()) && p + n == Mul(|ch|, pt.g.Bpc()))
            && (n == |data| ==> pt.firstFree <= pt.g.lastCluster)
    ensures Wrote(size, FileBytes(pt.g, v0, ch0), FileBytes(pt.g, pt.cache.view, ch), p, data[..n])
    ensures At(pt.g, ch, pos, k, p + n) && (pos.sector == pt.g.spc ==> pos.byte == 0)
    ensures n > 0 ==> BehindStart(pos)
    ensures old(pt.Counted()) ==> pt.Counted()
  {
    hide Cache.Valid, Mul, FileBytes, Sub, Wrote, Table, Closed, IsChain, NoneFree, FreeCount, Untouched, FixedKept;
    ghost var v1 := pt.cache.view;
    n, pos := WriteHead(pt, position, data, 0, ch1, k1, p, size);
    ghost var v2 := pt.cache.view;
    PrefixMore(data, 0, n);
    var m;
    m, pos := WriteAlign(pt, pos, data, n, ch1, k1, p + n, size);
    ghost var v3 := pt.cache.view;
    WroteMore(size, FileBytes(pt.g, v0, ch0), FileBytes(pt.g, v1, ch1), FileBytes(pt.g, v2, ch1), p, [],
        Sub(data, 0, n));
    WroteMore(size, FileBytes(pt.g, v0, ch0), FileBytes(pt.g, v2, ch1), FileBytes(pt.g, v3, ch1), p, data[..n],
        Sub(data, n, m));
    GrownMore(pt.g, v0, ch0, v1, ch1, v2, ch1);
    GrownMore(pt.g, v0, ch0, v2, ch1, v3, ch1);
    PrefixMore(data, n, m);
    n, pos, ch, k := WriteOn(pt, pos, data, n + m, erase, ch1, k1, p, size, v0, ch0);
  }

  method WriteOn(pt: Partition, position: FilePosition, data: seq<byte>, done: nat, erase: bool, ghost ch1: seq<nat>,
        ghost k1: nat, ghost p: nat, ghost size: nat,
                 ghost v0: seq<byte>, ghost ch0: seq<nat>)
    returns (n: nat, pos: FilePosition, ghost ch: seq<nat>, ghost k: nat)
    requires pt.Valid() && WellFormed(pt.g, pt.cache.view, ch1) && At(pt.g, ch1, position, k1, p + done)
             && pt.firstFree <= pt.g.lastCluster
    requires done <= |data| && (erase ==> size <= p + |data|)
    requires (done < |data| ==> position.byte == 0) && (position.sector == pt.g.spc ==> position.byte == 0)
    requires done > 0 ==> BehindStart(position)
    requires |data| - done >= pt.g.bps ==> position.sector == 0 || position.sector == pt.g.spc
    requires Clusters(pt.g, ch1) && Clusters(pt.g, ch0) && Grown(pt.g, v0, ch0, pt.cache.view, ch1)
    requires Wrote(size, FileBytes(pt.g, v0, ch0), FileBytes(pt.g, pt.cache.view, ch1), p, data[..done])
    requires Needed(pt.g, ch0, ch1, p + |data|)
    modifies pt, pt.cache.Repr
    ensures pt.Valid() && Clusters(pt.g, ch) && Grown(pt.g, v0, ch0, pt.cache.view, ch)
    ensures Needed(pt.g, ch0, ch, p + |data|)
    ensures n <= |data| && (n < |data| ==> NoneFree(pt.T()) && p + n == Mul(|ch|, pt.g.Bpc()))
            && (n == |data| ==> pt.firstFree <= pt.g.lastCluster)
    ensures Wrote(size, FileBytes(pt.g, v0, ch0), FileBytes(pt.g, pt.cache.view, ch), p, data[..n])
    ensures At(pt.g, ch, pos, k, p + n) && (pos.sector == pt.g.spc ==> pos.byte == 0)
    ensures n > 0 ==> BehindStart(pos)
    ensures old(pt.Counted()) ==> pt.Counted()
  {
    hide Cache.Valid, Mul, FileBytes, Sub, Wrote, Table, Closed, IsChain, NoneFree, FreeCount, Untouched, FixedKept;
    ghost var v1 := pt.cache.view;
    var flagNoError, m, r;
    flagNoError, m, pos, ch, k := WriteClusters(pt, position, data, done, ch1, k1, p + done, size);
    ghost var v2, ch2 := pt.cache.view, ch;
    r, pos, ch, k := WriteRest(pt, pos, data, done + m, flagNoError, erase, ch2, k, p + done + m, size);
    ghost var v3 := pt.cache.view;
    GrownMore(pt.g, v0, ch0, v1, ch1, v2, ch2);
    GrownMore(pt.g, v0, ch0, v2, ch2, v3, ch);
    WroteMore(size, FileBytes(pt.g, v0, ch0), FileBytes(pt.g, v1, ch1), FileBytes(pt.g, v2, ch2), p, data[..done],
        Sub(data, done, m));
    PrefixMore(data, done, m);
    WroteMore(size, FileBytes(pt.g, v0, ch0), FileBytes(pt.g, v2, ch2), FileBytes(pt.g, v3, ch), p, data[..done + m],
        Sub(data, done + m, r));
    PrefixMore(data, done + m, r);
    n := done + m + r;
  }

  lemma PrefixMore(data: seq<byte>, n: nat, m: nat)
    requires n + m <= |data|
    ensures data[..n] + Sub(data, n, m) == data[..n + m]
    ensures Sub(data, 0, n) == data[..n] && [] + Sub(data, 0, n) == data[..n]
  {
  }
}
