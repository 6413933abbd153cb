/** The steps of reading a file (src/fat/fatfile.c, _FAT_read_r). Each step takes the bytes the position
    points at and moves the position on; together they walk from any position to any later one. */
module FileRead {
  import opened Bytes
  import opened Arith
  import opened Volume
  import opened FatCodec
  import opened Chains
  import opened Fat
  import opened FileData
  import opened SectorCache

  /** A read inside one sector of a cluster. */
  method ReadPartial(pt: Partition, pos: FilePosition, n: nat) returns (d: seq<byte>)
    requires pt.Valid() && pt.g.IsValidCluster(pos.cluster) && pos.byte + n <= pt.g.bps
    requires pt.g.ClusterToSector(pos.cluster) + pos.sector < pt.g.end
    modifies pt.cache.Repr
    ensures pt.Valid() && pt.cache.view == old(pt.cache.view)
    ensures ClusterBase(pt.g, pos.cluster) + Mul(pos.sector, pt.g.bps) + pos.byte + n <= |pt.cache.view|
    ensures d == Sub(pt.cache.view, ClusterBase(pt.g, pos.cluster) + Mul(pos.sector, pt.g.bps) + pos.byte, n)
  {
    hide Cache.Valid, Mul, Sub;
    Distrib(pt.g.ClusterToSector(pos.cluster), pos.sector, pt.g.bps);
    var ok;
    ok, d := pt.cache.ReadPartialSector(pt.g.ClusterToSector(pos.cluster) + pos.sector, pos.byte, n);
  }

  /** A read of whole sectors inside a cluster, which is the `k`-th of the file. */
  method ReadWhole(pt: Partition, pos: FilePosition, n: nat, ghost ch: seq<nat>, ghost k: nat) returns (d: seq<byte>)
    requires pt.Valid() && Clusters(pt.g, ch) && k < |ch| && ch[k] == pos.cluster && pos.sector + n <= pt.g.spc
    modifies pt.cache.Repr
    ensures pt.Valid() && pt.cache.view == old(pt.cache.view)
    ensures Mul(k, pt.g.Bpc()) + Mul(pos.sector, pt.g.bps) + Mul(n, pt.g.bps) <= Mul(|ch|, pt.g.Bpc())
    ensures d == Sub(FileBytes(pt.g, pt.cache.view, ch), Mul(k, pt.g.Bpc()) + Mul(pos.sector, pt.g.bps),
            Mul(n, pt.g.bps))
  {
    hide Cache.Valid, Mul, Sub, FileBytes;
    SectorsOnVolume(pt.g, pos.cluster, pos.sector, n);
    var ok;
    ok, d := pt.cache.ReadSectors(pt.g.ClusterToSector(pos.cluster) + pos.sector, n);
    ReadInCluster(pt.g, pt.cache.view, ch, k, Mul(pos.sector, pt.g.bps), Mul(n, pt.g.bps));
  }

  /** A step from `p` delivered what the file has there. */
  ghost predicate Delivered(raw: seq<byte>, p: nat, d: seq<byte>) {
    p + |d| <= |raw| && d == Sub(raw, p, |d|)
  }

  lemma DeliveredMore(raw: seq<byte>, p: nat, d: seq<byte>, e: seq<byte>)
    requires Delivered(raw, p, d) && Delivered(raw, p + |d|, e)
    ensures Delivered(raw, p, d + e)
  {
  }

  /** Reads up to the end of the sector, unless the position is at its start and a whole
      sector or more is wanted. A position behind the last sector of its cluster reads the sector that
      follows on the volume, which is another cluster. */
  method ReadHead(pt: Partition, position: FilePosition, remain: nat, ghost ch: seq<nat>, ghost k: nat, ghost p: nat)
    returns (d: seq<byte>, pos: FilePosition)
    requires pt.Valid() && Clusters(pt.g, ch) && At(pt.g, ch, position, k, p)
    requires remain > 0 && (position.sector == pt.g.spc ==> position.byte == 0)
    requires position.sector == pt.g.spc && remain < pt.g.bps ==> position.cluster < pt.g.lastCluster
    modifies pt.cache.Repr
    ensures pt.Valid() && pt.cache.view == old(pt.cache.view)
    ensures |d| <= remain && (|d| == remain || pos.byte == 0)
    ensures At(pt.g, ch, pos, k, p + |d|)
    ensures position.sector < pt.g.spc ==> Delivered(FileBytes(pt.g, pt.cache.view, ch), p, d)
    ensures position.sector < pt.g.spc && pos.sector == pt.g.spc ==> pos.byte == 0
    ensures position.sector == pt.g.spc ==> pos.sector == pt.g.spc
    ensures position.sector == pt.g.spc ==> if remain < pt.g.bps then |d| == remain else d == []
    ensures position.sector == pt.g.spc && d != [] ==>
              ClusterBase(pt.g, position.cluster) + pt.g.Bpc() + |d| <= |pt.cache.view|
              && d == Sub(pt.cache.view, ClusterBase(pt.g, position.cluster) + pt.g.Bpc(), |d|)
  {
    hide Cache.Valid, Mul, Sub, FileBytes;
    pos, d := position, [];
    PositionInFile(pt.g, ch, position, k, p);
    assert Delivered(FileBytes(pt.g, pt.cache.view, ch), p, d);
    var tempVar := pt.g.bps - pos.byte;
    if tempVar > remain {
      tempVar := remain;
    }
    if tempVar < pt.g.bps {
      if pos.sector < pt.g.spc {
        PositionOnVolume(pt.g, pos.cluster, pos.sector, pos.byte, tempVar);
        ReadInCluster(pt.g, pt.cache.view, ch, k, Mul(pos.sector, pt.g.bps) + pos.byte, tempVar);
      } else {
        BehindOnVolume(pt.g, pos.cluster);
      }
      d := ReadPartial(pt, pos, tempVar);
      pos := pos.(byte := pos.byte + tempVar);
      if pos.byte >= pt.g.bps {
        MulSucc(pos.sector, pt.g.bps);
        pos := pos.(byte := 0, sector := pos.sector + 1);
      }
    }
  }

  lemma BehindOnVolume(g: Geometry, c: nat)
    requires g.Ok() && g.IsValidCluster(c) && c < g.lastCluster
    ensures g.ClusterToSector(c) + g.spc < g.end
  {
    hide Mul;
    ClusterSectors(g, c, c + 1);
  }

  /** Reads whole sectors, to the end of the cluster at most. */
  method ReadAlign(pt: Partition, position: FilePosition, remain: nat, ghost ch: seq<nat>, ghost k: nat, ghost p: nat)
    returns (d: seq<byte>, pos: FilePosition)
    requires pt.Valid() && Clusters(pt.g, ch) && At(pt.g, ch, position, k, p)
    requires p + remain <= Mul(|ch|, pt.g.Bpc()) && (position.byte == 0 || remain == 0)
    modifies pt.cache.Repr
    ensures pt.Valid() && pt.cache.view == old(pt.cache.view)
    ensures |d| <= remain && Delivered(FileBytes(pt.g, pt.cache.view, ch), p, d)
    ensures At(pt.g, ch, pos, k, p + |d|) && pos.byte == position.byte
    ensures pos.sector == pt.g.spc || remain - |d| < pt.g.bps
  {
    hide Cache.Valid, Mul, Sub, FileBytes, Div;
    pos, d := position, [];
    var tempVar := if remain > Mul(pt.g.spc - pos.sector, pt.g.bps) then pt.g.spc - pos.sector
        else Div(remain, pt.g.bps);
    SectorsWanted(pt.g, pos.sector, remain);
    Distrib(pos.sector, tempVar, pt.g.bps);
    if tempVar > 0 {
      d := ReadWhole(pt, pos, tempVar, ch, k);
      pos := pos.(sector := pos.sector + tempVar);
    } else {
      MulZero(pt.g.bps);
    }
  }

  /** How many whole sectors the alignment step takes, and what remains. */
  lemma SectorsWanted(g: Geometry, sector: nat, remain: nat)
    requires g.Ok() && sector <= g.spc
    ensures var left := Mul(g.spc - sector, g.bps);
            var t := if remain > left then g.spc - sector else Div(remain, g.bps);
            sector + t <= g.spc && Mul(t, g.bps) <= remain
            && (sector + t == g.spc || remain - Mul(t, g.bps) < g.bps)
    ensures remain == 0 ==> Div(remain, g.bps) == 0
  {
    hide Mul;
    DivMod(remain, g.bps);
    if remain <= Mul(g.spc - sector, g.bps) {
      DivMono(remain, Mul(g.spc - sector, g.bps), g.bps);
      DivModUnique(g.spc - sector, g.bps, 0);
    }
  }

  /** At the end of a cluster the position moves to the start of the next one,
      or stays if the file ends here too. */
  method NextIfFull(pt: Partition, position: FilePosition, remain: nat, ghost ch: seq<nat>, ghost k: nat, ghost p: nat)
    returns (ok: bool, pos: FilePosition, ghost j: nat)
    requires pt.Valid() && IsChain(pt.T(), ch) && At(pt.g, ch, position, k, p)
    requires p + remain <= Mul(|ch|, pt.g.Bpc())
    modifies pt.cache.Repr
    ensures pt.Valid() && pt.cache.view == old(pt.cache.view) && ok
    ensures At(pt.g, ch, pos, j, p) && pos.byte == position.byte
    ensures if position.sector < pt.g.spc then pos == position && j == k
            else if k + 1 < |ch| then pos.sector == 0 && j == k + 1
            else pos == position && j == k == |ch| - 1 && remain == 0 && pos.byte == 0
  {
    hide Cache.Valid, Mul, Table;
    pos, ok, j := position, true, k;
    if pos.sector >= pt.g.spc {
      ghost var t := pt.T();
      ChainClusters(pt.g, pt.cache.view, ch);
      LinkOut(t, ch, k);
      StepOver(pt.g, k, |ch|, pos.byte, remain);
      var next := pt.NextCluster(pos.cluster);
      if remain == 0 && next == CLUSTER_EOF {
        pos := pos.(sector := pt.g.spc);
      } else if !pt.g.IsValidCluster(next) {
        ok := false;
      } else {
        pos := FilePosition(next, 0, pos.byte);
        j := k + 1;
      }
    }
  }

  /** The end of one cluster is the start of the next. */
  lemma StepOver(g: Geometry, k: nat, n: nat, byte: nat, remain: nat)
    requires k < n && Mul(k, g.Bpc()) + g.Bpc() + byte + remain <= Mul(n, g.Bpc())
    ensures Mul(k, g.Bpc()) + Mul(g.spc, g.bps) == Mul(k + 1, g.Bpc())
    ensures Mul(0, g.bps) == 0
    ensures k + 1 == n ==> remain == 0 && byte == 0
  {
    hide Mul;
    MulSucc(k, g.Bpc());
    MulZero(g.bps);
  }

  /** Groups the clusters from `cluster` on that follow one another on the volume, as far as wanted. */
  method Chunk(pt: Partition, cluster: nat, remain: nat, ghost ch: seq<nat>, ghost k: nat)
    returns (chunkEnd: nat, nextChunkStart: nat, chunkSize: nat, ghost n: nat)
    requires pt.Valid() && IsChain(pt.T(), ch) && k < |ch| && ch[k] == cluster && pt.g.Bpc() <= remain
    requires Mul(k, pt.g.Bpc()) + remain <= Mul(|ch|, pt.g.Bpc())
    modifies pt.cache.Repr
    ensures pt.Valid() && pt.cache.view == old(pt.cache.view) && pt.T() == old(pt.T())
    ensures 0 < n && IsRun(ch, k, n) && chunkSize == Mul(n, pt.g.Bpc()) <= remain
    ensures chunkEnd == ch[k + n - 1] && nextChunkStart == pt.T()[chunkEnd]
    ensures nextChunkStart != chunkEnd + 1 || chunkSize + pt.g.Bpc() > remain
  {
    hide Cache.Valid, Mul, Table;
    ghost var t := pt.T();
    ChainClusters(pt.g, pt.cache.view, ch);
    LinkOut(t, ch, k);
    chunkEnd, chunkSize, n := cluster, pt.g.Bpc(), 1;
    MulOne(pt.g.Bpc());
    nextChunkStart := pt.NextCluster(chunkEnd);
    while nextChunkStart == chunkEnd + 1 && chunkSize + pt.g.Bpc() <= remain
      invariant pt.Valid() && pt.cache.view == old(pt.cache.view) && pt.T() == t
      invariant 0 < n && IsRun(ch, k, n) && chunkSize == Mul(n, pt.g.Bpc()) <= remain
      invariant chunkEnd == ch[k + n - 1] && nextChunkStart == t[chunkEnd]
      decreases remain - chunkSize
    {
      MoreClusters(pt.g, k, n, |ch|, chunkSize + pt.g.Bpc(), remain);
      LinkOut(t, ch, k + n - 1);
      LinkOut(t, ch, k + n);
      MulSucc(n, pt.g.Bpc());
      BpcPositive(pt.g);
      chunkEnd := nextChunkStart;
      chunkSize := chunkSize + pt.g.Bpc();
      n := n + 1;
      nextChunkStart := pt.NextCluster(chunkEnd);
    }
  }

  lemma BpcPositive(g: Geometry)
    requires g.Ok()
    ensures g.Bpc() >= g.bps
  {
    hide Mul;
    MulOne(g.bps);
    MulMono(1, g.spc, g.bps);
  }

  /** If more bytes are wanted than `n` clusters have, the file has another cluster. */
  lemma MoreClusters(g: Geometry, k: nat, n: nat, total: nat, size: nat, remain: nat)
    requires g.Ok() && size == Mul(n, g.Bpc()) + g.Bpc() <= remain && Mul(k, g.Bpc()) + remain <= Mul(total, g.Bpc())
    ensures k + n < total
  {
    hide Mul;
    Distrib(k, n, g.Bpc());
    BpcPositive(g);
    MulLess(k + n, total, g.Bpc());
  }

  /** Reads whole clusters, those that follow one another on the volume at once. */
  method ReadClusters(pt: Partition, position: FilePosition, remain0: nat, ghost ch: seq<nat>, ghost k0: nat,
        ghost p: nat)
    returns (ok: bool, d: seq<byte>, pos: FilePosition, ghost k: nat)
    requires pt.Valid() && IsChain(pt.T(), ch) && At(pt.g, ch, position, k0, p)
    requires p + remain0 <= Mul(|ch|, pt.g.Bpc())
    requires remain0 >= pt.g.bps ==> position.sector == 0 && position.byte == 0
    modifies pt.cache.Repr
    ensures pt.Valid() && pt.cache.view == old(pt.cache.view) && pt.T() == old(pt.T()) && ok && Clusters(pt.g, ch)
    ensures |d| <= remain0 && remain0 - |d| < pt.g.Bpc() && Delivered(FileBytes(pt.g, pt.cache.view, ch), p, d)
    ensures At(pt.g, ch, pos, k, p + |d|) && pos.byte == position.byte
    ensures d == [] ==> pos == position && k == k0
    ensures d != [] ==> pos.byte == 0 && (pos.sector == 0 || pos.sector == pt.g.spc)
    ensures d != [] && pos.sector == pt.g.spc ==> |d| == remain0 && k == |ch| - 1
  {
    hide Cache.Valid, Mul, Table, FileBytes, Sub;
    var remain: nat := remain0;
    ok, d, pos, k := true, [], position, k0;
    ChainClusters(pt.g, pt.cache.view, ch);
    BpcPositive(pt.g);
    while remain >= pt.g.Bpc() && ok
      invariant pt.Valid() && pt.cache.view == old(pt.cache.view) && pt.T() == old(pt.T()) && ok
      invariant |d| + remain == remain0 && Delivered(FileBytes(pt.g, pt.cache.view, ch), p, d)
      invariant At(pt.g, ch, pos, k, p + |d|) && pos.byte == position.byte
      invariant d == [] ==> pos == position && k == k0
      invariant d != [] ==>
                  pos.byte == 0 && (pos.sector == 0 || (pos.sector == pt.g.spc && remain == 0 && k == |ch| - 1))
      decreases remain
    {
      var e;
      ok, e, pos, k := ReadChunk(pt, pos, remain, ch, k, p + |d|);
      DeliveredMore(FileBytes(pt.g, pt.cache.view, ch), p, d, e);
      d := d + e;
      remain := remain - |e|;
    }
  }

  /** One round of that loop. */
  method ReadChunk(pt: Partition, position: FilePosition, remain: nat, ghost ch: seq<nat>, ghost k0: nat, ghost p: nat)
    returns (ok: bool, d: seq<byte>, pos: FilePosition, ghost k: nat)
    requires pt.Valid() && IsChain(pt.T(), ch) && At(pt.g, ch, position, k0, p) && position.sector == 0
             && position.byte == 0
    requires p + remain <= Mul(|ch|, pt.g.Bpc()) && pt.g.Bpc() <= remain
    modifies pt.cache.Repr
    ensures pt.Valid() && pt.cache.view == old(pt.cache.view) && ok && Clusters(pt.g, ch)
    ensures 0 < |d| <= remain && Delivered(FileBytes(pt.g, pt.cache.view, ch), p, d)
    ensures At(pt.g, ch, pos, k, p + |d|) && pos.byte == 0
    ensures pos.sector == 0 || (pos.sector == pt.g.spc && |d| == remain && k == |ch| - 1)
  {
    hide Cache.Valid, Mul, Table, FileBytes, Sub, Div;
    pos, ok := position, true;
    ChainClusters(pt.g, pt.cache.view, ch);
    MulZero(pt.g.bps);
    ghost var t := pt.T();
    var chunkEnd, nextChunkStart, chunkSize;
    ghost var n;
    chunkEnd, nextChunkStart, chunkSize, n := Chunk(pt, pos.cluster, remain, ch, k0);
    RunSectors(pt.g, ch, k0, n);
    ReadRunOfClusters(pt.g, pt.cache.view, ch, k0, n);
    BpcPositive(pt.g);
    MulSucc(n - 1, pt.g.Bpc());
    ok, d := pt.cache.ReadSectors(pt.g.ClusterToSector(pos.cluster), Div(chunkSize, pt.g.bps));
    LinkOut(t, ch, k0 + n - 1);
    Distrib(k0, n, pt.g.Bpc());
    Distrib(k0, n - 1, pt.g.Bpc());
    if remain == |d| && nextChunkStart == CLUSTER_EOF {
      pos := FilePosition(chunkEnd, pt.g.spc, pos.byte);
      k := k0 + n - 1;
    } else if !pt.g.IsValidCluster(nextChunkStart) {
      ok := false;
      k := k0;
    } else {
      pos := FilePosition(nextChunkStart, 0, pos.byte);
      k := k0 + n;
    }
  }

  /** Reads what is left: sectors of the last cluster, then part of a sector. */
  method ReadRest(pt: Partition, position: FilePosition, remain: nat, ghost ch: seq<nat>, ghost k: nat, ghost p: nat)
    returns (d: seq<byte>, pos: FilePosition)
    requires pt.Valid() && Clusters(pt.g, ch) && At(pt.g, ch, position, k, p)
    requires p + remain <= Mul(|ch|, pt.g.Bpc()) && remain < pt.g.Bpc()
    requires remain >= pt.g.bps ==> position.sector == 0
    requires remain > 0 ==> position.sector < pt.g.spc && position.byte == 0
    requires position.sector == pt.g.spc ==> position.byte == 0
    modifies pt.cache.Repr
    ensures pt.Valid() && pt.cache.view == old(pt.cache.view)
    ensures |d| == remain && Delivered(FileBytes(pt.g, pt.cache.view, ch), p, d)
    ensures At(pt.g, ch, pos, k, p + |d|) && (pos.sector == pt.g.spc ==> pos.byte == 0 && pos == position)
  {
    hide Cache.Valid, Mul, FileBytes, Sub, Div;
    pos, d := position, [];
    var tempVar := Div(remain, pt.g.bps);
    DivMod(remain, pt.g.bps);
    RestFits(pt.g, pos.sector, remain);
    MulZero(pt.g.bps);
    if tempVar > 0 {
      d := ReadWhole(pt, pos, tempVar, ch, k);
      Distrib(pos.sector, tempVar, pt.g.bps);
      pos := pos.(sector := pos.sector + tempVar);
    }
    var left := remain - |d|;
    if left > 0 {
      PositionOnVolume(pt.g, pos.cluster, pos.sector, 0, left);
      ReadInCluster(pt.g, pt.cache.view, ch, k, Mul(pos.sector, pt.g.bps), left);
      var e := ReadPartial(pt, pos.(byte := 0), left);
      DeliveredMore(FileBytes(pt.g, pt.cache.view, ch), p, d, e);
      d := d + e;
      pos := pos.(byte := pos.byte + left);
    }
  }

  /** What is left after the whole clusters fits into one. */
  lemma RestFits(g: Geometry, sector: nat, remain: nat)
    requires g.Ok() && remain < g.Bpc() && sector <= g.spc
    requires remain >= g.bps ==> sector == 0
    requires remain > 0 ==> sector < g.spc
    ensures sector + Div(remain, g.bps) <= g.spc
    ensures remain > 0 ==> sector + Div(remain, g.bps) < g.spc
    ensures remain < g.bps ==> Div(remain, g.bps) == 0
  {
    hide Mul;
    DivMod(remain, g.bps);
    if remain >= g.bps && g.spc <= Div(remain, g.bps) {
      MulMono(g.spc, Div(remain, g.bps), g.bps);
    }
  }

  /** From the end of the alignment step on: next cluster, whole clusters, rest. */
  method ReadOn(pt: Partition, position: FilePosition, remain0: nat, ghost ch: seq<nat>, ghost k0: nat, ghost p: nat)
    returns (d: seq<byte>, pos: FilePosition)
    requires pt.Valid() && IsChain(pt.T(), ch) && At(pt.g, ch, position, k0, p)
    requires p + remain0 <= Mul(|ch|, pt.g.Bpc())
    requires remain0 > 0 ==> position.byte == 0
    requires position.sector == pt.g.spc || remain0 < pt.g.bps
    modifies pt.cache.Repr
    ensures pt.Valid() && pt.cache.view == old(pt.cache.view) && Clusters(pt.g, ch)
    ensures |d| == remain0 && Delivered(FileBytes(pt.g, pt.cache.view, ch), p, d)
    ensures Denotes(pt.g, ch, pos, p + |d|)
    ensures pos.sector == pt.g.spc ==> p + |d| == Mul(|ch|, pt.g.Bpc())
  {
    hide Cache.Valid, Mul, Sub, FileBytes, Table;
    var ok;
    ghost var k;
    ok, pos, k := NextIfFull(pt, position, remain0, ch, k0, p);
    BpcPositive(pt.g);
    var rest;
    ok, d, pos, k := ReadClusters(pt, pos, remain0, ch, k, p);
    rest, pos := ReadRest(pt, pos, remain0 - |d|, ch, k, p + |d|);
    MulSucc(k, pt.g.Bpc());
    DeliveredMore(FileBytes(pt.g, pt.cache.view, ch), p, d, rest);
    d := d + rest;
  }
}
