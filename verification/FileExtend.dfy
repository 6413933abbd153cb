/** Growing a file with zeros (src/fat/fatfile.c, _FAT_file_extend_r). */
module FileExtend {
  import opened Bytes
  import opened Arith
  import opened Volume
  import opened FatCodec
  import opened Chains
  import opened Fat
  import opened FileData
  import opened FileWrite
  import opened Growth
  import opened SectorCache

  lemma ZerosMore(a: nat, b: nat)
    ensures Zeros(a) + Zeros(b) == Zeros(a + b)
  {
  }

  /** A chain of `n` clusters is just long enough for `size` bytes; a file just started has one cluster. */
  predicate JustLongEnough(g: Geometry, size: nat, n: nat) {
    if size == 0 then n == 1 else 0 < n && Mul(n - 1, g.Bpc()) < size <= Mul(n, g.Bpc())
  }

  /** Cluster, sector and byte of the end of a file: in its last cluster, or, when that is full, at the
      start of a cluster still to be linked. */
  lemma EndPosition(g: Geometry, size: nat, n: nat)
    requires g.Ok() && JustLongEnough(g, size, n)
    ensures g.Bpc() > 0
    ensures var s, b := Div(Mod(size, g.Bpc()), g.bps), Mod(size, g.bps);
            s < g.spc && b < g.bps
            && size == if size > 0 && s == 0 && b == 0 then Mul(n, g.Bpc()) else Mul(n - 1, g.Bpc()) + Mul(s, g.bps) + b
  {
    hide Mul, Div, Mod;
    OffsetParts(g, size);
    DivMod(size, g.Bpc());
    var k := Div(size, g.Bpc());
    MulZero(g.Bpc());
    MulSucc(n - 1, g.Bpc());
    MulSucc(k, g.Bpc());
    if k < n - 1 {
      MulMono(k + 1, n - 1, g.Bpc());
    } else if n < k {
      MulMono(n + 1, k, g.Bpc());
      MulSucc(n, g.Bpc());
    }
  }

  /** Zeros whole sectors, linking clusters, while a sector or more is wanted. */
  method ZeroSectors(pt: Partition, position: FilePosition, remain0: nat, ghost ch0: seq<nat>, ghost p: nat,
        ghost size: nat)
    returns (ok: bool, pos: FilePosition, remain: nat, ghost ch: seq<nat>)
    requires pt.Valid() && WellFormed(pt.g, pt.cache.view, ch0) && ch0 != [] && At(pt.g, ch0, position, |ch0| - 1, p)
    requires pt.firstFree <= pt.g.lastCluster && position.byte == 0
    modifies pt, pt.cache.Repr
    ensures pt.Valid() && Clusters(pt.g, ch0) && Clusters(pt.g, ch)
            && Grown(pt.g, old(pt.cache.view), ch0, pt.cache.view, ch)
    ensures ch != [] && remain <= remain0 && Needed(pt.g, ch0, ch, p + remain0)
    ensures Wrote(size, FileBytes(pt.g, old(pt.cache.view), ch0), FileBytes(pt.g, pt.cache.view, ch), p,
            Zeros(remain0 - remain))
    ensures ok ==> pt.firstFree <= pt.g.lastCluster && remain < pt.g.bps
                   && At(pt.g, ch, pos, |ch| - 1, p + remain0 - remain) && pos.byte == 0
    ensures !ok ==> NoneFree(pt.T()) && Mul(|ch|, pt.g.Bpc()) == p + remain0 - remain < p + remain0
    ensures ok ==> Allocated(old(pt.T()), old(pt.Hint()), ch0, pt.T(), pt.Hint(), ch)
    ensures old(pt.Counted()) ==> pt.Counted()
  {
    hide Cache.Valid, Mul, FileBytes, Wrote, Table, Closed, IsChain, NoneFree, FreeCount, Grown, Allocated;
    ok, pos, remain, ch := true, position, remain0, ch0;
    ghost var v0 := pt.cache.view;
    ChainClusters(pt.g, v0, ch0);
    GrownNot(pt.g, v0, ch0);
    AllocatedNot(pt.T(), pt.Hint(), ch0);
    PositionInFile(pt.g, ch0, pos, |ch0| - 1, p);
    WroteNothing(size, FileBytes(pt.g, v0, ch0), p, []);
    while remain >= pt.g.bps
      invariant pt.Valid() && pt.firstFree <= pt.g.lastCluster && remain <= remain0 && ch != []
                && Needed(pt.g, ch0, ch, p + remain0)
      invariant WellFormed(pt.g, pt.cache.view, ch) && Clusters(pt.g, ch) && Grown(pt.g, v0, ch0, pt.cache.view, ch)
      invariant Wrote(size, FileBytes(pt.g, v0, ch0), FileBytes(pt.g, pt.cache.view, ch), p, Zeros(remain0 - remain))
      invariant At(pt.g, ch, pos, |ch| - 1, p + remain0 - remain) && pos.byte == 0
      invariant Allocated(old(pt.T()), old(pt.Hint()), ch0, pt.T(), pt.Hint(), ch)
      invariant old(pt.Counted()) ==> pt.Counted()
    {
      ghost var v1, ch1, t1, h1 := pt.cache.view, ch, pt.T(), pt.Hint();
      ok, pos, ch := ZeroSector(pt, pos, ch, p + remain0 - remain, size);
      GrownMoreClusters(pt.g, v0, ch0, v1, ch1, pt.cache.view, ch);
      if !ok {
        WroteMore(size, FileBytes(pt.g, v0, ch0), FileBytes(pt.g, v1, ch1), FileBytes(pt.g, pt.cache.view, ch), p,
            Zeros(remain0 - remain), Zeros(0));
        ZerosMore(remain0 - remain, 0);
        return;
      }
      WroteMore(size, FileBytes(pt.g, v0, ch0), FileBytes(pt.g, v1, ch1), FileBytes(pt.g, pt.cache.view, ch), p,
          Zeros(remain0 - remain), Zeros(pt.g.bps));
      ZerosMore(remain0 - remain, pt.g.bps);
      AllocatedMore(old(pt.T()), old(pt.Hint()), ch0, t1, h1, ch1, pt.T(), pt.Hint(), ch);
      remain := remain - pt.g.bps;
    }
  }

  /** One round of that loop. */
  method ZeroSector(pt: Partition, position: FilePosition, ghost ch0: seq<nat>, ghost p: nat, ghost size: nat)
    returns (ok: bool, pos: FilePosition, ghost ch: seq<nat>)
    requires pt.Valid() && WellFormed(pt.g, pt.cache.view, ch0) && ch0 != [] && At(pt.g, ch0, position, |ch0| - 1, p)
    requires pt.firstFree <= pt.g.lastCluster && position.byte == 0
    modifies pt, pt.cache.Repr
    ensures pt.Valid() && Clusters(pt.g, ch0) && Clusters(pt.g, ch)
            && Grown(pt.g, old(pt.cache.view), ch0, pt.cache.view, ch) && ch != []
    ensures Wrote(size, FileBytes(pt.g, old(pt.cache.view), ch0), FileBytes(pt.g, pt.cache.view, ch), p,
            Zeros(if ok then pt.g.bps else 0))
    ensures ok ==> pt.firstFree <= pt.g.lastCluster && At(pt.g, ch, pos, |ch| - 1, p + pt.g.bps) && pos.byte == 0
    ensures Needed(pt.g, ch0, ch, p + pt.g.bps)
    ensures !ok ==> NoneFree(pt.T()) && Mul(|ch|, pt.g.Bpc()) == p
    ensures ok ==> Allocated(old(pt.T()), old(pt.Hint()), ch0, pt.T(), pt.Hint(), ch)
    ensures old(pt.Counted()) ==> pt.Counted()
  {
    hide Cache.Valid, Mul, FileBytes, Wrote, Table, Closed, IsChain, NoneFree, FreeCount, Untouched, FixedKept,
        Allocated;
    ghost var v0 := pt.cache.view;
    pos, ok, ch := position, true, ch0;
    ChainClusters(pt.g, v0, ch0);
    GrownNot(pt.g, v0, ch0);
    AllocatedNot(pt.T(), pt.Hint(), ch0);
    PositionInFile(pt.g, ch0, pos, |ch0| - 1, p);
    WroteNothing(size, FileBytes(pt.g, v0, ch0), p, []);
    EndOfCluster(pt.g, |ch0| - 1);
    if pos.sector >= pt.g.spc {
      var next := LinkTail(pt, pos.cluster, ch);
      if !pt.g.IsValidCluster(next) {
        assert Zeros(0) == [];
        return false, pos, ch;
      }
      ch := ch + [next];
      FileBytesOfAppended(pt.g, pt.cache.view, ch0, next);
      WroteNothing(size, FileBytes(pt.g, v0, ch0), p, ClusterBytes(pt.g, pt.cache.view, next));
      pos := FilePosition(next, 0, pos.byte);
    }
    ghost var v1 := pt.cache.view;
    MulOne(pt.g.bps);
    StoreWhole(pt, pos, 1, Zeros(pt.g.bps), ch, |ch| - 1, p, size);
    GrownMore(pt.g, v0, ch0, v1, ch, pt.cache.view, ch);
    WroteMore(size, FileBytes(pt.g, v0, ch0), FileBytes(pt.g, v1, ch), FileBytes(pt.g, pt.cache.view, ch), p, [],
        Zeros(pt.g.bps));
    assert [] + Zeros(pt.g.bps) == Zeros(pt.g.bps);
    MulSucc(pos.sector, pt.g.bps);
    pos := pos.(sector := pos.sector + 1);
  }

  /** Zeros `remain` bytes from the end of the file on. */
  method ZeroFrom(pt: Partition, position: FilePosition, remain0: nat, ghost ch0: seq<nat>, ghost p: nat,
        ghost size: nat)
    returns (ok: bool, pos: FilePosition, ghost ch: seq<nat>, ghost k: nat, ghost done: nat)
    requires pt.Valid() && WellFormed(pt.g, pt.cache.view, ch0) && ch0 != [] && At(pt.g, ch0, position, |ch0| - 1, p)
    requires pt.firstFree <= pt.g.lastCluster && position.sector < pt.g.spc
    modifies pt, pt.cache.Repr
    ensures pt.Valid() && Clusters(pt.g, ch0) && Clusters(pt.g, ch)
            && Grown(pt.g, old(pt.cache.view), ch0, pt.cache.view, ch)
    ensures done <= remain0 && (ok ==> done == remain0) && Needed(pt.g, ch0, ch, p + remain0)
    ensures Wrote(size, FileBytes(pt.g, old(pt.cache.view), ch0), FileBytes(pt.g, pt.cache.view, ch), p, Zeros(done))
    ensures ok ==>
              pt.firstFree <= pt.g.lastCluster && At(pt.g, ch, pos, k, p + remain0)
                && (pos.sector == pt.g.spc ==> pos.byte == 0)
    ensures !ok ==> NoneFree(pt.T()) && Mul(|ch|, pt.g.Bpc()) == p + done < p + remain0
    ensures ok ==> Allocated(old(pt.T()), old(pt.Hint()), ch0, pt.T(), pt.Hint(), ch)
    ensures old(pt.Counted()) ==> pt.Counted()
  {
    hide Cache.Valid, Mul, FileBytes, Wrote, Table, Closed, IsChain, NoneFree, FreeCount, Untouched, FixedKept,
        Allocated;
    ghost var v0 := pt.cache.view;
    pos, ok, ch, k, done := position, true, ch0, |ch0| - 1, 0;
    ChainClusters(pt.g, v0, ch0);
    AllocatedNot(pt.T(), pt.Hint(), ch0);
    if remain0 + pos.byte < pt.g.bps {
      StorePart(pt, pos, Zeros(remain0), false, ch, k, p, size);
      done := remain0;
      pos := pos.(byte := pos.byte + remain0);
      return;
    }
    GrownNot(pt.g, v0, ch0);
    PositionInFile(pt.g, ch0, pos, k, p);
    WroteNothing(size, FileBytes(pt.g, v0, ch0), p, []);
    assert Zeros(0) == [];
    var remain: nat := remain0;
    if pos.byte > 0 {
      StorePart(pt, pos, Zeros(pt.g.bps - pos.byte), false, ch, k, p, size);
      MulSucc(pos.sector, pt.g.bps);
      done := pt.g.bps - pos.byte;
      remain := remain - (pt.g.bps - pos.byte);
      pos := pos.(byte := 0, sector := pos.sector + 1);
    }
    ok, pos, ch, k, done := ZeroSectorsAndRest(pt, pos, remain, ch, p, size, done, v0, ch0);
  }

  method ZeroSectorsAndRest(pt: Partition, position: FilePosition, remain0: nat, ghost ch1: seq<nat>, ghost p: nat,
        ghost size: nat,
                            ghost done0: nat, ghost v0: seq<byte>, ghost ch0: seq<nat>)
    returns (ok: bool, pos: FilePosition, ghost ch: seq<nat>, ghost k: nat, ghost done: nat)
    requires pt.Valid() && WellFormed(pt.g, pt.cache.view, ch1) && ch1 != []
             && At(pt.g, ch1, position, |ch1| - 1, p + done0)
    requires pt.firstFree <= pt.g.lastCluster && position.byte == 0
    requires Clusters(pt.g, ch1) && Clusters(pt.g, ch0) && Grown(pt.g, v0, ch0, pt.cache.view, ch1)
    requires Wrote(size, FileBytes(pt.g, v0, ch0), FileBytes(pt.g, pt.cache.view, ch1), p, Zeros(done0))
    requires Needed(pt.g, ch0, ch1, p + done0 + remain0)
    modifies pt, pt.cache.Repr
    ensures pt.Valid() && Clusters(pt.g, ch) && Grown(pt.g, v0, ch0, pt.cache.view, ch)
    ensures done <= done0 + remain0 && (ok ==> done == done0 + remain0) && Needed(pt.g, ch0, ch, p + done0 + remain0)
    ensures Wrote(size, FileBytes(pt.g, v0, ch0), FileBytes(pt.g, pt.cache.view, ch), p, Zeros(done))
    ensures ok ==>
              pt.firstFree <= pt.g.lastCluster && At(pt.g, ch, pos, k, p + done0 + remain0)
                && (pos.sector == pt.g.spc ==> pos.byte == 0)
    ensures !ok ==> NoneFree(pt.T()) && Mul(|ch|, pt.g.Bpc()) == p + done < p + done0 + remain0
    ensures ok ==> Allocated(old(pt.T()), old(pt.Hint()), ch1, pt.T(), pt.Hint(), ch)
    ensures old(pt.Counted()) ==> pt.Counted()
  {
    hide Cache.Valid, Mul, FileBytes, Wrote, Table, Closed, IsChain, NoneFree, FreeCount, Untouched, FixedKept,
        Allocated;
    ghost var v1 := pt.cache.view;
    var remain;
    ok, pos, remain, ch := ZeroSectors(pt, position, remain0, ch1, p + done0, size);
    ghost var v2, ch2, t2, h2 := pt.cache.view, ch, pt.T(), pt.Hint();
    done := done0 + remain0 - remain;
    k := |ch| - 1;
    GrownMore(pt.g, v0, ch0, v1, ch1, v2, ch2);
    WroteMore(size, FileBytes(pt.g, v0, ch0), FileBytes(pt.g, v1, ch1), FileBytes(pt.g, v2, ch2), p, Zeros(done0),
        Zeros(remain0 - remain));
    ZerosMore(done0, remain0 - remain);
    if !ok {
      return;
    }
    ok, pos, ch, k := CheckNext(pt, pos, remain, true, ch, k, p + done, size);
    ghost var v3 := pt.cache.view;
    if ok {
      AllocatedMore(old(pt.T()), old(pt.Hint()), ch1, t2, h2, ch2, pt.T(), pt.Hint(), ch);
    }
    GrownMore(pt.g, v0, ch0, v2, ch2, v3, ch);
    WroteMore(size, FileBytes(pt.g, v0, ch0), FileBytes(pt.g, v2, ch2), FileBytes(pt.g, v3, ch), p, Zeros(done), []);
    assert Zeros(done) + [] == Zeros(done);
    if ok && remain > 0 {
      StorePart(pt, pos, Zeros(remain), false, ch, k, p + done, size);
      GrownMore(pt.g, v0, ch0, v3, ch, pt.cache.view, ch);
      WroteMore(size, FileBytes(pt.g, v0, ch0), FileBytes(pt.g, v3, ch), FileBytes(pt.g, pt.cache.view, ch), p,
          Zeros(done), Zeros(remain));
      ZerosMore(done, remain);
      done := done + remain;
      pos := pos.(byte := remain);
    }
  }

  /** The position of the end of a file that is to grow; a full last cluster gets a next one. */
  method EndToGrow(pt: Partition, startCluster: nat, filesize: nat, remain: nat, ghost ch0: seq<nat>)
    returns (ok: bool, pos: FilePosition, ghost ch: seq<nat>)
    requires pt.Valid() && WellFormed(pt.g, pt.cache.view, ch0) && ch0 != [] && ch0[0] == startCluster
    requires pt.firstFree <= pt.g.lastCluster && 0 < remain && JustLongEnough(pt.g, filesize, |ch0|)
    modifies pt, pt.cache.Repr
    ensures pt.Valid() && Clusters(pt.g, ch0) && Clusters(pt.g, ch)
            && Grown(pt.g, old(pt.cache.view), ch0, pt.cache.view, ch)
    ensures Wrote(filesize, FileBytes(pt.g, old(pt.cache.view), ch0), FileBytes(pt.g, pt.cache.view, ch), filesize, [])
    ensures Needed(pt.g, ch0, ch, filesize + remain) && ch != []
    ensures ok ==> pt.firstFree <= pt.g.lastCluster && pos.sector < pt.g.spc && At(pt.g, ch, pos, |ch| - 1, filesize)
    ensures ok ==> Allocated(old(pt.T()), old(pt.Hint()), ch0, pt.T(), pt.Hint(), ch)
    ensures !ok ==> NoneFree(pt.T()) && Mul(|ch|, pt.g.Bpc()) == filesize
    ensures old(pt.Counted()) ==> pt.Counted()
  {
    hide Cache.Valid, Mul, FileBytes, Table, Closed, IsChain, NoneFree, FreeCount, Untouched, FixedKept, Div, Mod,
        Wrote, Allocated;
    ghost var v0 := pt.cache.view;
    ChainClusters(pt.g, v0, ch0);
    ghost var raw0 := FileBytes(pt.g, v0, ch0);
    GrownNot(pt.g, v0, ch0);
    AllocatedNot(pt.T(), pt.Hint(), ch0);
    EndPosition(pt.g, filesize, |ch0|);
    MulZero(pt.g.bps);
    MulSucc(|ch0| - 1, pt.g.Bpc());
    WroteNothing(filesize, raw0, filesize, []);
    var byte := Mod(filesize, pt.g.bps);
    var sector := Div(Mod(filesize, pt.g.Bpc()), pt.g.bps);
    var cluster := pt.LastCluster(startCluster, ch0);
    pos := FilePosition(cluster, sector, byte);
    ok, ch := true, ch0;
    if remain > 0 && filesize > 0 && pos.sector == 0 && pos.byte == 0 {
      var next := LinkTail(pt, pos.cluster, ch);
      if !pt.g.IsValidCluster(next) {
        ok := false;
        return;
      }
      ch := ch + [next];
      FileBytesOfAppended(pt.g, pt.cache.view, ch0, next);
      WroteNothing(filesize, raw0, filesize, ClusterBytes(pt.g, pt.cache.view, next));
      pos := FilePosition(next, 0, 0);
    }
  }

  /** Grows a file of `filesize` bytes to `target` bytes; the new ones are zeros. Fails exactly when the
      free clusters do not suffice; those are zeros too then, up to the end of the last cluster. */
  method Extend(pt: Partition, startCluster: nat, filesize: nat, target: nat, ghost ch0: seq<nat>)
    returns (ok: bool, pos: FilePosition, ghost ch: seq<nat>, ghost k: nat)
    requires pt.Valid() && WellFormed(pt.g, pt.cache.view, ch0) && ch0 != [] && ch0[0] == startCluster
    requires pt.firstFree <= pt.g.lastCluster && filesize < target && JustLongEnough(pt.g, filesize, |ch0|)
    modifies pt, pt.cache.Repr
    ensures pt.Valid() && Clusters(pt.g, ch0) && Clusters(pt.g, ch)
            && Grown(pt.g, old(pt.cache.view), ch0, pt.cache.view, ch)
    ensures filesize <= |FileBytes(pt.g, pt.cache.view, ch)|
    ensures FileBytes(pt.g, pt.cache.view, ch)[..filesize] == FileBytes(pt.g, old(pt.cache.view), ch0)[..filesize]
    ensures ok ==>
              pt.firstFree <= pt.g.lastCluster && At(pt.g, ch, pos, k, target)
                && (pos.sector == pt.g.spc ==> pos.byte == 0)
    ensures ok ==>
              Wrote(filesize, FileBytes(pt.g, old(pt.cache.view), ch0), FileBytes(pt.g, pt.cache.view, ch), filesize,
                Zeros(target - filesize))
    ensures ok ==> Allocated(old(pt.T()), old(pt.Hint()), ch0, pt.T(), pt.Hint(), ch)
    ensures Needed(pt.g, ch0, ch, target)
    ensures !ok ==> NoneFree(pt.T()) && filesize <= Mul(|ch|, pt.g.Bpc()) < target
    ensures !ok ==> BlankFrom(FileBytes(pt.g, pt.cache.view, ch), filesize)
    ensures old(pt.Counted()) ==> pt.Counted()
  {
    hide Cache.Valid, Mul, FileBytes, Table, Closed, IsChain, NoneFree, FreeCount, Untouched, FixedKept, Wrote,
        Allocated, BlankFrom;
    ghost var v0 := pt.cache.view;
    ChainClusters(pt.g, v0, ch0);
    ghost var raw0 := FileBytes(pt.g, v0, ch0);
    var remain := target - filesize;
    ok, pos, ch := EndToGrow(pt, startCluster, filesize, remain, ch0);
    ghost var v1, ch1, t1, h1 := pt.cache.view, ch, pt.T(), pt.Hint();
    k := |ch| - 1;
    if !ok {
      WroteAll(filesize, raw0, FileBytes(pt.g, v1, ch1), filesize, 0);
      WrotePrefix(filesize, raw0, FileBytes(pt.g, v1, ch1), filesize, []);
      return;
    }
    ghost var done;
    ok, pos, ch, k, done := ZeroFrom(pt, pos, remain, ch, filesize, filesize);
    GrownMore(pt.g, v0, ch0, v1, ch1, pt.cache.view, ch);
    WroteMore(filesize, raw0, FileBytes(pt.g, v1, ch1), FileBytes(pt.g, pt.cache.view, ch), filesize, [], Zeros(done));
    assert [] + Zeros(done) == Zeros(done);
    if ok {
      AllocatedMore(old(pt.T()), old(pt.Hint()), ch0, t1, h1, ch1, pt.T(), pt.Hint(), ch);
    } else {
      WroteAll(filesize, raw0, FileBytes(pt.g, pt.cache.view, ch), filesize, done);
    }
    WrotePrefix(filesize, raw0, FileBytes(pt.g, pt.cache.view, ch), filesize, Zeros(done));
  }

  /** Everything from `p` on is zero. */
  ghost predicate BlankFrom(s: seq<byte>, p: nat) {
    p <= |s| && s == s[..p] + Zeros(|s| - p)
  }

  lemma BlankIs(s: seq<byte>, p: nat)
    ensures BlankFrom(s, p) <==> p <= |s| && forall i :: p <= i < |s| ==> s[i] == 0
  {
    if p <= |s| && forall i :: p <= i < |s| ==> s[i] == 0 {
      assert s == s[..p] + s[p..] && s[p..] == Zeros(|s| - p);
    }
    if BlankFrom(s, p) {
      forall i | p <= i < |s|
        ensures s[i] == 0
      {
        assert s[i] == (s[..p] + Zeros(|s| - p))[i];
      }
    }
  }

  /** Zeros written up to the end of the clusters are all there is behind `p`. */
  lemma WroteAll(size: nat, r0: seq<byte>, r1: seq<byte>, p: nat, n: nat)
    requires Wrote(size, r0, r1, p, Zeros(n)) && p + n == |r1|
    ensures BlankFrom(r1, p)
  {
  }

  lemma WrotePrefix(size: nat, r0: seq<byte>, r1: seq<byte>, p: nat, d: seq<byte>)
    requires Wrote(size, r0, r1, p, d)
    ensures p <= |r0| <= |r1| && r1[..p] == r0[..p]
  {
  }
}
