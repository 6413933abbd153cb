/** Stepping through the slots of a directory, reading and writing them, and extending the directory
    (src/fat/directory.c, src/fat/file_allocation_table.c). */
module DirSteps {
  import opened Bytes
  import opened Arith
  import opened Volume
  import opened FatCodec
  import opened Chains
  import opened Fat
  import opened FileData
  import opened FileWrite
  import opened Growth
  import opened DirEntry
  import opened DirArea
  import opened SectorCache

  ghost predicate DirOk(pt: Partition, dir: Dir)
    reads pt, pt.cache, pt.cache.Repr
  {
    pt.Valid() && IsDir(pt.g, pt.cache.view, dir)
  }

  ghost function SlotsOf(pt: Partition, dir: Dir): seq<Entry>
    requires DirOk(pt, dir)
    reads pt, pt.cache, pt.cache.Repr
  {
    DirSlots(pt.g, pt.cache.view, dir)
  }

  method ReadSlot(pt: Partition, pos: EntryPosition, ghost dir: Dir, ghost i: nat) returns (e: Entry)
    requires DirOk(pt, dir) && SlotAt(pt.g, dir, pos, i)
    modifies pt.cache.Repr
    ensures DirOk(pt, dir) && pt.cache.view == old(pt.cache.view)
    ensures i < |SlotsOf(pt, dir)| && e == SlotsOf(pt, dir)[i]
  {
    hide Cache.Valid, Mul, Sub, Table, SlotAt, DirSlots, IsDir;
    SlotPlace(pt.g, pt.cache.view, dir, pos, i);
    SlotOnVolume(pt.g, pos);
    SlotRead(pt.g, pt.cache.view, dir, pos, i);
    var ok, d := pt.cache.ReadPartialSector(pt.g.ClusterToSector(pos.cluster) + pos.sector,
        pos.offset * DIR_ENTRY_DATA_SIZE, DIR_ENTRY_DATA_SIZE);
    e := d;
  }

  method WriteSlot(pt: Partition, pos: EntryPosition, e: Entry, ghost dir: Dir, ghost i: nat)
    requires DirOk(pt, dir) && SlotAt(pt.g, dir, pos, i)
    modifies pt.cache.Repr
    ensures DirOk(pt, dir) && DirGrown(pt.g, old(pt.cache.view), dir, pt.cache.view, dir)
    ensures i < |old(SlotsOf(pt, dir))| && SlotsOf(pt, dir) == old(SlotsOf(pt, dir))[i := e]
    ensures pt.T() == old(pt.T())
  {
    hide Cache.Valid, Mul, Splice, Table, SlotAt, DirSlots, IsDir;
    SlotPlace(pt.g, pt.cache.view, dir, pos, i);
    SlotOnVolume(pt.g, pos);
    SlotStore(pt.g, pt.cache.view, pos, e, []);
    SlotWritten(pt.g, pt.cache.view, dir, pos, i, e);
    GrownDirs(pt.g, pt.cache.view, dir, Splice(pt.cache.view, EntryAddress(pt.g, pos), e), dir);
    var ok := pt.cache.WritePartialSector(e, pt.g.ClusterToSector(pos.cluster) + pos.sector,
        pos.offset * DIR_ENTRY_DATA_SIZE);
  }

  lemma GrownDirs(g: Geometry, v0: seq<byte>, d0: Dir, v1: seq<byte>, d1: Dir)
    requires DirGrown(g, v0, d0, v1, d1)
    ensures IsDir(g, v0, d0) && IsDir(g, v1, d1) && IsVolume(g, v1) && (d0.Fixed? <==> d1.Fixed?)
  {
  }

  /** linkFreeClusterCleared at the end of a directory: the new cluster is empty. */
  method LinkFreeClusterCleared(pt: Partition, cluster: nat, ghost ch: seq<nat>) returns (r: nat)
    requires pt.Valid() && WellFormed(pt.g, pt.cache.view, ch) && ch != [] && cluster == ch[|ch| - 1]
    requires pt.firstFree <= pt.g.lastCluster
    modifies pt, pt.cache.Repr
    ensures pt.Valid() && Clusters(pt.g, ch)
    ensures pt.g.IsValidCluster(r) ==>
              pt.firstFree <= pt.g.lastCluster && Clusters(pt.g, ch + [r])
              && Grown(pt.g, old(pt.cache.view), ch, pt.cache.view, ch + [r])
              && FileBytes(pt.g, pt.cache.view, ch + [r]) == FileBytes(pt.g, old(pt.cache.view), ch) + Zeros(pt.g.Bpc())
    ensures !pt.g.IsValidCluster(r) ==>
              r == CLUSTER_ERROR && pt.cache.view == old(pt.cache.view) && NoneFree(old(pt.T()))
    ensures old(pt.Counted()) ==> pt.Counted()
  {
    hide Cache.Valid, Mul, FileBytes, Table, Closed, IsChain, NoneFree, FreeCount, Grown;
    r := LinkTail(pt, cluster, ch);
    if r == CLUSTER_FREE || r == CLUSTER_ERROR {
      return CLUSTER_ERROR;
    }
    ClearCluster(pt, r, old(pt.cache.view), ch);
  }

  /** Zeros a linked cluster, sector by sector. */
  method ClearCluster(pt: Partition, r: nat, ghost v0: seq<byte>, ghost ch: seq<nat>)
    requires pt.Valid() && Clusters(pt.g, ch) && pt.g.IsValidCluster(r) && Clusters(pt.g, ch + [r])
             && Grown(pt.g, v0, ch, pt.cache.view, ch + [r])
    requires IsVolume(pt.g, v0) && FileBytes(pt.g, pt.cache.view, ch) == FileBytes(pt.g, v0, ch)
    modifies pt.cache.Repr
    ensures pt.Valid() && Grown(pt.g, v0, ch, pt.cache.view, ch + [r]) && pt.T() == old(pt.T())
    ensures FileBytes(pt.g, pt.cache.view, ch + [r]) == FileBytes(pt.g, v0, ch) + Zeros(pt.g.Bpc())
  {
    hide Cache.Valid, Mul, FileBytes, Table, Closed, IsChain, FreeCount, Grown, Wrote;
    ghost var ch1, base, v1 := ch + [r], Mul(|ch|, pt.g.Bpc()), pt.cache.view;
    FileBytesOfAppended(pt.g, v1, ch, r);
    ghost var raw1 := FileBytes(pt.g, v1, ch1);
    MulZero(pt.g.bps);
    WroteNothing(|raw1|, raw1, base, []);
    assert Zeros(0) == [];
    for i := 0 to pt.g.spc
      invariant pt.Valid() && Grown(pt.g, v0, ch, pt.cache.view, ch1) && pt.T() == old(pt.T())
      invariant Wrote(|raw1|, raw1, FileBytes(pt.g, pt.cache.view, ch1), base, Zeros(Mul(i, pt.g.bps)))
    {
      ClearSector(pt, r, i, v0, ch, raw1, base);
    }
    Cleared(raw1, FileBytes(pt.g, pt.cache.view, ch1), base, pt.g.Bpc());
  }

  method ClearSector(pt: Partition, r: nat, i: nat, ghost v0: seq<byte>, ghost ch: seq<nat>, ghost raw1: seq<byte>,
        ghost base: nat)
    requires pt.Valid() && Clusters(pt.g, ch + [r]) && Grown(pt.g, v0, ch, pt.cache.view, ch + [r]) && i < pt.g.spc
    requires base == Mul(|ch|, pt.g.Bpc())
    requires Wrote(|raw1|, raw1, FileBytes(pt.g, pt.cache.view, ch + [r]), base, Zeros(Mul(i, pt.g.bps)))
    modifies pt.cache.Repr
    ensures pt.Valid() && Grown(pt.g, v0, ch, pt.cache.view, ch + [r]) && pt.T() == old(pt.T())
    ensures Wrote(|raw1|, raw1, FileBytes(pt.g, pt.cache.view, ch + [r]), base, Zeros(Mul(i + 1, pt.g.bps)))
  {
    hide Cache.Valid, Mul, FileBytes, Table, Closed, IsChain, FreeCount, Untouched, RootArea, Wrote;
    ghost var v1, ch1, pos := pt.cache.view, ch + [r], FilePosition(r, i, 0);
    MulOne(pt.g.bps);
    MulSucc(i, pt.g.bps);
    ghost var p := base + Mul(i, pt.g.bps);
    assert At(pt.g, ch1, pos, |ch|, p);
    StoreWhole(pt, FilePosition(r, i, 0), 1, Zeros(pt.g.bps), ch1, |ch|, p, |raw1|);
    GrownMore(pt.g, v0, ch, v1, ch1, pt.cache.view, ch1);
    WroteMore(|raw1|, raw1, FileBytes(pt.g, v1, ch1), FileBytes(pt.g, pt.cache.view, ch1), base,
        Zeros(Mul(i, pt.g.bps)), Zeros(pt.g.bps));
    assert Zeros(Mul(i, pt.g.bps)) + Zeros(pt.g.bps) == Zeros(Mul(i + 1, pt.g.bps));
  }

  lemma Cleared(r0: seq<byte>, r1: seq<byte>, base: nat, n: nat)
    requires Wrote(|r0|, r0, r1, base, Zeros(n)) && |r0| == |r1| == base + n
    ensures r1 == r0[..base] + Zeros(n)
  {
    assert r1 == r1[..base] + Sub(r1, base, n);
  }

  /** The position of slot `i`, or the one before the first slot. */
  ghost predicate Reached(g: Geometry, dir: Dir, pos: EntryPosition, i: int) {
    if i == -1 then
      pos.sector == 0 && pos.offset == -1
          && pos.cluster == (if dir.Fixed? || dir.ch == [] then CLUSTER_ROOT else dir.ch[0])
    else i >= 0 && SlotAt(g, dir, pos, i)
  }

  lemma FirstSlot(g: Geometry, v: seq<byte>, dir: Dir, pos: EntryPosition)
    requires IsDir(g, v, dir) && Reached(g, dir, pos, -1)
    ensures SlotAt(g, dir, pos.(offset := 0), 0) && PerSector(g) > 0
  {
    hide Table;
    assert dir.Chained? ==> Mul(0, g.spc) == 0;
    assert SectorAt(g, dir, pos.(offset := 0), 0);
    assert Mul(0, PerSector(g)) == 0;
  }

  lemma StepInSector(g: Geometry, dir: Dir, pos: EntryPosition, i: nat)
    requires g.Ok() && SlotAt(g, dir, pos, i) && pos.offset + 1 < PerSector(g)
    ensures SlotAt(g, dir, pos.(offset := pos.offset + 1), i + 1)
  {
    hide Mul;
    var t: nat :| SectorAt(g, dir, pos, t) && 0 <= pos.offset < PerSector(g) && i == Mul(t, PerSector(g)) + pos.offset;
    assert SectorAt(g, dir, pos.(offset := pos.offset + 1), t);
  }

  /** The step from the last slot of a sector to the next sector. */
  lemma StepSector(g: Geometry, dir: Dir, pos: EntryPosition, i: nat, next: EntryPosition)
    requires g.Ok() && SlotAt(g, dir, pos, i) && pos.offset + 1 == PerSector(g) && next.offset == 0
    requires forall t: nat :: SectorAt(g, dir, pos, t) ==> SectorAt(g, dir, next, t + 1)
    ensures SlotAt(g, dir, next, i + 1)
  {
    hide Mul, SectorAt;
    var t: nat :| SectorAt(g, dir, pos, t) && 0 <= pos.offset < PerSector(g) && i == Mul(t, PerSector(g)) + pos.offset;
    MulSucc(t, PerSector(g));
  }

  lemma LastSlot(g: Geometry, dir: Dir, pos: EntryPosition, i: nat)
    requires g.Ok() && SlotAt(g, dir, pos, i) && pos.offset + 1 == PerSector(g)
    requires forall t: nat :: SectorAt(g, dir, pos, t) ==> t + 1 == Sectors(g, dir)
    ensures i + 1 == SlotTotal(g, dir)
  {
    hide Mul, SectorAt;
    var t: nat :| SectorAt(g, dir, pos, t) && 0 <= pos.offset < PerSector(g) && i == Mul(t, PerSector(g)) + pos.offset;
    MulSucc(t, PerSector(g));
  }

  /** The `k`-th cluster of the chain is the only place of this cluster. */
  lemma SectorIn(g: Geometry, v: seq<byte>, ch: seq<nat>, pos: EntryPosition, t: nat) returns (k: nat)
    requires IsDir(g, v, Chained(ch)) && SectorAt(g, Chained(ch), pos, t)
    ensures k < |ch| && pos.cluster == ch[k] && pos.cluster != CLUSTER_ROOT && pos.sector < g.spc
            && t == Mul(k, g.spc) + pos.sector
    ensures forall u: nat :: SectorAt(g, Chained(ch), pos, u) ==> u == t
  {
    hide Mul, Table, IsChain;
    ChainClusters(g, v, ch);
    k :| k < |ch| && pos.cluster == ch[k] && pos.sector < g.spc && t == Mul(k, g.spc) + pos.sector;
    forall u: nat | SectorAt(g, Chained(ch), pos, u)
      ensures u == t
    {
      var j: nat :| j < |ch| && pos.cluster == ch[j] && pos.sector < g.spc && u == Mul(j, g.spc) + pos.sector;
    }
  }

  /** At the last slot of a cluster: on to the next cluster, which is linked if there is none and one may be. */
  method NextOfChain(pt: Partition, pos0: EntryPosition, extendDirectory: bool, ghost ch0: seq<nat>, ghost i: nat)
    returns (ok: bool, tempCluster: nat, ghost ch: seq<nat>)
    requires DirOk(pt, Chained(ch0)) && SlotAt(pt.g, Chained(ch0), pos0, i)
             && (extendDirectory ==> pt.firstFree <= pt.g.lastCluster)
    requires pos0.sector + 1 == pt.g.spc && pos0.offset + 1 == PerSector(pt.g)
    modifies pt, pt.cache.Repr
    ensures DirOk(pt, Chained(ch)) && DirGrown(pt.g, old(pt.cache.view), Chained(ch0), pt.cache.view, Chained(ch))
    ensures ch == ch0 ==> pt.cache.view == old(pt.cache.view)
    ensures i + 1 < |old(SlotsOf(pt, Chained(ch0)))| ==> ok && ch == ch0
    ensures ok ==>
              SlotAt(pt.g, Chained(ch), EntryPosition(tempCluster, 0, 0), i + 1)
                && (extendDirectory ==> pt.firstFree <= pt.g.lastCluster)
    ensures ok && ch != ch0 ==>
              extendDirectory && i + 1 == |old(SlotsOf(pt, Chained(ch0)))| < |SlotsOf(pt, Chained(ch))|
              && SlotsOf(pt, Chained(ch)) == old(SlotsOf(pt, Chained(ch0))) + Blank(|SlotsOf(pt, Chained(ch))| - i - 1)
    ensures !ok ==>
              ch == ch0 && i + 1 == |old(SlotsOf(pt, Chained(ch0)))| && (!extendDirectory || NoneFree(old(pt.T())))
    ensures !extendDirectory ==> pt.firstFree == old(pt.firstFree)
    ensures old(pt.Counted()) ==> pt.Counted()
  {
    hide Cache.Valid, Mul, Table, FileBytes, Closed, IsChain, NoneFree, FreeCount, Grown, SlotAt, SectorAt, DirSlots,
        NextOf, EntryAddr;
    ok, ch := true, ch0;
    ghost var v0, t := pt.cache.view, pt.T();
    ghost var n, k := ChainEnd(pt.g, v0, ch0, pos0, i);
    DirGrownNot(pt.g, v0, Chained(ch0));
    ChainClusters(pt.g, v0, ch0);
    LinkOut(t, ch0, k);
    tempCluster := pt.NextCluster(pos0.cluster);
    if tempCluster == CLUSTER_EOF {
      if !extendDirectory {
        return false, tempCluster, ch;
      }
      tempCluster := LinkFreeClusterCleared(pt, pos0.cluster, ch);
      if !pt.g.IsValidCluster(tempCluster) {
        return false, tempCluster, ch;
      }
      ch := ch + [tempCluster];
      SlotsAppended(pt.g, v0, ch0, pt.cache.view, tempCluster);
      GrownDirs(pt.g, v0, Chained(ch0), pt.cache.view, Chained(ch));
      NextInChain(pt.g, ch0, ch, k, pos0, i);
      SlotBound(pt.g, Chained(ch), EntryPosition(tempCluster, 0, 0), i + 1);
    } else {
      NextInChain(pt.g, ch0, ch, k, pos0, i);
    }
  }

  /** Which cluster of the chain the position is in, and whether slot `i` is the last of the directory. */
  lemma ChainEnd(g: Geometry, v: seq<byte>, ch: seq<nat>, pos: EntryPosition, i: nat) returns (t: nat, k: nat)
    requires IsDir(g, v, Chained(ch)) && SlotAt(g, Chained(ch), pos, i) && pos.sector + 1 == g.spc
             && pos.offset + 1 == PerSector(g)
    ensures k < |ch| && pos.cluster == ch[k] && t == Mul(k, g.spc) + pos.sector
            && i == Mul(t, PerSector(g)) + pos.offset
    ensures i + 1 == |DirSlots(g, v, Chained(ch))| <==> k + 1 == |ch|
    ensures i < |DirSlots(g, v, Chained(ch))|
  {
    hide Mul, Table, IsChain, SectorAt, Cut;
    t :| SectorAt(g, Chained(ch), pos, t) && 0 <= pos.offset < PerSector(g) && i == Mul(t, PerSector(g)) + pos.offset;
    SlotBound(g, Chained(ch), pos, i);
    k := SectorIn(g, v, ch, pos, t);
    MulSucc(k, g.spc);
    MulSucc(t, PerSector(g));
    assert i + 1 == Mul(Mul(k + 1, g.spc), PerSector(g));
    if k + 1 < |ch| {
      MulApart(k + 1, 1, |ch|, g.spc);
      MulOne(g.spc);
      MulApart(Mul(k + 1, g.spc), 1, Mul(|ch|, g.spc), PerSector(g));
      MulOne(PerSector(g));
    }
  }

  /** The first slot of the next cluster. */
  lemma NextInChain(g: Geometry, ch0: seq<nat>, ch: seq<nat>, k: nat, pos: EntryPosition, i: nat)
    requires g.Ok() && ch0 <= ch && k + 1 < |ch| && k < |ch0| && pos.sector + 1 == g.spc
             && pos.offset + 1 == PerSector(g)
    requires i == Mul(Mul(k, g.spc) + pos.sector, PerSector(g)) + pos.offset
    ensures SlotAt(g, Chained(ch), EntryPosition(ch[k + 1], 0, 0), i + 1)
  {
    hide Mul;
    var t, next := Mul(k, g.spc) + pos.sector, EntryPosition(ch[k + 1], 0, 0);
    MulSucc(k, g.spc);
    MulSucc(t, PerSector(g));
    assert SectorAt(g, Chained(ch), next, t + 1);
  }

  /** Goes one slot on. At the end of the directory it fails, or, if asked, links an empty cluster. */
  method Increment(pt: Partition, pos0: EntryPosition, extendDirectory: bool, ghost dir0: Dir, ghost i: int)
    returns (ok: bool, pos: EntryPosition, ghost dir: Dir)
    requires DirOk(pt, dir0) && Reached(pt.g, dir0, pos0, i) && (extendDirectory ==> pt.firstFree <= pt.g.lastCluster)
    modifies pt, pt.cache.Repr
    ensures DirOk(pt, dir) && DirGrown(pt.g, old(pt.cache.view), dir0, pt.cache.view, dir)
    ensures dir == dir0 ==> pt.cache.view == old(pt.cache.view)
    ensures i + 1 < |old(SlotsOf(pt, dir0))| ==> ok && dir == dir0
    ensures ok ==> SlotAt(pt.g, dir, pos, i + 1) && (extendDirectory ==> pt.firstFree <= pt.g.lastCluster)
    ensures ok && dir != dir0 ==>
              extendDirectory && i + 1 == |old(SlotsOf(pt, dir0))| < |SlotsOf(pt, dir)|
              && SlotsOf(pt, dir) == old(SlotsOf(pt, dir0)) + Blank(|SlotsOf(pt, dir)| - i - 1)
    ensures !ok ==>
              pos == pos0 && dir == dir0 && i + 1 == |old(SlotsOf(pt, dir0))|
                && (!extendDirectory || dir.Fixed? || NoneFree(old(pt.T())))
    ensures !extendDirectory ==> pt.firstFree == old(pt.firstFree)
    ensures old(pt.Counted()) ==> pt.Counted()
  {
    hide Cache.Valid, Mul, Table, FileBytes, Closed, IsChain, NoneFree, FreeCount, SlotAt, SectorAt, DirSlots, DirGrown;
    ok, pos, dir := true, pos0.(offset := pos0.offset + 1), dir0;
    DirGrownNot(pt.g, pt.cache.view, dir0);
    NextPlace(pt.g, pt.cache.view, dir0, pos0, i);
    if pos.offset == pt.g.bps / DIR_ENTRY_DATA_SIZE {
      pos := pos.(offset := 0, sector := pos.sector + 1);
      if pos.sector == pt.g.spc && pos.cluster != CLUSTER_ROOT {
        var tempCluster;
        ghost var ch;
        ok, tempCluster, ch := NextOfChain(pt, pos0, extendDirectory, dir0.ch, i);
        if !ok {
          return false, pos0, dir0;
        }
        pos := EntryPosition(tempCluster, 0, 0);
        dir := Chained(ch);
      } else if pos.cluster == CLUSTER_ROOT && pos.sector == pt.g.dataStart - pt.g.rootDirStart {
        return false, pos0, dir0;
      }
    }
  }

  /** Where the slot after slot `i` is. */
  lemma NextPlace(g: Geometry, v: seq<byte>, dir: Dir, pos: EntryPosition, i: int)
    requires IsDir(g, v, dir) && Reached(g, dir, pos, i)
    ensures pos.offset + 1 != PerSector(g) ==> SlotAt(g, dir, pos.(offset := pos.offset + 1), i + 1)
    ensures pos.offset + 1 == PerSector(g) ==> i >= 0 && SlotAt(g, dir, pos, i)
    ensures pos.cluster == CLUSTER_ROOT <==> dir.Fixed?
    ensures pos.offset + 1 == PerSector(g) && dir.Fixed? ==>
              if pos.sector + 1 == g.dataStart - g.rootDirStart then i + 1 == |DirSlots(g, v, dir)|
              else SlotAt(g, dir, EntryPosition(pos.cluster, pos.sector + 1, 0), i + 1)
    ensures pos.offset + 1 == PerSector(g) && dir.Chained? && pos.sector + 1 != g.spc ==>
              SlotAt(g, dir, EntryPosition(pos.cluster, pos.sector + 1, 0), i + 1)
  {
    hide Mul, Table, SlotAt, Cut;
    if i == -1 {
      FirstSlot(g, v, dir, pos);
      RootOrNot(g, v, dir);
    } else {
      SlotClusters(g, v, dir, pos, i);
      if pos.offset + 1 < PerSector(g) {
        StepInSector(g, dir, pos, i);
      } else {
        NextSector(g, v, dir, pos, i);
      }
    }
  }

  lemma RootOrNot(g: Geometry, v: seq<byte>, dir: Dir)
    requires IsDir(g, v, dir)
    ensures dir.Chained? ==> dir.ch != [] && dir.ch[0] != CLUSTER_ROOT
  {
    if dir.Chained? {
      ChainClusters(g, v, dir.ch);
    }
  }

  lemma SlotClusters(g: Geometry, v: seq<byte>, dir: Dir, pos: EntryPosition, i: nat)
    requires IsDir(g, v, dir) && SlotAt(g, dir, pos, i)
    ensures (pos.cluster == CLUSTER_ROOT <==> dir.Fixed?) && 0 <= pos.offset < PerSector(g)
  {
    hide Mul, Table;
    if dir.Chained? {
      ChainClusters(g, v, dir.ch);
    }
  }

  lemma NextSector(g: Geometry, v: seq<byte>, dir: Dir, pos: EntryPosition, i: nat)
    requires IsDir(g, v, dir) && SlotAt(g, dir, pos, i) && pos.offset + 1 == PerSector(g)
    ensures dir.Fixed? ==> if pos.sector + 1 == g.dataStart - g.rootDirStart then i + 1 == |DirSlots(g, v, dir)|
                           else SlotAt(g, dir, EntryPosition(pos.cluster, pos.sector + 1, 0), i + 1)
    ensures dir.Chained? && pos.sector + 1 != g.spc ==>
              SlotAt(g, dir, EntryPosition(pos.cluster, pos.sector + 1, 0), i + 1)
  {
    hide Mul, Table, Cut, SlotAt;
    var next := EntryPosition(pos.cluster, pos.sector + 1, 0);
    if dir.Chained? {
      if pos.sector + 1 != g.spc {
        forall t: nat | SectorAt(g, dir, pos, t)
          ensures SectorAt(g, dir, next, t + 1)
        {
          var k := SectorIn(g, v, dir.ch, pos, t);
        }
        StepSector(g, dir, pos, i, next);
      }
    } else if pos.sector + 1 == g.dataStart - g.rootDirStart {
      LastSlot(g, dir, pos, i);
    } else {
      StepSector(g, dir, pos, i, next);
    }
  }

  /** A slot stays where it is when the directory gets longer. */
  lemma SlotStays(g: Geometry, v0: seq<byte>, d0: Dir, v1: seq<byte>, d1: Dir, pos: EntryPosition, i: nat)
    requires DirGrown(g, v0, d0, v1, d1) && SlotAt(g, d0, pos, i)
    ensures SlotAt(g, d1, pos, i)
  {
    hide Mul, Table;
    if d0.Chained? {
      var t: nat :| SectorAt(g, d0, pos, t) && 0 <= pos.offset < PerSector(g) && i == Mul(t, PerSector(g)) + pos.offset;
      var k: nat :| k < |d0.ch| && pos.cluster == d0.ch[k] && pos.sector < g.spc && t == Mul(k, g.spc) + pos.sector;
      assert d1.ch[k] == pos.cluster;
      assert SectorAt(g, d1, pos, t);
    }
  }

  lemma SlotReached(g: Geometry, dir: Dir, pos: EntryPosition, i: nat)
    ensures SlotAt(g, dir, pos, i) ==> Reached(g, dir, pos, i)
  {
  }

  /** A position has one slot, and a slot one position. */
  lemma SlotUnique(g: Geometry, v: seq<byte>, dir: Dir, p: EntryPosition, q: EntryPosition, i: nat, j: nat)
    requires IsDir(g, v, dir) && SlotAt(g, dir, p, i) && SlotAt(g, dir, q, j)
    ensures p == q <==> i == j
  {
    hide Mul, SectorAt, Table;
    var t: nat :| SectorAt(g, dir, p, t) && 0 <= p.offset < PerSector(g) && i == Mul(t, PerSector(g)) + p.offset;
    var u: nat :| SectorAt(g, dir, q, u) && 0 <= q.offset < PerSector(g) && j == Mul(u, PerSector(g)) + q.offset;
    DivModUnique(t, PerSector(g), p.offset);
    DivModUnique(u, PerSector(g), q.offset);
    SectorUnique(g, v, dir, p, q, t, u);
  }

  lemma SectorUnique(g: Geometry, v: seq<byte>, dir: Dir, p: EntryPosition, q: EntryPosition, t: nat, u: nat)
    requires IsDir(g, v, dir) && SectorAt(g, dir, p, t) && SectorAt(g, dir, q, u)
    ensures t == u <==> p.cluster == q.cluster && p.sector == q.sector
  {
    hide Mul, Table, IsChain;
    if dir.Chained? {
      ChainClusters(g, v, dir.ch);
      var k: nat :| k < |dir.ch| && p.cluster == dir.ch[k] && p.sector < g.spc && t == Mul(k, g.spc) + p.sector;
      var l: nat :| l < |dir.ch| && q.cluster == dir.ch[l] && q.sector < g.spc && u == Mul(l, g.spc) + q.sector;
      DivModUnique(k, g.spc, p.sector);
      DivModUnique(l, g.spc, q.sector);
    }
  }
}
