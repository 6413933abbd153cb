/** The slots of a directory on a volume: those of the fixed root directory, or of a chain of clusters. */
module DirArea {
  import opened Bytes
  import opened Arith
  import opened Volume
  import opened FatCodec
  import opened Chains
  import opened FileData
  import opened Growth
  import opened DirEntry

  datatype Dir = Fixed | Chained(ch: seq<nat>)

  function PerSector(g: Geometry): nat {
    g.bps / DIR_ENTRY_DATA_SIZE
  }

  ghost predicate IsDir(g: Geometry, v: seq<byte>, dir: Dir) {
    match dir
    case Fixed => WellFormed(g, v, []) && g.rootDirStart < g.dataStart
    case Chained(ch) => WellFormed(g, v, ch) && ch != []
  }

  /** How many sectors a directory has. */
  function Sectors(g: Geometry, dir: Dir): nat {
    match dir
    case Fixed => if g.rootDirStart < g.dataStart then g.dataStart - g.rootDirStart else 0
    case Chained(ch) => Mul(|ch|, g.spc)
  }

  function SlotTotal(g: Geometry, dir: Dir): nat {
    Mul(Sectors(g, dir), PerSector(g))
  }

  /** The bytes of a directory. */
  ghost function Area(g: Geometry, v: seq<byte>, dir: Dir): (a: seq<byte>)
    requires IsDir(g, v, dir)
    ensures |a| == 32 * SlotTotal(g, dir)
  {
    AreaLength(g, v, dir);
    match dir
    case Fixed => RootArea(g, v)
    case Chained(ch) => FileBytes(g, v, ch)
  }

  lemma {:induction false} Scale(x: nat, e: nat)
    ensures Mul(x, 32 * e) == 32 * Mul(x, e)
  {
    if x > 0 {
      Scale(x - 1, e);
    }
  }

  lemma AreaLength(g: Geometry, v: seq<byte>, dir: Dir)
    requires IsDir(g, v, dir)
    ensures Mul(Sectors(g, dir), g.bps) == 32 * SlotTotal(g, dir)
    ensures dir.Fixed? ==> |RootArea(g, v)| == Mul(Sectors(g, dir), g.bps)
    ensures dir.Chained? ==> Clusters(g, dir.ch) && |FileBytes(g, v, dir.ch)| == Mul(Sectors(g, dir), g.bps)
  {
    hide Mul, Table;
    Scale(Sectors(g, dir), PerSector(g));
    assert g.bps == 32 * PerSector(g);
    match dir {
      case Fixed =>
        RootOnVolume(g);
        Distrib(g.rootDirStart, g.dataStart - g.rootDirStart, g.bps);
      case Chained(ch) =>
        ChainClusters(g, v, ch);
        MulAssoc(|ch|, g.spc, g.bps);
    }
  }

  /** The slots of a run of bytes. */
  function Cut(a: seq<byte>, n: nat): (slots: seq<Entry>)
    requires |a| == 32 * n
    ensures |slots| == n && forall i :: 0 <= i < n ==> slots[i] == Sub(a, 32 * i, 32)
  {
    if n == 0 then [] else Cut(a[..32 * (n - 1)], n - 1) + [Sub(a, 32 * (n - 1), 32)]
  }

  ghost function DirSlots(g: Geometry, v: seq<byte>, dir: Dir): (slots: seq<Entry>)
    requires IsDir(g, v, dir)
    ensures |slots| == SlotTotal(g, dir)
  {
    Cut(Area(g, v, dir), SlotTotal(g, dir))
  }

  /** The position is that of the `t`-th sector of the directory. */
  ghost predicate SectorAt(g: Geometry, dir: Dir, pos: EntryPosition, t: nat) {
    match dir
    case Fixed => pos.cluster == CLUSTER_ROOT && pos.sector == t < Sectors(g, dir)
    case Chained(ch) => exists k: nat ::
        k < |ch| && pos.cluster == ch[k] && pos.sector < g.spc && t == Mul(k, g.spc) + pos.sector
  }

  /** The position is that of slot `i`. */
  ghost predicate SlotAt(g: Geometry, dir: Dir, pos: EntryPosition, i: nat) {
    exists t: nat ::
        SectorAt(g, dir, pos, t) && 0 <= pos.offset < PerSector(g) && i == Mul(t, PerSector(g)) + pos.offset
  }

  lemma SectorBound(g: Geometry, dir: Dir, pos: EntryPosition, t: nat)
    requires g.Ok() && SectorAt(g, dir, pos, t)
    ensures t < Sectors(g, dir)
  {
    hide Mul;
    if dir.Chained? {
      var k: nat :| k < |dir.ch| && pos.cluster == dir.ch[k] && pos.sector < g.spc && t == Mul(k, g.spc) + pos.sector;
      MulApart(k, 1, |dir.ch|, g.spc);
      MulOne(g.spc);
    }
  }

  lemma SlotBound(g: Geometry, dir: Dir, pos: EntryPosition, i: nat)
    requires g.Ok() && SlotAt(g, dir, pos, i)
    ensures i < SlotTotal(g, dir)
  {
    hide Mul, SectorAt;
    var t: nat :| SectorAt(g, dir, pos, t) && 0 <= pos.offset < PerSector(g) && i == Mul(t, PerSector(g)) + pos.offset;
    SectorBound(g, dir, pos, t);
    MulApart(t, 1, Sectors(g, dir), PerSector(g));
    MulOne(PerSector(g));
  }

  /** Where slot `i` is on the volume and in the bytes of the directory. */
  lemma SlotPlace(g: Geometry, v: seq<byte>, dir: Dir, pos: EntryPosition, i: nat)
    requires IsDir(g, v, dir) && SlotAt(g, dir, pos, i)
    ensures OnVolume(g, pos) && i < SlotTotal(g, dir) && EntryAddress(g, pos) + 32 <= |v|
    ensures dir.Fixed? ==> TableEnd(g) + 32 * i == EntryAddress(g, pos) && EntryAddress(g, pos) + 32 <= DataLo(g)
    ensures dir.Chained? ==> exists k: nat :: k < |dir.ch| && pos.cluster == dir.ch[k] && InCluster(g, pos, k, i)
  {
    hide Mul, Table;
    SlotBound(g, dir, pos, i);
    var t: nat :| SectorAt(g, dir, pos, t) && 0 <= pos.offset < PerSector(g) && i == Mul(t, PerSector(g)) + pos.offset;
    Scale(t, PerSector(g));
    assert g.bps == 32 * PerSector(g);
    match dir {
      case Fixed =>
        SlotOnVolume(g, pos);
        Distrib(g.rootDirStart, t, g.bps);
      case Chained(ch) =>
        ChainClusters(g, v, ch);
        var k: nat :| k < |ch| && pos.cluster == ch[k] && pos.sector < g.spc && t == Mul(k, g.spc) + pos.sector;
        SlotOnVolume(g, pos);
        Distrib(Mul(k, g.spc), pos.sector, g.bps);
        MulAssoc(k, g.spc, g.bps);
        assert InCluster(g, pos, k, i);
    }
  }

  /** The same in the `k`-th cluster of a chain. */
  predicate InCluster(g: Geometry, pos: EntryPosition, k: nat, i: nat) {
    0 <= pos.offset && pos.cluster != CLUSTER_ROOT
    && var r := Mul(pos.sector, g.bps) + pos.offset * 32;
       EntryAddress(g, pos) == ClusterBase(g, pos.cluster) + r && r + 32 <= g.Bpc() && 32 * i == Mul(k, g.Bpc()) + r
  }

  /** The slot read from the volume is the slot of the directory. */
  lemma SlotRead(g: Geometry, v: seq<byte>, dir: Dir, pos: EntryPosition, i: nat)
    requires IsDir(g, v, dir) && SlotAt(g, dir, pos, i)
    ensures i < SlotTotal(g, dir) && EntryAddress(g, pos) + 32 <= |v|
    ensures DirSlots(g, v, dir)[i] == Sub(v, EntryAddress(g, pos), 32)
  {
    hide Mul, Table, FileBytes;
    SlotPlace(g, v, dir, pos, i);
    match dir {
      case Fixed =>
        RootOnVolume(g);
        SubOfMiddle(v, TableEnd(g), DataLo(g), EntryAddress(g, pos), 32);
      case Chained(ch) =>
        ChainClusters(g, v, ch);
        var k: nat :| k < |ch| && pos.cluster == ch[k] && InCluster(g, pos, k, i);
        ReadInCluster(g, v, ch, k, Mul(pos.sector, g.bps) + pos.offset * 32, 32);
    }
  }

  /** From volume `v0` with a directory `d0` to volume `v1` with the directory `d1`: the directory may have
      got longer, and nothing else has changed. */
  ghost predicate DirGrown(g: Geometry, v0: seq<byte>, d0: Dir, v1: seq<byte>, d1: Dir) {
    && IsDir(g, v0, d0) && IsDir(g, v1, d1)
    && match d0
       case Chained(ch0) => d1.Chained? && Grown(g, v0, ch0, v1, d1.ch)
       case Fixed =>
         d1.Fixed? && Table(g, v1) == Table(g, v0)
         && forall c: nat :: g.IsValidCluster(c) ==> ClusterBytes(g, v1, c) == ClusterBytes(g, v0, c)
  }

  lemma DirGrownNot(g: Geometry, v: seq<byte>, d: Dir)
    requires IsDir(g, v, d)
    ensures DirGrown(g, v, d, v, d)
  {
    if d.Chained? {
      GrownNot(g, v, d.ch);
    }
  }

  lemma DirGrownMore(g: Geometry, v0: seq<byte>, d0: Dir, v1: seq<byte>, d1: Dir, v2: seq<byte>, d2: Dir)
    requires DirGrown(g, v0, d0, v1, d1) && DirGrown(g, v1, d1, v2, d2)
    ensures DirGrown(g, v0, d0, v2, d2)
  {
    hide Table, ClusterBytes, Grown;
    if d0.Chained? {
      GrownMore(g, v0, d0.ch, v1, d1.ch, v2, d2.ch);
    }
  }

  /** Files and other directories keep their links and their bytes when a directory changes. */
  lemma OthersSpared(g: Geometry, v0: seq<byte>, d0: Dir, v1: seq<byte>, d1: Dir, other: seq<nat>)
    requires DirGrown(g, v0, d0, v1, d1) && IsChain(Table(g, v0), other) && (d0.Chained? ==> Disjoint(d0.ch, other))
    ensures IsChain(Table(g, v1), other) && (d1.Chained? ==> Disjoint(d1.ch, other))
    ensures Clusters(g, other) && FileBytes(g, v1, other) == FileBytes(g, v0, other)
  {
    hide Table, ClusterBytes, FileBytes, Grown, IsChain, Disjoint;
    ChainClusters(g, v0, other);
    if d0.Chained? {
      OtherFileKept(g, v0, d0.ch, v1, d1.ch, other);
    } else {
      FileFrame(g, v0, v1, other);
    }
  }

  /** Storing a slot changes this slot of the directory and nothing else. */
  lemma SlotWritten(g: Geometry, v: seq<byte>, dir: Dir, pos: EntryPosition, i: nat, e: Entry)
    requires IsDir(g, v, dir) && SlotAt(g, dir, pos, i)
    ensures i < SlotTotal(g, dir) && EntryAddress(g, pos) + 32 <= |v|
    ensures var v' := Splice(v, EntryAddress(g, pos), e);
            DirGrown(g, v, dir, v', dir) && DirSlots(g, v', dir) == DirSlots(g, v, dir)[i := e]
  {
    hide Mul, Table, FileBytes, ClusterBytes, Splice, Cut, RootArea, Grown;
    SlotPlace(g, v, dir, pos, i);
    AreaLength(g, v, dir);
    var v' := Splice(v, EntryAddress(g, pos), e);
    match dir {
      case Fixed =>
        RootSlotStore(g, v, EntryAddress(g, pos), e);
      case Chained(ch) =>
        ChainClusters(g, v, ch);
        var k: nat :| k < |ch| && pos.cluster == ch[k] && InCluster(g, pos, k, i);
        WriteInCluster(g, v, ch, k, Mul(pos.sector, g.bps) + pos.offset * 32, e);
        GrownByStore(g, v, ch, k, Mul(pos.sector, g.bps) + pos.offset * 32, e);
        GrownIsDir(g, v, ch, v', ch);
    }
    CutSpliced(Area(g, v, dir), SlotTotal(g, dir), i, e);
  }

  lemma GrownIsDir(g: Geometry, v0: seq<byte>, ch0: seq<nat>, v1: seq<byte>, ch1: seq<nat>)
    requires Grown(g, v0, ch0, v1, ch1) && ch0 != []
    ensures IsDir(g, v0, Chained(ch0)) && IsDir(g, v1, Chained(ch1))
  {
  }

  lemma CutSpliced(a: seq<byte>, n: nat, i: nat, e: Entry)
    requires |a| == 32 * n && i < n
    ensures Cut(Splice(a, 32 * i, e), n) == Cut(a, n)[i := e]
  {
    hide Splice, Sub;
    var b := Splice(a, 32 * i, e);
    forall k | 0 <= k < n
      ensures Cut(b, n)[k] == Cut(a, n)[i := e][k]
    {
      if k == i {
        SubOfSplice(a, 32 * i, e);
      } else {
        SubOutside(a, 32 * i, e, 32 * k, 32);
      }
    }
  }

  lemma RootSlotStore(g: Geometry, v: seq<byte>, at: nat, e: Entry)
    requires IsDir(g, v, Fixed) && TableEnd(g) <= at && at + 32 <= DataLo(g)
    ensures DataLo(g) <= |v| && at + 32 <= |v|
    ensures var v' := Splice(v, at, e);
            DirGrown(g, v, Fixed, v', Fixed) && |RootArea(g, v)| == DataLo(g) - TableEnd(g)
            && RootArea(g, v') == Splice(RootArea(g, v), at - TableEnd(g), e)
  {
    hide Mul, Table;
    RootOnVolume(g);
    RootStore(g, v, at, e, []);
    var v' := Splice(v, at, e);
    forall c: nat | g.IsValidCluster(c)
      ensures ClusterBytes(g, v', c) == ClusterBytes(g, v, c)
    {
      ClusterOnVolume(g, c);
      SubOutside(v, at, e, ClusterBase(g, c), g.Bpc());
    }
    MiddleSpliced(v, TableEnd(g), DataLo(g), at, e);
  }

  lemma MiddleSpliced(s: seq<byte>, lo: nat, hi: nat, at: nat, d: seq<byte>)
    requires lo <= at && at + |d| <= hi <= |s|
    ensures Splice(s, at, d)[lo..hi] == Splice(s[lo..hi], at - lo, d)
  {
    var a, b := Splice(s, at, d)[lo..hi], Splice(s[lo..hi], at - lo, d);
    assert |a| == |b|;
    forall i | 0 <= i < |a|
      ensures a[i] == b[i]
    {
      assert a[i] == Splice(s, at, d)[lo + i];
    }
  }

  /** A cleared cluster adds empty slots at the end. */
  lemma SlotsAppended(g: Geometry, v0: seq<byte>, ch: seq<nat>, v1: seq<byte>, r: nat)
    requires Grown(g, v0, ch, v1, ch + [r]) && ch != [] && Clusters(g, ch) && Clusters(g, ch + [r])
    requires FileBytes(g, v1, ch + [r]) == FileBytes(g, v0, ch) + Zeros(g.Bpc())
    ensures DirGrown(g, v0, Chained(ch), v1, Chained(ch + [r]))
    ensures var n := SlotTotal(g, Chained(ch + [r])) - SlotTotal(g, Chained(ch));
            n >= 0 && DirSlots(g, v1, Chained(ch + [r])) == DirSlots(g, v0, Chained(ch)) + Blank(n)
  {
    hide Mul, Table, FileBytes, Grown, Cut;
    GrownIsDir(g, v0, ch, v1, ch + [r]);
    AreaLength(g, v0, Chained(ch));
    AreaLength(g, v1, Chained(ch + [r]));
    var n0, n1 := SlotTotal(g, Chained(ch)), SlotTotal(g, Chained(ch + [r]));
    CutAppended(FileBytes(g, v0, ch), n0, n1 - n0);
  }

  function Blank(n: nat): (slots: seq<Entry>)
    ensures |slots| == n && forall i :: 0 <= i < n ==> slots[i] == Zeros(32)
  {
    if n == 0 then [] else Blank(n - 1) + [Zeros(32)]
  }

  lemma CutAppended(a: seq<byte>, n: nat, m: nat)
    requires |a| == 32 * n
    ensures Cut(a + Zeros(32 * m), n + m) == Cut(a, n) + Blank(m)
  {
    hide Cut, Blank;
    var b := a + Zeros(32 * m);
    forall k | 0 <= k < n + m
      ensures Cut(b, n + m)[k] == (Cut(a, n) + Blank(m))[k]
    {
      if k < n {
        SubLeft(a, Zeros(32 * m), 32 * k, 32);
      } else {
        SubRight(a, Zeros(32 * m), 32 * (k - n), 32);
        assert Sub(Zeros(32 * m), 32 * (k - n), 32) == Zeros(32);
      }
    }
  }
}
