/** What writing a file may change: the file's own clusters, clusters that were free before, and the
    entries of both; and why everything else on the volume stays as it is. */
module Growth {
  import opened Bytes
  import opened Arith
  import opened Volume
  import opened FatCodec
  import opened Chains
  import opened FileData

  /** The first byte of the data area. */
  function DataLo(g: Geometry): nat {
    Mul(g.dataStart, g.bps)
  }

  lemma RootOnVolume(g: Geometry)
    requires g.Ok()
    ensures TableEnd(g) <= DataLo(g) <= Mul(g.end, g.bps)
    ensures forall c :: g.IsValidCluster(c) ==> DataLo(g) <= ClusterBase(g, c)
  {
    hide Mul;
    MulMono(g.rootDirStart, g.dataStart, g.bps);
    MulMono(g.dataStart, g.end, g.bps);
    forall c | g.IsValidCluster(c)
      ensures DataLo(g) <= ClusterBase(g, c)
    {
      MulMono(g.dataStart, g.ClusterToSector(c), g.bps);
    }
  }

  /** The fixed root directory of a 12 or 16-bit volume. */
  function RootArea(g: Geometry, view: seq<byte>): seq<byte>
    requires IsVolume(g, view)
  {
    RootOnVolume(g);
    view[TableEnd(g)..DataLo(g)]
  }

  lemma FrontOnVolume(g: Geometry)
    requires g.Ok()
    ensures Mul(g.fatStart, g.bps) <= TableEnd(g) <= Mul(g.end, g.bps)
  {
    RootOnVolume(g);
  }

  /** The root directory and what is before the tables are as before. */
  ghost predicate FixedKept(g: Geometry, v0: seq<byte>, v1: seq<byte>)
    requires IsVolume(g, v0) && IsVolume(g, v1)
  {
    FrontOnVolume(g);
    RootArea(g, v1) == RootArea(g, v0) && FrontArea(g, v1) == FrontArea(g, v0)
  }

  /** The table entry and the bytes of a cluster are as before. */
  ghost predicate Untouched(g: Geometry, v0: seq<byte>, v1: seq<byte>, c: nat)
    requires IsVolume(g, v0) && IsVolume(g, v1) && g.IsValidCluster(c)
  {
    Table(g, v1)[c] == Table(g, v0)[c] && ClusterBytes(g, v1, c) == ClusterBytes(g, v0, c)
  }

  ghost predicate WellFormed(g: Geometry, v: seq<byte>, ch: seq<nat>) {
    IsVolume(g, v) && Closed(Table(g, v)) && (ch == [] || IsChain(Table(g, v), ch))
  }

  /** From volume `v0` with a file of clusters `ch0` to volume `v1` with the file's clusters `ch1`. */
  ghost predicate Grown(g: Geometry, v0: seq<byte>, ch0: seq<nat>, v1: seq<byte>, ch1: seq<nat>) {
    && WellFormed(g, v0, ch0) && WellFormed(g, v1, ch1)
    && ch0 <= ch1
    && (forall c: nat :: g.IsValidCluster(c) && c !in ch1 ==> Untouched(g, v0, v1, c))
    && (forall c: nat :: g.IsValidCluster(c) && c in ch1 && c !in ch0 ==> Table(g, v0)[c] == CLUSTER_FREE)
    && FreeCount(Table(g, v1)) + |ch1| == FreeCount(Table(g, v0)) + |ch0|
    && FixedKept(g, v0, v1)
  }

  /** Only clusters of `ch` are touched. */
  ghost predicate Confined(g: Geometry, v0: seq<byte>, v1: seq<byte>, ch: seq<nat>) {
    && IsVolume(g, v0) && IsVolume(g, v1)
    && (forall c: nat :: g.IsValidCluster(c) && c !in ch ==> Untouched(g, v0, v1, c))
    && FixedKept(g, v0, v1)
  }

  lemma GrownNot(g: Geometry, v: seq<byte>, ch: seq<nat>)
    requires WellFormed(g, v, ch)
    ensures Grown(g, v, ch, v, ch)
  {
  }

  lemma GrownMore(g: Geometry, v0: seq<byte>, ch0: seq<nat>, v1: seq<byte>, ch1: seq<nat>, v2: seq<byte>, ch2: seq<nat>)
    requires Grown(g, v0, ch0, v1, ch1) && Grown(g, v1, ch1, v2, ch2)
    ensures Grown(g, v0, ch0, v2, ch2)
  {
    hide Table, ClusterBytes, FreeCount, RootArea, FrontArea, Closed, IsChain;
    forall c: nat | g.IsValidCluster(c) && c !in ch2
      ensures Untouched(g, v0, v2, c)
    {
      assert c !in ch1;
      assert Untouched(g, v0, v1, c) && Untouched(g, v1, v2, c);
    }
    forall c: nat | g.IsValidCluster(c) && c in ch2 && c !in ch0
      ensures Table(g, v0)[c] == CLUSTER_FREE
    {
      if c !in ch1 {
        assert Untouched(g, v0, v1, c);
      }
    }
  }

  /** Linking a free cluster to the end of a chain, or starting a chain with it. */
  lemma GrownByLink(g: Geometry, v: seq<byte>, ch: seq<nat>, r: nat, v': seq<byte>)
    requires WellFormed(g, v, ch) && IsVolume(g, v') && DataKept(g, v, v')
    requires g.IsValidCluster(r) && Table(g, v)[r] == CLUSTER_FREE
    requires Table(g, v') == LinkedTable(Table(g, v), if ch == [] then CLUSTER_FREE else ch[|ch| - 1], r)
    ensures Grown(g, v, ch, v', ch + [r]) && r !in ch
    ensures FileBytes(g, v', ch) == FileBytes(g, v, ch)
  {
    hide Table, ClusterBytes, FixedKept, FileBytes;
    var t, tail := Table(g, v), if ch == [] then CLUSTER_FREE else ch[|ch| - 1];
    ChainClusters(g, v, ch);
    LinkedIsChain(t, ch, r);
    LinkKeepsClosed(t, tail, r);
    LinkCount(t, tail, r);
    TableWritesKeepFiles(g, v, v', ch);
    RootKept(g, v, v');
    forall c: nat | g.IsValidCluster(c) && c !in ch + [r]
      ensures Untouched(g, v, v', c)
    {
      ClusterKept(g, v, v', c);
    }
  }

  lemma LinkedIsChain(t: seq<nat>, ch: seq<nat>, r: nat)
    requires TableOk(t) && (ch == [] || IsChain(t, ch)) && InTable(t, r) && t[r] == CLUSTER_FREE
    ensures IsChain(LinkedTable(t, if ch == [] then CLUSTER_FREE else ch[|ch| - 1], r), ch + [r])
    ensures r !in ch && (ch != [] ==> InTable(t, ch[|ch| - 1]) && t[ch[|ch| - 1]] != CLUSTER_FREE)
  {
    if ch == [] {
      LinkAlone(t, r);
      assert ch + [r] == [r];
    } else {
      LinkAtTail(t, ch, r);
      LinkOut(t, ch, |ch| - 1);
    }
  }

  lemma ClusterKept(g: Geometry, v: seq<byte>, v': seq<byte>, c: nat)
    requires IsVolume(g, v) && IsVolume(g, v') && DataKept(g, v, v') && g.IsValidCluster(c)
    ensures ClusterBytes(g, v', c) == ClusterBytes(g, v, c)
  {
    ClusterOnVolume(g, c);
    SubOfTail(v, TableEnd(g), ClusterBase(g, c), g.Bpc());
    SubOfTail(v', TableEnd(g), ClusterBase(g, c), g.Bpc());
  }

  lemma RootKept(g: Geometry, v: seq<byte>, v': seq<byte>)
    requires IsVolume(g, v) && IsVolume(g, v') && DataKept(g, v, v')
    ensures FixedKept(g, v, v')
  {
    RootOnVolume(g);
    var n := DataLo(g) - TableEnd(g);
    assert RootArea(g, v') == v'[TableEnd(g)..][..n];
    assert RootArea(g, v) == v[TableEnd(g)..][..n];
  }

  /** Stores in the data area change neither the table nor the root directory. */
  lemma StoreBehindTables(g: Geometry, v: seq<byte>, at: nat, d: seq<byte>)
    requires IsVolume(g, v) && DataLo(g) <= at && at + |d| <= |v|
    ensures IsVolume(g, Splice(v, at, d)) && Table(g, Splice(v, at, d)) == Table(g, v)
    ensures FixedKept(g, v, Splice(v, at, d))
  {
    RootOnVolume(g);
    TableFrame(g, v, Splice(v, at, d));
  }

  /** Storing inside a cluster of the file. */
  lemma GrownByStore(g: Geometry, v: seq<byte>, ch: seq<nat>, k: nat, r: nat, d: seq<byte>)
    requires WellFormed(g, v, ch) && k < |ch| && r + |d| <= g.Bpc()
    ensures Clusters(g, ch) && ClusterBase(g, ch[k]) + r + |d| <= |v|
    ensures Grown(g, v, ch, Splice(v, ClusterBase(g, ch[k]) + r, d), ch)
  {
    hide Table, ClusterBytes, FixedKept, FileBytes, Splice, FreeCount, IsChain, Closed;
    ChainClusters(g, v, ch);
    StoreInside(g, v, ch[k], r, d);
    RootOnVolume(g);
    StoreBehindTables(g, v, ClusterBase(g, ch[k]) + r, d);
    forall c: nat | g.IsValidCluster(c) && c !in ch
      ensures Untouched(g, v, Splice(v, ClusterBase(g, ch[k]) + r, d), c)
    {
      StoreElsewhere(g, v, ch[k], r, d, c);
    }
  }

  /** Storing a run of clusters of the file. */
  lemma GrownByRun(g: Geometry, v: seq<byte>, ch: seq<nat>, k: nat, n: nat, d: seq<byte>)
    requires WellFormed(g, v, ch) && 0 < n && IsRun(ch, k, n) && |d| == Mul(n, g.Bpc())
    ensures Clusters(g, ch) && ClusterBase(g, ch[k]) + |d| <= |v|
    ensures Grown(g, v, ch, Splice(v, ClusterBase(g, ch[k]), d), ch)
  {
    hide Table, ClusterBytes, FixedKept, FileBytes, Splice, FreeCount, IsChain, Closed, ClusterBase, Mul;
    ChainClusters(g, v, ch);
    RunBase(g, ch, k, n);
    RootOnVolume(g);
    StoreBehindTables(g, v, ClusterBase(g, ch[k]), d);
    forall c: nat | g.IsValidCluster(c) && c !in ch
      ensures Untouched(g, v, Splice(v, ClusterBase(g, ch[k]), d), c)
    {
      RunElsewhere(g, v, ch, k, n, d, c);
    }
  }

  /** Non-interference: a file with other clusters keeps its chain and its bytes. */
  lemma OtherFileKept(g: Geometry, v0: seq<byte>, ch0: seq<nat>, v1: seq<byte>, ch1: seq<nat>, other: seq<nat>)
    requires Grown(g, v0, ch0, v1, ch1) && IsChain(Table(g, v0), other) && Disjoint(ch0, other)
    ensures IsChain(Table(g, v1), other) && Disjoint(ch1, other)
    ensures Clusters(g, other) && FileBytes(g, v1, other) == FileBytes(g, v0, other)
  {
    hide Table, ClusterBytes, FixedKept, FileBytes, FreeCount, Closed;
    ChainClusters(g, v0, other);
    forall i | 0 <= i < |other|
      ensures other[i] !in ch1 && Untouched(g, v0, v1, other[i])
    {
      LinkOut(Table(g, v0), other, i);
      assert other[i] !in ch0;
    }
    ChainFrame(Table(g, v0), Table(g, v1), other);
    FileFrame(g, v0, v1, other);
  }

  /** Non-interference, for all files at once: chains apart from `ch0` keep links and bytes, and lie apart
      from `ch1` too; and so does the fixed root directory. */
  ghost predicate Spared(g: Geometry, v0: seq<byte>, ch0: seq<nat>, v1: seq<byte>, ch1: seq<nat>) {
    && IsVolume(g, v0) && IsVolume(g, v1) && FixedKept(g, v0, v1)
    && forall other: seq<nat> :: IsChain(Table(g, v0), other) && Disjoint(ch0, other) ==>
         IsChain(Table(g, v1), other) && Disjoint(ch1, other) && Clusters(g, other)
             && FileBytes(g, v1, other) == FileBytes(g, v0, other)
  }

  lemma GrownSpares(g: Geometry, v0: seq<byte>, ch0: seq<nat>, v1: seq<byte>, ch1: seq<nat>)
    requires Grown(g, v0, ch0, v1, ch1)
    ensures Spared(g, v0, ch0, v1, ch1)
  {
    hide Table, FileBytes, Grown, IsChain, Disjoint, FixedKept;
    GrownVolumes(g, v0, ch0, v1, ch1);
    forall other: seq<nat> | IsChain(Table(g, v0), other) && Disjoint(ch0, other)
      ensures IsChain(Table(g, v1), other) && Disjoint(ch1, other) && Clusters(g, other)
              && FileBytes(g, v1, other) == FileBytes(g, v0, other)
    {
      OtherFileKept(g, v0, ch0, v1, ch1, other);
    }
  }

  lemma GrownVolumes(g: Geometry, v0: seq<byte>, ch0: seq<nat>, v1: seq<byte>, ch1: seq<nat>)
    requires Grown(g, v0, ch0, v1, ch1)
    ensures IsVolume(g, v0) && IsVolume(g, v1) && FixedKept(g, v0, v1)
  {
  }

  /** A file that only drops clusters spares every other file. */
  lemma ConfinedSpares(g: Geometry, v0: seq<byte>, ch0: seq<nat>, v1: seq<byte>, ch1: seq<nat>)
    requires Confined(g, v0, v1, ch0) && ch1 <= ch0
    ensures Spared(g, v0, ch0, v1, ch1)
  {
    hide Table, FileBytes, IsChain, Untouched, FixedKept;
    forall other: seq<nat> | IsChain(Table(g, v0), other) && Disjoint(ch0, other)
      ensures IsChain(Table(g, v1), other) && Disjoint(ch1, other) && Clusters(g, other)
              && FileBytes(g, v1, other) == FileBytes(g, v0, other)
    {
      ConfinedKeeps(g, v0, v1, ch0, other);
    }
  }

  lemma ConfinedKeeps(g: Geometry, v0: seq<byte>, v1: seq<byte>, ch: seq<nat>, other: seq<nat>)
    requires Confined(g, v0, v1, ch) && IsChain(Table(g, v0), other) && Disjoint(ch, other)
    ensures IsChain(Table(g, v1), other)
    ensures Clusters(g, other) && FileBytes(g, v1, other) == FileBytes(g, v0, other)
  {
    hide Table, ClusterBytes, FixedKept, FileBytes;
    ChainClusters(g, v0, other);
    forall i | 0 <= i < |other|
      ensures Untouched(g, v0, v1, other[i])
    {
      assert other[i] !in ch;
    }
    ChainFrame(Table(g, v0), Table(g, v1), other);
    FileFrame(g, v0, v1, other);
  }

  lemma SparedNot(g: Geometry, v: seq<byte>, ch: seq<nat>)
    requires IsVolume(g, v)
    ensures Spared(g, v, ch, v, ch)
  {
    hide FileBytes, Disjoint, RootArea, FrontArea;
    forall other: seq<nat> | IsChain(Table(g, v), other) && Disjoint(ch, other)
      ensures Clusters(g, other)
    {
      ChainClusters(g, v, other);
    }
  }

  lemma SparedMore(g: Geometry, v0: seq<byte>, ch0: seq<nat>, v1: seq<byte>, ch1: seq<nat>, v2: seq<byte>,
        ch2: seq<nat>)
    requires Spared(g, v0, ch0, v1, ch1) && Spared(g, v1, ch1, v2, ch2)
    ensures Spared(g, v0, ch0, v2, ch2)
  {
    hide Table, FileBytes, IsChain, Disjoint, RootArea, FrontArea;
  }
}
