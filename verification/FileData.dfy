/** The bytes of a file: the clusters of its chain, one after the other. */
module FileData {
  import opened Bytes
  import opened Arith
  import opened Volume
  import opened BootLaws
  import opened FatCodec
  import opened Chains

  ghost predicate Clusters(g: Geometry, ch: seq<nat>) {
    forall i :: 0 <= i < |ch| ==> g.IsValidCluster(ch[i])
  }

  ghost predicate Distinct(ch: seq<nat>) {
    forall i, j :: 0 <= i < j < |ch| ==> ch[i] != ch[j]
  }

  /** The first byte of a cluster on the volume. */
  function ClusterBase(g: Geometry, c: nat): nat {
    Mul(g.ClusterToSector(c), g.bps)
  }

  /** Clusters lie behind the tables and on the volume, and different ones lie apart. */
  lemma ClusterOnVolume(g: Geometry, c: nat)
    requires g.Ok() && g.IsValidCluster(c)
    ensures TableEnd(g) <= ClusterBase(g, c) && ClusterBase(g, c) + g.Bpc() <= Mul(g.end, g.bps)
    ensures c < g.lastCluster ==> ClusterBase(g, c + 1) == ClusterBase(g, c) + g.Bpc()
  {
    hide Mul;
    MulApart(c - 2, 1, g.lastCluster - 1, g.spc);
    MulOne(g.spc);
    MulMono(g.rootDirStart, g.ClusterToSector(c), g.bps);
    MulApart(g.ClusterToSector(c), g.spc, g.end, g.bps);
    MulSucc(c - 2, g.spc);
    Distrib(g.ClusterToSector(c), g.spc, g.bps);
  }

  lemma ClustersApart(g: Geometry, c: nat, e: nat)
    requires g.Ok() && g.IsValidCluster(c) && g.IsValidCluster(e) && c < e
    ensures ClusterBase(g, c) + g.Bpc() <= ClusterBase(g, e)
  {
    hide Mul;
    ClusterSectors(g, c, e);
    MulApart(g.ClusterToSector(c), g.spc, g.ClusterToSector(e), g.bps);
  }

  function ClusterBytes(g: Geometry, view: seq<byte>, c: nat): (d: seq<byte>)
    requires IsVolume(g, view) && g.IsValidCluster(c)
    ensures |d| == g.Bpc()
  {
    ClusterOnVolume(g, c);
    Sub(view, ClusterBase(g, c), g.Bpc())
  }

  function FileBytes(g: Geometry, view: seq<byte>, ch: seq<nat>): (d: seq<byte>)
    requires IsVolume(g, view) && Clusters(g, ch)
    ensures |d| == Mul(|ch|, g.Bpc())
  {
    if ch == [] then []
    else FileBytes(g, view, ch[..|ch| - 1]) + ClusterBytes(g, view, ch[|ch| - 1])
  }

  /** Where byte `r` of the `k`-th cluster of a file is in the file. */
  lemma OffsetFits(g: Geometry, n: nat, k: nat, r: nat, len: nat)
    requires k < n && r + len <= g.Bpc()
    ensures Mul(k, g.Bpc()) + r + len <= Mul(n, g.Bpc())
  {
    hide Mul;
    MulApart(k, 1, n, g.Bpc());
    MulOne(g.Bpc());
  }

  /** Reading inside one cluster. */
  lemma {:induction false} ReadInCluster(g: Geometry, view: seq<byte>, ch: seq<nat>, k: nat, r: nat, len: nat)
    requires IsVolume(g, view) && Clusters(g, ch) && k < |ch| && r + len <= g.Bpc()
    ensures Mul(k, g.Bpc()) + r + len <= Mul(|ch|, g.Bpc())
    ensures ClusterBase(g, ch[k]) + r + len <= |view|
    ensures Sub(FileBytes(g, view, ch), Mul(k, g.Bpc()) + r, len) == Sub(view, ClusterBase(g, ch[k]) + r, len)
    decreases |ch|
  {
    hide Sub, Mul, ClusterBase;
    OffsetFits(g, |ch|, k, r, len);
    ClusterOnVolume(g, ch[k]);
    var init := ch[..|ch| - 1];
    var a, b := FileBytes(g, view, init), ClusterBytes(g, view, ch[|ch| - 1]);
    if k == |ch| - 1 {
      SubRight(a, b, r, len);
      SubSub(view, ClusterBase(g, ch[k]), g.Bpc(), r, len);
    } else {
      ReadInCluster(g, view, init, k, r, len);
      SubLeft(a, b, Mul(k, g.Bpc()) + r, len);
    }
  }

  /** A file none of whose clusters is touched keeps its bytes. */
  lemma {:induction false} FileFrame(g: Geometry, view: seq<byte>, view': seq<byte>, ch: seq<nat>)
    requires IsVolume(g, view) && IsVolume(g, view') && Clusters(g, ch)
    requires forall i :: 0 <= i < |ch| ==> ClusterBytes(g, view', ch[i]) == ClusterBytes(g, view, ch[i])
    ensures FileBytes(g, view', ch) == FileBytes(g, view, ch)
    decreases |ch|
  {
    if ch != [] {
      var init := ch[..|ch| - 1];
      forall i | 0 <= i < |init|
        ensures ClusterBytes(g, view', init[i]) == ClusterBytes(g, view, init[i])
      {
        assert init[i] == ch[i];
      }
      FileFrame(g, view, view', init);
    }
  }

  /** Writes to the tables do not touch files. */
  lemma TableWritesKeepFiles(g: Geometry, view: seq<byte>, view': seq<byte>, ch: seq<nat>)
    requires IsVolume(g, view) && IsVolume(g, view') && Clusters(g, ch) && DataKept(g, view, view')
    ensures FileBytes(g, view', ch) == FileBytes(g, view, ch)
  {
    forall i | 0 <= i < |ch|
      ensures ClusterBytes(g, view', ch[i]) == ClusterBytes(g, view, ch[i])
    {
      ClusterOnVolume(g, ch[i]);
      SubOfTail(view, TableEnd(g), ClusterBase(g, ch[i]), g.Bpc());
      SubOfTail(view', TableEnd(g), ClusterBase(g, ch[i]), g.Bpc());
    }
    FileFrame(g, view, view', ch);
  }

  lemma SubOfTail(s: seq<byte>, from: nat, at: nat, len: nat)
    requires from <= at && at + len <= |s|
    ensures Sub(s, at, len) == Sub(s[from..], at - from, len)
  {
  }

  /** A store inside one cluster leaves every other cluster alone. */
  lemma StoreElsewhere(g: Geometry, view: seq<byte>, c: nat, r: nat, d: seq<byte>, e: nat)
    requires IsVolume(g, view) && g.IsValidCluster(c) && g.IsValidCluster(e) && c != e && r + |d| <= g.Bpc()
    ensures ClusterBase(g, c) + r + |d| <= |view|
    ensures ClusterBytes(g, Splice(view, ClusterBase(g, c) + r, d), e) == ClusterBytes(g, view, e)
  {
    hide Splice, Sub, Mul;
    ClusterOnVolume(g, c);
    ClusterOnVolume(g, e);
    if c < e {
      ClustersApart(g, c, e);
    } else {
      ClustersApart(g, e, c);
    }
    SubOutside(view, ClusterBase(g, c) + r, d, ClusterBase(g, e), g.Bpc());
  }

  lemma StoreInside(g: Geometry, view: seq<byte>, c: nat, r: nat, d: seq<byte>)
    requires IsVolume(g, view) && g.IsValidCluster(c) && r + |d| <= g.Bpc()
    ensures ClusterBase(g, c) + r + |d| <= |view|
    ensures ClusterBytes(g, Splice(view, ClusterBase(g, c) + r, d), c) == Splice(ClusterBytes(g, view, c), r, d)
  {
    hide Splice, Sub, Mul;
    ClusterOnVolume(g, c);
    SpliceSub(view, ClusterBase(g, c), g.Bpc(), r, d);
  }

  /** Storing inside one cluster of a file is a splice of the file. */
  lemma {:induction false} WriteInCluster(g: Geometry, view: seq<byte>, ch: seq<nat>, k: nat, r: nat, d: seq<byte>)
    requires IsVolume(g, view) && Clusters(g, ch) && Distinct(ch) && k < |ch| && r + |d| <= g.Bpc()
    ensures Mul(k, g.Bpc()) + r + |d| <= Mul(|ch|, g.Bpc())
    ensures ClusterBase(g, ch[k]) + r + |d| <= |view|
    ensures FileBytes(g, Splice(view, ClusterBase(g, ch[k]) + r, d), ch)
         == Splice(FileBytes(g, view, ch), Mul(k, g.Bpc()) + r, d)
    decreases |ch|
  {
    hide Splice, Sub, Mul, ClusterBytes, ClusterBase;
    StoreInside(g, view, ch[k], r, d);
    OffsetFits(g, |ch|, k, r, |d|);
    var view' := Splice(view, ClusterBase(g, ch[k]) + r, d);
    var init, last := ch[..|ch| - 1], ch[|ch| - 1];
    var a, b := FileBytes(g, view, init), ClusterBytes(g, view, last);
    if k == |ch| - 1 {
      forall i | 0 <= i < |init|
        ensures ClusterBytes(g, view', init[i]) == ClusterBytes(g, view, init[i])
      {
        StoreElsewhere(g, view, ch[k], r, d, ch[i]);
      }
      FileFrame(g, view, view', init);
      SpliceRight(a, b, r, d);
    } else {
      WriteInCluster(g, view, init, k, r, d);
      StoreElsewhere(g, view, ch[k], r, d, last);
      OffsetFits(g, |init|, k, r, |d|);
      SpliceLeft(a, b, Mul(k, g.Bpc()) + r, d);
    }
  }

  /** A store inside one cluster leaves every file alone that does not have this cluster. */
  lemma StoreKeepsOtherFile(g: Geometry, view: seq<byte>, c: nat, r: nat, d: seq<byte>, other: seq<nat>)
    requires IsVolume(g, view) && g.IsValidCluster(c) && r + |d| <= g.Bpc() && Clusters(g, other) && c !in other
    ensures ClusterBase(g, c) + r + |d| <= |view|
    ensures FileBytes(g, Splice(view, ClusterBase(g, c) + r, d), other) == FileBytes(g, view, other)
  {
    hide Splice, Sub, Mul, ClusterBytes, ClusterBase;
    StoreInside(g, view, c, r, d);
    var view' := Splice(view, ClusterBase(g, c) + r, d);
    forall i | 0 <= i < |other|
      ensures ClusterBytes(g, view', other[i]) == ClusterBytes(g, view, other[i])
    {
      StoreElsewhere(g, view, c, r, d, other[i]);
    }
    FileFrame(g, view, view', other);
  }

  /** `n` clusters of a file, from the `k`-th on, that follow one another on the volume too. */
  ghost predicate IsRun(ch: seq<nat>, k: nat, n: nat) {
    k + n <= |ch| && forall i :: k <= i < k + n ==> ch[i] == ch[k] + (i - k)
  }

  lemma {:induction false} RunBase(g: Geometry, ch: seq<nat>, k: nat, n: nat)
    requires g.Ok() && Clusters(g, ch) && 0 < n && IsRun(ch, k, n)
    ensures ClusterBase(g, ch[k + n - 1]) == ClusterBase(g, ch[k]) + Mul(n - 1, g.Bpc())
    ensures ClusterBase(g, ch[k]) + Mul(n, g.Bpc()) <= Mul(g.end, g.bps)
    decreases n
  {
    hide Mul, ClusterBase;
    ClusterOnVolume(g, ch[k + n - 1]);
    MulSucc(n - 1, g.Bpc());
    MulZero(g.Bpc());
    if n > 1 {
      RunBase(g, ch, k, n - 1);
      ClusterOnVolume(g, ch[k + n - 2]);
      assert ch[k + n - 1] == ch[k + n - 2] + 1;
      MulSucc(n - 2, g.Bpc());
    }
  }

  lemma RunFitsFile(ch: seq<nat>, k: nat, n: nat, m: nat)
    requires k + n <= |ch|
    ensures Mul(k, m) + Mul(n, m) <= Mul(|ch|, m)
  {
    hide Mul;
    MulApart(k, n, |ch|, m);
  }

  /** Reading a run of whole clusters. */
  lemma {:induction false} ReadRunOfClusters(g: Geometry, view: seq<byte>, ch: seq<nat>, k: nat, n: nat)
    requires IsVolume(g, view) && Clusters(g, ch) && 0 < n && IsRun(ch, k, n)
    ensures Mul(k, g.Bpc()) + Mul(n, g.Bpc()) <= Mul(|ch|, g.Bpc())
    ensures ClusterBase(g, ch[k]) + Mul(n, g.Bpc()) <= |view|
    ensures Sub(FileBytes(g, view, ch), Mul(k, g.Bpc()), Mul(n, g.Bpc())) == Sub(view, ClusterBase(g, ch[k]),
            Mul(n, g.Bpc()))
    decreases n
  {
    hide Mul, ClusterBase, Sub, FileBytes;
    RunFitsFile(ch, k, n, g.Bpc());
    RunBase(g, ch, k, n);
    MulOne(g.Bpc());
    var b, raw := g.Bpc(), FileBytes(g, view, ch);
    if n == 1 {
      ReadInCluster(g, view, ch, k, 0, b);
    } else {
      ReadRunOfClusters(g, view, ch, k, n - 1);
      ReadInCluster(g, view, ch, k + n - 1, 0, b);
      MulSucc(n - 1, b);
      Distrib(k, n - 1, b);
      SubConcat(raw, Mul(k, b), Mul(n - 1, b), b);
      SubConcat(view, ClusterBase(g, ch[k]), Mul(n - 1, b), b);
    }
  }

  /** Writing a run of whole clusters is a splice of the file. */
  lemma {:induction false} WriteRunOfClusters(g: Geometry, view: seq<byte>, ch: seq<nat>, k: nat, n: nat, d: seq<byte>)
    requires IsVolume(g, view) && Clusters(g, ch) && Distinct(ch) && 0 < n && IsRun(ch, k, n) && |d| == Mul(n, g.Bpc())
    ensures Mul(k, g.Bpc()) + |d| <= Mul(|ch|, g.Bpc())
    ensures ClusterBase(g, ch[k]) + |d| <= |view|
    ensures FileBytes(g, Splice(view, ClusterBase(g, ch[k]), d), ch) == Splice(FileBytes(g, view, ch),
            Mul(k, g.Bpc()), d)
    decreases n
  {
    hide Mul, ClusterBase, Splice, Sub, FileBytes;
    RunFitsFile(ch, k, n, g.Bpc());
    RunBase(g, ch, k, n);
    MulOne(g.Bpc());
    var b, raw := g.Bpc(), FileBytes(g, view, ch);
    if n == 1 {
      WriteInCluster(g, view, ch, k, 0, d);
    } else {
      MulSucc(n - 1, b);
      Distrib(k, n - 1, b);
      var m := Mul(n - 1, b);
      WriteRunOfClusters(g, view, ch, k, n - 1, d[..m]);
      var view' := Splice(view, ClusterBase(g, ch[k]), d[..m]);
      WriteInCluster(g, view', ch, k + n - 1, 0, Sub(d, m, b));
      SpliceMore(view, ClusterBase(g, ch[k]), d, m, b);
      SpliceMore(raw, Mul(k, b), d, m, b);
      Whole(d);
    }
  }

  lemma Whole(d: seq<byte>)
    ensures d[..|d|] == d
  {
  }

  /** A run of whole clusters leaves every cluster outside the run alone. */
  lemma {:induction false} RunElsewhere(g: Geometry, view: seq<byte>, ch: seq<nat>, k: nat, n: nat, d: seq<byte>,
        e: nat)
    requires IsVolume(g, view) && Clusters(g, ch) && 0 < n && IsRun(ch, k, n) && |d| == Mul(n, g.Bpc())
    requires g.IsValidCluster(e) && forall i :: k <= i < k + n ==> ch[i] != e
    ensures ClusterBase(g, ch[k]) + |d| <= |view|
    ensures ClusterBytes(g, Splice(view, ClusterBase(g, ch[k]), d), e) == ClusterBytes(g, view, e)
    decreases n
  {
    hide Mul, ClusterBase, Splice, Sub, FileBytes, ClusterBytes;
    RunBase(g, ch, k, n);
    MulOne(g.Bpc());
    var b := g.Bpc();
    if n == 1 {
      StoreElsewhere(g, view, ch[k], 0, d, e);
    } else {
      MulSucc(n - 1, b);
      var m := Mul(n - 1, b);
      RunElsewhere(g, view, ch, k, n - 1, d[..m], e);
      var view' := Splice(view, ClusterBase(g, ch[k]), d[..m]);
      StoreElsewhere(g, view', ch[k + n - 1], 0, Sub(d, m, b), e);
      SpliceMore(view, ClusterBase(g, ch[k]), d, m, b);
      Whole(d);
    }
  }

  datatype FilePosition = FilePosition(cluster: nat, sector: nat, byte: nat)

  /** The position points at offset `p`, in the `k`-th cluster of the chain or just behind it. */
  ghost predicate At(g: Geometry, ch: seq<nat>, pos: FilePosition, k: nat, p: nat) {
    && k < |ch| && pos.cluster == ch[k]
    && pos.sector <= g.spc && pos.byte < g.bps
    && p == Mul(k, g.Bpc()) + Mul(pos.sector, g.bps) + pos.byte
  }

  /** The position is a proper form of offset `p`: inside a cluster, or exactly at its end. */
  ghost predicate Denotes(g: Geometry, ch: seq<nat>, pos: FilePosition, p: nat) {
    (exists k :: At(g, ch, pos, k, p)) && (pos.sector == g.spc ==> pos.byte == 0)
  }

  /** Where a position in a cluster is on the volume. */
  lemma PositionOnVolume(g: Geometry, c: nat, sector: nat, byte: nat, n: nat)
    requires g.Ok() && g.IsValidCluster(c) && sector < g.spc && byte + n <= g.bps
    ensures g.ClusterToSector(c) + sector < g.end
    ensures Mul(g.ClusterToSector(c) + sector, g.bps) + byte == ClusterBase(g, c) + Mul(sector, g.bps) + byte
    ensures Mul(sector, g.bps) + byte + n <= g.Bpc()
  {
    hide Mul;
    Distrib(g.ClusterToSector(c), sector, g.bps);
    MulApart(sector, 1, g.spc, g.bps);
    MulOne(g.bps);
    ClusterOnVolume(g, c);
    MulLess(g.ClusterToSector(c) + sector, g.end, g.bps);
  }

  lemma SectorsOnVolume(g: Geometry, c: nat, sector: nat, n: nat)
    requires g.Ok() && g.IsValidCluster(c) && sector + n <= g.spc
    ensures g.ClusterToSector(c) + sector + n <= g.end
    ensures Mul(g.ClusterToSector(c) + sector, g.bps) == ClusterBase(g, c) + Mul(sector, g.bps)
    ensures Mul(sector, g.bps) + Mul(n, g.bps) == Mul(sector + n, g.bps) <= g.Bpc()
  {
    hide Mul;
    Distrib(g.ClusterToSector(c), sector, g.bps);
    Distrib(sector, n, g.bps);
    MulMono(sector + n, g.spc, g.bps);
    MulApart(c - 2, 1, g.lastCluster - 1, g.spc);
    MulOne(g.spc);
  }

  /** A position in a file is not behind the last cluster. */
  lemma PositionInFile(g: Geometry, ch: seq<nat>, pos: FilePosition, k: nat, p: nat)
    requires g.Ok() && At(g, ch, pos, k, p) && (pos.sector == g.spc ==> pos.byte == 0)
    ensures p <= Mul(k, g.Bpc()) + g.Bpc() <= Mul(|ch|, g.Bpc())
  {
    hide Mul;
    OffsetFits(g, |ch|, k, 0, g.Bpc());
    if pos.sector < g.spc {
      MulApart(pos.sector, 1, g.spc, g.bps);
      MulOne(g.bps);
    }
  }

  /** A chain consists of different clusters of the volume. */
  lemma ChainClusters(g: Geometry, view: seq<byte>, ch: seq<nat>)
    requires IsVolume(g, view) && (ch == [] || IsChain(Table(g, view), ch))
    ensures Clusters(g, ch) && Distinct(ch) && TableOk(Table(g, view))
  {
    var t := Table(g, view);
    if ch != [] {
      forall i | 0 <= i < |ch|
        ensures g.IsValidCluster(ch[i])
      {
        assert InTable(t, ch[i]);
      }
      forall i, j | 0 <= i < j < |ch|
        ensures ch[i] != ch[j]
      {
        NoReturn(t, ch, i, j);
      }
    }
  }

  /** A run of clusters as a run of sectors. */
  lemma RunSectors(g: Geometry, ch: seq<nat>, k: nat, n: nat)
    requires g.Ok() && Clusters(g, ch) && 0 < n && IsRun(ch, k, n)
    ensures g.ClusterToSector(ch[k]) + Mul(n, g.spc) <= g.end
    ensures Mul(Mul(n, g.spc), g.bps) == Mul(n, g.Bpc())
    ensures Div(Mul(n, g.Bpc()), g.bps) == Mul(n, g.spc)
  {
    hide Mul, Div;
    var c, e := ch[k], ch[k + n - 1];
    MulApart(c - 2, n, e - 1, g.spc);
    MulMono(e - 1, g.lastCluster - 1, g.spc);
    MulAssoc(n, g.spc, g.bps);
    DivModUnique(Mul(n, g.spc), g.bps, 0);
  }

  /** Cluster, sector and byte of an offset. */
  lemma OffsetParts(g: Geometry, p: nat)
    requires g.Ok()
    ensures g.Bpc() > 0
    ensures var k, s, b := Div(p, g.Bpc()), Div(Mod(p, g.Bpc()), g.bps), Mod(p, g.bps);
            s < g.spc && b < g.bps && p == Mul(k, g.Bpc()) + Mul(s, g.bps) + b
            && (Mod(p, g.Bpc()) == 0 <==> s == 0 && b == 0)
  {
    hide Mul, Div, Mod;
    MulOne(g.bps);
    MulMono(1, g.spc, g.bps);
    var k, m := Div(p, g.Bpc()), Mod(p, g.Bpc());
    var s, b := Div(m, g.bps), Mod(m, g.bps);
    DivMod(p, g.Bpc());
    DivMod(m, g.bps);
    MulAssoc(k, g.spc, g.bps);
    Distrib(Mul(k, g.spc), s, g.bps);
    DivModUnique(Mul(k, g.spc) + s, g.bps, b);
    MulZero(g.bps);
    if g.spc <= s {
      MulMono(g.spc, s, g.bps);
    }
    if s > 0 {
      MulMono(1, s, g.bps);
    }
  }

  /** The cluster a proper position counts from. */
  lemma PositionParts(g: Geometry, ch: seq<nat>, pos: FilePosition, k: nat, p: nat)
    requires g.Ok() && At(g, ch, pos, k, p) && (pos.sector == g.spc ==> pos.byte == 0)
    ensures g.Bpc() > 0 && Div(p, g.Bpc()) == if pos.sector == g.spc then k + 1 else k
  {
    hide Mul, Div;
    OffsetParts(g, 0);
    if pos.sector == g.spc {
      MulSucc(k, g.Bpc());
      DivModUnique(k + 1, g.Bpc(), 0);
    } else {
      MulApart(pos.sector, 1, g.spc, g.bps);
      MulOne(g.bps);
      DivModUnique(k, g.Bpc(), Mul(pos.sector, g.bps) + pos.byte);
    }
  }

  /** An offset in a file of `n` clusters is in one of them, or at the very end of the last. */
  lemma OffsetInChain(g: Geometry, p: nat, n: nat)
    requires g.Ok() && p <= Mul(n, g.Bpc())
    ensures g.Bpc() > 0 && Div(p, g.Bpc()) <= n
    ensures Div(p, g.Bpc()) == n ==> p == Mul(n, g.Bpc()) && Div(Mod(p, g.Bpc()), g.bps) == 0
  {
    hide Mul, Div, Mod;
    OffsetParts(g, p);
    DivMod(p, g.Bpc());
    if n < Div(p, g.Bpc()) {
      MulMono(n + 1, Div(p, g.Bpc()), g.Bpc());
      MulSucc(n, g.Bpc());
    }
  }

  /** The first clusters of a file have its first bytes. */
  lemma {:induction false} FileBytesPrefix(g: Geometry, view: seq<byte>, ch: seq<nat>, k: nat)
    requires IsVolume(g, view) && Clusters(g, ch) && k <= |ch|
    ensures Clusters(g, ch[..k]) && Mul(k, g.Bpc()) <= Mul(|ch|, g.Bpc())
    ensures FileBytes(g, view, ch[..k]) == FileBytes(g, view, ch)[..Mul(k, g.Bpc())]
    decreases |ch|
  {
    hide Mul, ClusterBytes;
    MulMono(k, |ch|, g.Bpc());
    if k == |ch| {
      assert ch[..k] == ch;
    } else {
      var init := ch[..|ch| - 1];
      FileBytesPrefix(g, view, init, k);
      assert init[..k] == ch[..k];
      var a, b := FileBytes(g, view, init), ClusterBytes(g, view, ch[|ch| - 1]);
      assert (a + b)[..Mul(k, g.Bpc())] == a[..Mul(k, g.Bpc())];
    }
  }

  /** Byte by byte: the file's cluster number `k`, counted from 0, is where the volume has cluster `ch[k]`. */
  lemma FileByteIs(g: Geometry, v: seq<byte>, ch: seq<nat>, k: nat, r: nat, x: nat, y: nat)
    requires IsVolume(g, v) && Clusters(g, ch) && k < |ch| && r < g.spc * g.bps
    requires x == k * (g.spc * g.bps) + r && y == (g.dataStart + (ch[k] - 2) * g.spc) * g.bps + r
    ensures |FileBytes(g, v, ch)| == |ch| * (g.spc * g.bps) && x < |FileBytes(g, v, ch)| && y < |v|
    ensures FileBytes(g, v, ch)[x] == v[y]
  {
    hide Mul, FileBytes;
    ClusterIsAt(g, ch[k]);
    MulIsProduct(k, g.Bpc());
    MulIsProduct(|ch|, g.Bpc());
    MulIsProduct(g.ClusterToSector(ch[k]), g.bps);
    ReadInCluster(g, v, ch, k, r, 1);
    assert Sub(FileBytes(g, v, ch), Mul(k, g.Bpc()) + r, 1)[0] == Sub(v, ClusterBase(g, ch[k]) + r, 1)[0];
  }
}
