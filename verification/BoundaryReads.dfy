/** What a read of less than a sector gets at a position behind the last sector of its cluster
    (src/fat/fatfile.c, _FAT_read_r): it does not move on to the next cluster first. */
module BoundaryReads {
  import opened Bytes
  import opened Arith
  import opened Volume
  import opened FatCodec
  import opened Chains
  import opened FileData
  import opened Growth

  /** The `n` bytes behind the `k`-th cluster of the file are those the file has there. */
  ghost predicate ReadsRight(g: Geometry, v: seq<byte>, ch: seq<nat>, k: nat, n: nat)
    requires IsVolume(g, v) && Clusters(g, ch) && k + 1 < |ch| && ch[k] < g.lastCluster && n <= g.Bpc()
  {
    ClusterOnVolume(g, ch[k]);
    ClusterOnVolume(g, ch[k] + 1);
    OffsetFits(g, |ch|, k + 1, 0, n);
    Sub(v, ClusterBase(g, ch[k]) + g.Bpc(), n) == Sub(FileBytes(g, v, ch), Mul(k + 1, g.Bpc()), n)
  }

  /** Such a read is right, whatever the volume holds, exactly when the next cluster of the file is also the
      next one on the volume. */
  lemma RightIffContiguous(g: Geometry, v: seq<byte>, ch: seq<nat>, k: nat, n: nat)
    requires IsVolume(g, v) && IsChain(Table(g, v), ch) && Clusters(g, ch)
    requires k + 1 < |ch| && ch[k] < g.lastCluster && 0 < n < g.bps && n <= g.Bpc()
    ensures (forall v': seq<byte> :: IsVolume(g, v') && Table(g, v') == Table(g, v) ==> ReadsRight(g, v', ch, k, n))
            <==> ch[k + 1] == ch[k] + 1
  {
    hide Table, IsChain, Mul, Sub, FileBytes;
    if ch[k + 1] == ch[k] + 1 {
      forall v': seq<byte> | IsVolume(g, v') && Table(g, v') == Table(g, v)
        ensures ReadsRight(g, v', ch, k, n)
      {
        ClusterOnVolume(g, ch[k]);
        ReadInCluster(g, v', ch, k + 1, 0, n);
      }
    } else {
      var v' := WrongVolume(g, v, ch, k, n);
      assert !ReadsRight(g, v', ch, k, n);
    }
  }

  /** A volume with the same table on which the read is wrong. */
  lemma WrongVolume(g: Geometry, v: seq<byte>, ch: seq<nat>, k: nat, n: nat) returns (v': seq<byte>)
    requires IsVolume(g, v) && Clusters(g, ch) && k + 1 < |ch| && ch[k] < g.lastCluster && 0 < n < g.bps && n <= g.Bpc()
    requires ch[k + 1] != ch[k] + 1
    ensures IsVolume(g, v') && Table(g, v') == Table(g, v) && !ReadsRight(g, v', ch, k, n)
  {
    hide Table, IsChain, Mul, FileBytes, ClusterBytes;
    var c, e := ch[k] + 1, ch[k + 1];
    ClusterOnVolume(g, ch[k]);
    ClusterOnVolume(g, c);
    ClusterOnVolume(g, e);
    RootOnVolume(g);
    var x := if v[ClusterBase(g, e)] == 0 then 1 else 0;
    v' := Splice(v, ClusterBase(g, c), [x]);
    StoreBehindTables(g, v, ClusterBase(g, c), [x]);
    StoreElsewhere(g, v, c, 0, [x], e);
    FirstByte(g, v, e);
    FirstByte(g, v', e);
    ReadInCluster(g, v', ch, k + 1, 0, n);
    assert Sub(v', ClusterBase(g, c), n)[0] == x;
    assert Sub(v', ClusterBase(g, e), n)[0] == v'[ClusterBase(g, e)];
  }

  lemma FirstByte(g: Geometry, v: seq<byte>, c: nat)
    requires IsVolume(g, v) && g.IsValidCluster(c) && 0 < g.Bpc()
    ensures ClusterBase(g, c) < |v| && ClusterBytes(g, v, c)[0] == v[ClusterBase(g, c)]
  {
    ClusterOnVolume(g, c);
  }
}
