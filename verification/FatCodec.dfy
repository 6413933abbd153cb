/** Reading and writing one entry of the file allocation table (src/fat/file_allocation_table.c). */
module FatCodec {
  import opened Bytes
  import opened Arith
  import opened Volume

  /** The byte address of a cluster's entry. */
  function EntryAddr(g: Geometry, c: nat): nat {
    Mul(g.fatStart, g.bps) + g.EntryPos(c)
  }

  /** The first byte after the tables. */
  function TableEnd(g: Geometry): nat {
    Mul(g.rootDirStart, g.bps)
  }

  /** Every entry of the table, and the slot behind the last one, lies on the volume. */
  lemma EntryOnVolume(g: Geometry, view: seq<byte>, c: nat)
    requires IsVolume(g, view) && c <= g.lastCluster + 1
    ensures EntryAddr(g, c) + g.EntrySize() <= |view|
    ensures c <= g.lastCluster ==> EntryAddr(g, c) + g.EntrySize() <= TableEnd(g) <= |view|
  {
    MulApart(g.rootDirStart, 1, g.end, g.bps);
  }

  /** The entry as it is stored: 12, 16 or 32 bits. */
  function Raw(g: Geometry, view: seq<byte>, c: nat): nat
    requires EntryAddr(g, c) + g.EntrySize() <= |view|
  {
    var a := EntryAddr(g, c);
    if g.fsType == FAT32 then LeValue(Sub(view, a, 4))
    else
      var w := LeValue(Sub(view, a, 2));
      if g.fsType == FAT16 then w else if c % 2 == 1 then w / 16 else w % 4096
  }

  function RawLimit(g: Geometry): nat {
    match g.fsType
    case FAT12 => 0x1000
    case FAT16 => 0x1_0000
    case FAT32 => 0x1_0000_0000
  }

  /** What a stored value means: a cluster, FREE, or the end of a chain. */
  function Meaning(g: Geometry, raw: nat): nat {
    if raw >= g.EofThreshold() then CLUSTER_EOF else raw
  }

  /** The cluster linked from `c`, as nextCluster returns it. */
  function NextOf(g: Geometry, view: seq<byte>, c: nat): nat
    requires EntryAddr(g, c) + g.EntrySize() <= |view|
  {
    if c == CLUSTER_FREE then CLUSTER_FREE else Meaning(g, Raw(g, view, c))
  }

  /** The bytes of the entry of `c` once `v` is written to it. A 12-bit entry shares a byte with a
      neighbour, whose four bits stay. */
  function EntryBytes(g: Geometry, view: seq<byte>, c: nat, v: nat): (d: seq<byte>)
    requires EntryAddr(g, c) + g.EntrySize() <= |view|
    ensures |d| == g.EntrySize()
  {
    var a := EntryAddr(g, c);
    match g.fsType
    case FAT32 => LeBytes(v, 4)
    case FAT16 => LeBytes(v, 2)
    case FAT12 =>
      if c % 2 == 1 then LeBytes(16 * v + view[a] as int % 16, 2)
      else [v % 256, v / 256 % 16 + 16 * (view[a + 1] as int / 16)]
  }

  function Written(g: Geometry, view: seq<byte>, c: nat, v: nat): (r: seq<byte>)
    requires EntryAddr(g, c) + g.EntrySize() <= |view|
    ensures |r| == |view|
  {
    Splice(view, EntryAddr(g, c), EntryBytes(g, view, c, v))
  }

  lemma TwoStores(view: seq<byte>, a: nat, x: nat, y: nat)
    requires a + 2 <= |view|
    ensures Splice(Splice(view, a, LeBytes(x, 1)), a + 1, LeBytes(y, 1)) == Splice(view, a, [x % 256, y % 256])
  {
    SpliceSplice(view, a, LeBytes(x, 1), LeBytes(y, 1));
  }

  /** The two byte stores of writeFatEntry for an odd cluster of a 12-bit table. */
  lemma StoresOdd(g: Geometry, view: seq<byte>, c: nat, v: nat)
    requires EntryAddr(g, c) + 2 <= |view| && g.fsType == FAT12 && c % 2 == 1
    ensures var value := 16 * v + view[EntryAddr(g, c)] as int % 16;
            Splice(Splice(view, EntryAddr(g, c), LeBytes(value % 256, 1)), EntryAddr(g, c) + 1,
                LeBytes(value / 256 % 256, 1))
            == Written(g, view, c, v)
  {
    var value := 16 * v + view[EntryAddr(g, c)] as int % 16;
    TwoStores(view, EntryAddr(g, c), value % 256, value / 256 % 256);
  }

  /** The two byte stores of writeFatEntry for an even cluster of a 12-bit table. */
  lemma StoresEven(g: Geometry, view: seq<byte>, c: nat, v: nat)
    requires EntryAddr(g, c) + 2 <= |view| && g.fsType == FAT12 && c % 2 == 0
    ensures var old1 := view[EntryAddr(g, c) + 1] as int;
            Splice(Splice(view, EntryAddr(g, c), LeBytes(v, 1)), EntryAddr(g, c) + 1,
                LeBytes(v / 256 % 16 + (old1 - old1 % 16), 1))
            == Written(g, view, c, v)
  {
    var old1 := view[EntryAddr(g, c) + 1] as int;
    assert v / 256 % 16 + (old1 - old1 % 16) == v / 256 % 16 + 16 * (old1 / 16);
    TwoStores(view, EntryAddr(g, c), v, v / 256 % 16 + (old1 - old1 % 16));
  }

  /** An entry read back is the value written, cut to the width of an entry. */
  lemma RawOfWritten(g: Geometry, view: seq<byte>, c: nat, v: nat)
    requires EntryAddr(g, c) + g.EntrySize() <= |view|
    ensures Raw(g, Written(g, view, c, v), c) == v % RawLimit(g)
  {
    var d := EntryBytes(g, view, c, v);
    SubOfSplice(view, EntryAddr(g, c), d);
    match g.fsType
    case FAT32 => LeRoundTrip(v, 4);
    case FAT16 => LeRoundTrip(v, 2);
    case FAT12 => Nibbles(g, view, c, v);
  }

  lemma Nibbles(g: Geometry, view: seq<byte>, c: nat, v: nat)
    requires EntryAddr(g, c) + g.EntrySize() <= |view| && g.fsType == FAT12
    ensures var w := LeValue(EntryBytes(g, view, c, v));
            (if c % 2 == 1 then w / 16 else w % 4096) == v % 4096
  {
    hide EntryAddr;
    var a := EntryAddr(g, c);
    if c % 2 == 1 {
      LeRoundTrip(16 * v + view[a] as int % 16, 2);
      HighTwelve(v, view[a] as int % 16);
    } else {
      LowTwelve(v, view[a + 1] as int / 16);
    }
  }

  lemma HighTwelve(v: nat, low: nat)
    requires low < 16
    ensures (16 * v + low) % 0x1_0000 / 16 == v % 4096
  {
    CutWord(v / 4096, 16 * (v % 4096) + low);
  }

  lemma CutWord(q: nat, m: nat)
    requires m < 0x1_0000
    ensures (0x1_0000 * q + m) % 0x1_0000 == m
  {
  }

  lemma LowTwelve(v: nat, high: nat)
    requires high < 16
    ensures (v % 256 + 256 * (v / 256 % 16 + 16 * high)) % 4096 == v % 4096
    ensures (v / 256 % 16 + 16 * high) / 16 == high
  {
    var x := v / 256;
    assert v % 256 + 256 * (x % 16 + 16 * high) == (v % 256 + 256 * (x % 16)) + 4096 * high;
    assert v == v % 256 + 256 * (x % 16) + 4096 * (x / 16);
  }

  /** A 12-bit entry takes four bits from the byte it shares. */
  lemma TwelveBits(x: byte, y: byte)
    ensures (x as int + 256 * (y as int)) % 4096 == x as int + 256 * (y as int % 16)
    ensures (x as int + 256 * (y as int)) / 16 == x as int / 16 + 16 * (y as int)
  {
  }

  /** Every other entry reads as before, also the 12-bit neighbour that shares a byte. */
  lemma RawElsewhere(g: Geometry, view: seq<byte>, c: nat, v: nat, e: nat)
    requires EntryAddr(g, c) + g.EntrySize() <= |view| && EntryAddr(g, e) + g.EntrySize() <= |view|
    requires e != c
    ensures Raw(g, Written(g, view, c, v), e) == Raw(g, view, e)
  {
    hide EntryAddr, Mul, Splice, Sub, LeValue, LeBytes, EntryBytes;
    if g.fsType == FAT12 && e == c + 1 && c % 2 == 0 {
      NeighbourAbove(g, view, c, v);
    } else if g.fsType == FAT12 && c == e + 1 && e % 2 == 0 {
      NeighbourBelow(g, view, c, v);
    } else {
      EntriesApart(g, c, e);
      SubOutside(view, EntryAddr(g, c), EntryBytes(g, view, c, v), EntryAddr(g, e), g.EntrySize());
    }
  }

  /** Entries share a byte only if they are a pair of 12-bit ones. */
  lemma EntriesApart(g: Geometry, c: nat, e: nat)
    requires e != c && !(g.fsType == FAT12 && ((e == c + 1 && c % 2 == 0) || (c == e + 1 && e % 2 == 0)))
    ensures EntryAddr(g, c) + g.EntrySize() <= EntryAddr(g, e) || EntryAddr(g, e) + g.EntrySize() <= EntryAddr(g, c)
  {
    hide Mul;
    if g.fsType == FAT12 {
      if c < e {
        TwelveApart(c, e);
      } else {
        TwelveApart(e, c);
      }
    }
  }

  lemma TwelveApart(c: nat, e: nat)
    requires c < e && !(e == c + 1 && c % 2 == 0)
    ensures c * 3 / 2 + 2 <= e * 3 / 2
  {
    var a := c / 2;
    if c % 2 == 0 {
      assert c == 2 * a && e >= 2 * a + 2;
    } else {
      assert c == 2 * a + 1 && e >= 2 * a + 2;
    }
  }

  /** An odd and an even 12-bit entry in terms of its two bytes. */
  lemma OddRaw(g: Geometry, view: seq<byte>, c: nat)
    requires EntryAddr(g, c) + 2 <= |view| && g.fsType == FAT12 && c % 2 == 1
    ensures Raw(g, view, c) == view[EntryAddr(g, c)] as int / 16 + 16 * (view[EntryAddr(g, c) + 1] as int)
  {
    hide EntryAddr;
    TwelveBits(view[EntryAddr(g, c)], view[EntryAddr(g, c) + 1]);
  }

  lemma EvenRaw(g: Geometry, view: seq<byte>, c: nat)
    requires EntryAddr(g, c) + 2 <= |view| && g.fsType == FAT12 && c % 2 == 0
    ensures Raw(g, view, c) == view[EntryAddr(g, c)] as int + 256 * (view[EntryAddr(g, c) + 1] as int % 16)
  {
    hide EntryAddr;
    TwelveBits(view[EntryAddr(g, c)], view[EntryAddr(g, c) + 1]);
  }

  /** The byte an even entry shares keeps its high four bits, the one an odd entry shares its low four. */
  lemma SharedByte(g: Geometry, view: seq<byte>, c: nat, v: nat)
    requires EntryAddr(g, c) + 2 <= |view| && g.fsType == FAT12
    ensures var a, view' := EntryAddr(g, c), Written(g, view, c, v);
            (if c % 2 == 0 then view'[a + 1] as int / 16 == view[a + 1] as int / 16
                else view'[a] as int % 16 == view[a] as int % 16)
            && forall i :: 0 <= i < |view| && i != a && i != a + 1 ==> view'[i] == view[i]
  {
    hide EntryAddr;
    var a := EntryAddr(g, c);
    var view' := Written(g, view, c, v);
    assert view'[a] == EntryBytes(g, view, c, v)[0] && view'[a + 1] == EntryBytes(g, view, c, v)[1];
    if c % 2 == 0 {
      LowTwelve(v, view[a + 1] as int / 16);
    } else {
      LowNibble(v, view[a] as int % 16);
    }
  }

  lemma LowNibble(v: nat, low: nat)
    requires low < 16
    ensures (16 * v + low) % 256 % 16 == low
  {
    CutByte(v / 16, 16 * (v % 16) + low);
  }

  lemma CutByte(q: nat, m: nat)
    requires m < 256
    ensures (256 * q + m) % 256 == m
  {
  }

  /** An even 12-bit entry and the odd one behind it share a byte. */
  lemma Overlap(g: Geometry, c: nat)
    requires g.fsType == FAT12 && c % 2 == 0
    ensures EntryAddr(g, c + 1) == EntryAddr(g, c) + 1
  {
    ThreeHalves(c / 2);
  }

  lemma ThreeHalves(h: nat)
    ensures (2 * h) * 3 / 2 == 3 * h && (2 * h + 1) * 3 / 2 == 3 * h + 1
  {
  }

  /** The two byte reads of nextCluster for a 12-bit table. */
  lemma TwoReads(view: seq<byte>, a: nat)
    requires a + 2 <= |view|
    ensures LeValue(Sub(view, a, 2)) == LeValue(Sub(view, a, 1)) + 256 * LeValue(Sub(view, a + 1, 1))
  {
  }

  lemma NeighbourAbove(g: Geometry, view: seq<byte>, c: nat, v: nat)
    requires EntryAddr(g, c) + 2 <= |view| && EntryAddr(g, c + 1) + 2 <= |view|
    requires g.fsType == FAT12 && c % 2 == 0
    ensures Raw(g, Written(g, view, c, v), c + 1) == Raw(g, view, c + 1)
  {
    hide Raw, Written, EntryAddr;
    Overlap(g, c);
    SharedByte(g, view, c, v);
    OddRaw(g, view, c + 1);
    OddRaw(g, Written(g, view, c, v), c + 1);
  }

  lemma NeighbourBelow(g: Geometry, view: seq<byte>, c: nat, v: nat)
    requires EntryAddr(g, c) + 2 <= |view|
    requires g.fsType == FAT12 && c % 2 == 1
    ensures EntryAddr(g, c - 1) + 2 <= |view| && Raw(g, Written(g, view, c, v), c - 1) == Raw(g, view, c - 1)
  {
    hide Raw, Written, EntryAddr;
    Overlap(g, c - 1);
    SharedByte(g, view, c, v);
    EvenRaw(g, view, c - 1);
    EvenRaw(g, Written(g, view, c, v), c - 1);
  }

  /** The whole table: for every cluster the one linked from it. */
  function Table(g: Geometry, view: seq<byte>): (t: seq<nat>)
    requires IsVolume(g, view)
    ensures |t| == g.lastCluster + 1
  {
    seq(g.lastCluster + 1, c requires 0 <= c <= g.lastCluster =>
      EntryOnVolume(g, view, c);
      NextOf(g, view, c))
  }

  /** Writing a cluster number or EOF to an entry changes the table there and nowhere else. */
  lemma WriteIsUpdate(g: Geometry, view: seq<byte>, c: nat, v: nat)
    requires IsVolume(g, view) && g.IsValidCluster(c) && (v <= g.lastCluster || v == CLUSTER_EOF)
    ensures EntryAddr(g, c) + g.EntrySize() <= |view|
    ensures Table(g, Written(g, view, c, v)) == Table(g, view)[c := v]
  {
    EntryOnVolume(g, view, c);
    var view' := Written(g, view, c, v);
    forall e | 0 <= e <= g.lastCluster
      ensures Table(g, view')[e] == Table(g, view)[c := v][e]
    {
      EntryOnVolume(g, view, e);
      NextOfWritten(g, view, c, v, e);
    }
  }

  /** What nextCluster returns after a cluster number or EOF has been written to an entry. */
  lemma NextOfWritten(g: Geometry, view: seq<byte>, c: nat, v: nat, e: nat)
    requires g.Ok() && g.IsValidCluster(c) && (v <= g.lastCluster || v == CLUSTER_EOF)
    requires EntryAddr(g, c) + g.EntrySize() <= |view| && EntryAddr(g, e) + g.EntrySize() <= |view|
    ensures NextOf(g, Written(g, view, c, v), e) == if e == c then v else NextOf(g, view, e)
  {
    hide Written, Raw, EntryAddr;
    if e == c {
      RawOfWritten(g, view, c, v);
    } else {
      RawElsewhere(g, view, c, v, e);
    }
  }

  /** Writing an entry touches no byte behind the tables, and no byte before them. */
  lemma WriteStaysInTable(g: Geometry, view: seq<byte>, c: nat, v: nat)
    requires IsVolume(g, view) && c <= g.lastCluster
    ensures EntryAddr(g, c) + g.EntrySize() <= |view| && TableEnd(g) <= |view|
    ensures Written(g, view, c, v)[TableEnd(g)..] == view[TableEnd(g)..]
    ensures Written(g, view, c, v)[..Mul(g.fatStart, g.bps)] == view[..Mul(g.fatStart, g.bps)]
  {
    EntryOnVolume(g, view, c);
  }

  /** The table depends on the bytes before the root directory only. */
  lemma TableFrame(g: Geometry, view: seq<byte>, view': seq<byte>)
    requires IsVolume(g, view) && IsVolume(g, view')
    requires TableEnd(g) <= |view| ==> view[..TableEnd(g)] == view'[..TableEnd(g)]
    ensures Table(g, view) == Table(g, view')
  {
    forall e | 0 <= e <= g.lastCluster
      ensures Table(g, view')[e] == Table(g, view)[e]
    {
      EntryOnVolume(g, view, e);
      var a := EntryAddr(g, e);
      SubOfPrefix(view, TableEnd(g), a, g.EntrySize());
      SubOfPrefix(view', TableEnd(g), a, g.EntrySize());
    }
  }

  /** The sectors before the table in use, with the boot sector. */
  function FrontArea(g: Geometry, view: seq<byte>): seq<byte>
    requires Mul(g.fatStart, g.bps) <= |view|
  {
    view[..Mul(g.fatStart, g.bps)]
  }

  /** Nothing before the table in use and nothing behind the tables changes. */
  ghost predicate DataKept(g: Geometry, view: seq<byte>, view': seq<byte>) {
    && |view'| == |view| && TableEnd(g) <= |view| && view'[TableEnd(g)..] == view[TableEnd(g)..]
    && Mul(g.fatStart, g.bps) <= |view| && FrontArea(g, view') == FrontArea(g, view)
  }

  /** What one call of writeFatEntry does to the table and to the rest of the volume. */
  lemma WriteEffect(g: Geometry, view: seq<byte>, c: nat, v: nat)
    requires IsVolume(g, view) && g.IsValidCluster(c)
    ensures EntryAddr(g, c) + g.EntrySize() <= |view| && IsVolume(g, Written(g, view, c, v))
    ensures DataKept(g, view, Written(g, view, c, v))
    ensures v <= g.lastCluster || v == CLUSTER_EOF ==> Table(g, Written(g, view, c, v)) == Table(g, view)[c := v]
  {
    hide Written, Table, EntryAddr;
    WriteStaysInTable(g, view, c, v);
    if v <= g.lastCluster || v == CLUSTER_EOF {
      WriteIsUpdate(g, view, c, v);
    }
  }

  lemma TableAt(g: Geometry, view: seq<byte>, c: nat)
    requires IsVolume(g, view) && c <= g.lastCluster
    ensures EntryAddr(g, c) + g.EntrySize() <= |view| && Table(g, view)[c] == NextOf(g, view, c)
  {
    EntryOnVolume(g, view, c);
  }

  lemma Fits(g: Geometry, v: nat)
    requires v <= g.EofThreshold()
    ensures v % RawLimit(g) == v
  {
  }

  /** Linking a cluster to the number behind the table, as a search from a stale hint may do: the entry
      then leads out of the table, unless that number reads as the end of a chain. */
  lemma LinkBehindTable(g: Geometry, view: seq<byte>, c: nat)
    requires IsVolume(g, view) && g.IsValidCluster(c)
    ensures EntryAddr(g, c) + g.EntrySize() <= |view|
    ensures var t := Table(g, Written(g, view, c, g.lastCluster + 1));
            t[c] == (if g.lastCluster + 1 == g.EofThreshold() then CLUSTER_EOF else g.lastCluster + 1)
            && !(CLUSTER_FIRST <= t[c] < |t|)
  {
    hide Written, Raw, EntryAddr, Table, Mul, Div;
    EntryOnVolume(g, view, c);
    RawOfWritten(g, view, c, g.lastCluster + 1);
    Fits(g, g.lastCluster + 1);
    TableAt(g, Written(g, view, c, g.lastCluster + 1), c);
  }
}
