/** The allocation table in plain bytes and numbers (src/fat/file_allocation_table.c): what stands where, which
    values end a chain, and what a search for a free cluster finds. */
module FatLaws {
  import opened Bytes
  import opened Arith
  import opened Volume
  import opened FatCodec
  import opened Chains

  /** The entry of a 12-bit table: one and a half bytes a cluster. What is stored from 0xFF7 on ends a chain. */
  lemma NextInBytes12(g: Geometry, view: seq<byte>, c: nat, a: nat)
    requires IsVolume(g, view) && g.fsType == FAT12 && 0 < c <= g.lastCluster + 1
    requires a == g.fatStart * g.bps + 3 * (c / 2)
    ensures EntryAddr(g, c) + g.EntrySize() <= |view|
    ensures a + 2 + c % 2 <= |view|
            && var v := if c % 2 == 0 then view[a] as int + 256 * (view[a + 1] as int % 16)
                        else view[a + 1] as int / 16 + 16 * (view[a + 2] as int);
               NextOf(g, view, c) == if v < 0xFF7 then v else 0x0FFF_FFFF
  {
    hide Raw, Mul;
    MulIsProduct(g.fatStart, g.bps);
    EntryOnVolume(g, view, c);
    ThreeHalves(c / 2);
    if c % 2 == 0 {
      EvenRaw(g, view, c);
    } else {
      OddRaw(g, view, c);
    }
  }

  /** The entry of a 16-bit table. What is stored from 0xFFF7 on ends a chain. */
  lemma NextInBytes16(g: Geometry, view: seq<byte>, c: nat, a: nat)
    requires IsVolume(g, view) && g.fsType == FAT16 && 0 < c <= g.lastCluster + 1
    requires a == g.fatStart * g.bps + 2 * c
    ensures EntryAddr(g, c) + g.EntrySize() <= |view|
    ensures a + 2 <= |view|
            && var v := view[a] as int + 256 * (view[a + 1] as int);
               NextOf(g, view, c) == if v < 0xFFF7 then v else 0x0FFF_FFFF
  {
    hide LeValue, Sub, Mul;
    MulIsProduct(g.fatStart, g.bps);
    EntryOnVolume(g, view, c);
    LeTwo(view, EntryAddr(g, c));
  }

  /** The entry of a 32-bit table. What is stored from 0x0FFFFFF7 on ends a chain. */
  lemma NextInBytes32(g: Geometry, view: seq<byte>, c: nat, a: nat)
    requires IsVolume(g, view) && g.fsType == FAT32 && 0 < c <= g.lastCluster + 1
    requires a == g.fatStart * g.bps + 4 * c
    ensures EntryAddr(g, c) + g.EntrySize() <= |view|
    ensures a + 4 <= |view|
            && var v := view[a] as int + 256 * (view[a + 1] as int) + 0x1_0000 * (view[a + 2] as int)
                   + 0x100_0000 * (view[a + 3] as int);
               NextOf(g, view, c) == if v < 0x0FFF_FFF7 then v else 0x0FFF_FFFF
  {
    hide LeValue, Sub, Mul;
    MulIsProduct(g.fatStart, g.bps);
    EntryOnVolume(g, view, c);
    LeFour(view, EntryAddr(g, c));
  }

  /** The bytes a 12-bit entry is written to: eight bits in one, four in the half it has of the other. */
  lemma WrittenBytes12(g: Geometry, view: seq<byte>, c: nat, v: nat, a: nat)
    requires IsVolume(g, view) && g.fsType == FAT12 && c <= g.lastCluster && v < 0x1000
    requires a == g.fatStart * g.bps + 3 * (c / 2)
    ensures EntryAddr(g, c) + g.EntrySize() <= |view| && a + 2 + c % 2 <= |view|
    ensures var view' := Written(g, view, c, v);
            if c % 2 == 0 then
              view'[a] as int == v % 256 && view'[a + 1] as int == v / 256 + 16 * (view[a + 1] as int / 16)
                  && forall i :: 0 <= i < |view| && i != a && i != a + 1 ==> view'[i] == view[i]
            else
              view'[a + 1] as int == view[a + 1] as int % 16 + 16 * (v % 16) && view'[a + 2] as int == v / 16
                  && forall i :: 0 <= i < |view| && i != a + 1 && i != a + 2 ==> view'[i] == view[i]
  {
    hide Mul;
    MulIsProduct(g.fatStart, g.bps);
    EntryOnVolume(g, view, c);
    ThreeHalves(c / 2);
    if c % 2 == 0 {
      WrittenEven(g, view, c, v);
    } else {
      WrittenOdd(g, view, c, v);
    }
  }

  lemma WrittenEven(g: Geometry, view: seq<byte>, c: nat, v: nat)
    requires g.fsType == FAT12 && c % 2 == 0 && v < 0x1000 && EntryAddr(g, c) + 2 <= |view|
    ensures var view', a := Written(g, view, c, v), EntryAddr(g, c);
            view'[a] as int == v % 256 && view'[a + 1] as int == v / 256 + 16 * (view[a + 1] as int / 16)
                && forall i :: 0 <= i < |view| && i != a && i != a + 1 ==> view'[i] == view[i]
  {
    hide EntryAddr;
  }

  lemma WrittenOdd(g: Geometry, view: seq<byte>, c: nat, v: nat)
    requires g.fsType == FAT12 && c % 2 == 1 && v < 0x1000 && EntryAddr(g, c) + 2 <= |view|
    ensures var view', a := Written(g, view, c, v), EntryAddr(g, c);
            view'[a] as int == view[a] as int % 16 + 16 * (v % 16) && view'[a + 1] as int == v / 16
                && forall i :: 0 <= i < |view| && i != a && i != a + 1 ==> view'[i] == view[i]
  {
    hide EntryAddr;
    TwoBytes(v, view[EntryAddr(g, c)] as int % 16);
  }

  lemma TwoBytes(v: nat, low: nat)
    requires v < 0x1000 && low < 16
    ensures (16 * v + low) % 256 == low + 16 * (v % 16) && (16 * v + low) / 256 % 256 == v / 16
  {
    assert 16 * v + low == 256 * (v / 16) + (16 * (v % 16) + low);
  }

  /** The bytes a 16-bit or 32-bit entry is written to. */
  lemma WrittenBytes(g: Geometry, view: seq<byte>, c: nat, v: nat, a: nat, n: nat)
    requires IsVolume(g, view) && g.fsType != FAT12 && c <= g.lastCluster
    requires n == (if g.fsType == FAT16 then 2 else 4) && a == g.fatStart * g.bps + n * c
    ensures EntryAddr(g, c) + g.EntrySize() <= |view| && a + n <= |view|
    ensures var view' := Written(g, view, c, v);
            && view'[a] as int == v % 256 && view'[a + 1] as int == v / 256 % 256
            && (n == 4 ==> view'[a + 2] as int == v / 0x1_0000 % 256 && view'[a + 3] as int == v / 0x100_0000 % 256)
            && forall i :: 0 <= i < |view| && !(a <= i < a + n) ==> view'[i] == view[i]
  {
    hide Mul;
    MulIsProduct(g.fatStart, g.bps);
    EntryOnVolume(g, view, c);
  }

  /** The free clusters are those whose entry is zero, and the count is their number. */
  lemma FreeCountIs(t: seq<nat>)
    ensures FreeCount(t) == |set c | 2 <= c < |t| && t[c] == 0|
  {
    FreeBelowIs(t, |t|);
  }

  lemma {:induction false} FreeBelowIs(t: seq<nat>, n: nat)
    requires n <= |t|
    ensures FreeBelow(t, n) == |set c | 2 <= c < n && t[c] == 0|
  {
    var free := set c | 2 <= c < n && t[c] == 0;
    if n > 2 {
      FreeBelowIs(t, n - 1);
      var init := set c | 2 <= c < n - 1 && t[c] == 0;
      assert free == if t[n - 1] == 0 then init + {n - 1} else init;
    } else {
      assert free == {};
    }
  }

  /** What a search from the hint `h` finds: the lowest free cluster from `h` on, or if there is none, the lowest
      of all. It finds none exactly if there is none. */
  lemma SearchFinds(t: seq<nat>, h: nat)
    requires TableOk(t) && 2 <= h < |t|
    ensures var r := NextFree(t, h);
            (r < |t| <==> exists d :: 2 <= d < |t| && t[d] == 0)
            && (r < |t| ==>
                  t[r] == 0
                  && if r >= h then forall d :: h <= d < r ==> t[d] != 0
                     else 2 <= r && (forall d :: h <= d < |t| ==> t[d] != 0) && forall d :: 2 <= d < r ==> t[d] != 0)
    ensures forall r: nat :: r < |t| ==> (FirstFreeFrom(t, h, r) <==> r == NextFree(t, h))
  {
    var r := NextFree(t, h);
    if r < |t| {
      forall r': nat | FirstFreeFrom(t, h, r')
        ensures r' == r
      {
        NextFreeIs(t, h, r');
      }
    }
  }
}
