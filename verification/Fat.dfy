/** The file allocation table of a mounted volume (src/fat/file_allocation_table.c): the entry codec and
    the chain operations, on the bytes of the cache. */
module Fat {
  import opened Bytes
  import opened Arith
  import opened Volume
  import opened FatCodec
  import opened Chains
  import opened SectorCache

  /** Sector and offset of a byte address behind the start of the table. */
  lemma Located(g: Geometry, view: seq<byte>, c: nat, k: nat)
    requires IsVolume(g, view) && c <= g.lastCluster + 1 && k < g.EntrySize()
    ensures var pos := g.EntryPos(c) + k;
            var sector, offset := g.fatStart + Div(pos, g.bps), Mod(pos, g.bps);
            sector < g.end && Mul(sector, g.bps) + offset == EntryAddr(g, c) + k
  {
    var pos := g.EntryPos(c) + k;
    SplitAddress(g.fatStart, pos, g.bps);
    EntryOnVolume(g, view, c);
    MulLess(g.fatStart + Div(pos, g.bps), g.end, g.bps);
  }

  lemma {:induction false} NextByte(pos: nat, n: nat)
    requires n > 1
    ensures if Mod(pos, n) + 1 < n then Div(pos + 1, n) == Div(pos, n) && Mod(pos + 1, n) == Mod(pos, n) + 1
            else Div(pos + 1, n) == Div(pos, n) + 1 && Mod(pos + 1, n) == 0
  {
    if pos >= n {
      NextByte(pos - n, n);
    }
  }

  /** A 16 or 32-bit entry does not straddle a sector. */
  lemma WholeEntry(g: Geometry, c: nat)
    requires g.Ok()
    ensures Mod(2 * c, g.bps) == 2 * Mod(c, g.bps / 2) && Mod(2 * c, g.bps) + 2 <= g.bps
    ensures Mod(4 * c, g.bps) == 4 * Mod(c, g.bps / 4) && Mod(4 * c, g.bps) + 4 <= g.bps
  {
    hide Mod;
    ModTwice(c, g.bps / 2);
    ModTwice(c, g.bps / 4);
    ModTwice(2 * c, g.bps / 2);
    assert 2 * (g.bps / 4) == g.bps / 2 && 2 * (g.bps / 2) == g.bps;
  }

  class Partition {
    const g: Geometry
    const cache: Cache
    var firstFree: nat
    var numberFreeCluster: nat
    var numberLastAllocCluster: nat

    /** Mounts the volume a boot sector describes, as partition_constructor fills in the fields. */
    constructor (disc: Disc, boot: BootSector, startSector: nat, cacheSize: nat, sectorsPerPage: nat)
      requires boot.Consistent(startSector) && disc.reliable
      requires disc.bps == boot.bytesPerSector && Mul(startSector + boot.TotalSectors(), disc.bps) <= |disc.bytes|
      ensures Valid() && g == boot.Layout(startSector) && fresh(cache.Repr - {disc}) && cache.disc == disc
      ensures cache.view == disc.bytes[..Mul(startSector + boot.TotalSectors(), disc.bps)]
      ensures firstFree == CLUSTER_FIRST && numberFreeCluster == numberLastAllocCluster == 0
    {
      hide Mul, Div;
      boot.LayoutIsOk(startSector);
      var sectorsPerFat := boot.sectorsPerFAT;
      if sectorsPerFat == 0 {
        sectorsPerFat := boot.sectorsPerFAT32;
      }
      var numberOfSectors := boot.numSectorsSmall;
      if numberOfSectors == 0 {
        numberOfSectors := boot.numSectors;
      }
      var bps, spc := boot.bytesPerSector, boot.sectorsPerCluster;
      var fatStart := startSector + boot.reservedSectors;
      var rootDirStart := fatStart + Mul(boot.numFATs, sectorsPerFat);
      var dataStart := rootDirStart + Div(boot.rootEntries * DIR_ENTRY_DATA_SIZE, bps);
      var clusterCount := Div(numberOfSectors - (dataStart - startSector), spc);
      var lastCluster := clusterCount + CLUSTER_FIRST - 1;
      var kind := if clusterCount < CLUSTERS_PER_FAT12 then FAT12
          else if clusterCount < CLUSTERS_PER_FAT16 then FAT16 else FAT32;
      var rootDirCluster := CLUSTER_ROOT;
      if kind == FAT32 {
        rootDirCluster := boot.rootClus;
        if boot.extFlags / 0x80 % 2 == 0 {
          fatStart := fatStart + Mul(boot.extFlags % 0x10, sectorsPerFat);
        }
      }
      MulZero(sectorsPerFat);
      g := Geometry(kind, bps, spc, fatStart, rootDirStart, dataStart, startSector + numberOfSectors, lastCluster,
                    numberOfSectors, rootDirCluster);
      cache := new Cache(cacheSize, sectorsPerPage, disc, startSector + numberOfSectors);
      firstFree, numberFreeCluster, numberLastAllocCluster := CLUSTER_FIRST, 0, 0;
    }

    ghost predicate Valid()
      reads this, cache, cache.Repr
    {
      && this !in cache.Repr && cache in cache.Repr
      && cache.Valid()
      && cache.disc.reliable
      && cache.sh.bps == g.bps && cache.sh.end == g.end
      && IsVolume(g, cache.view)
      && firstFree <= g.lastCluster + 1
    }

    ghost function T(): (t: seq<nat>)
      requires Valid()
      reads this, cache, cache.Repr
    {
      Table(g, cache.view)
    }

    method NextCluster(cluster: nat) returns (nextCluster: nat)
      requires Valid() && cluster <= g.lastCluster + 1
      modifies cache.Repr
      ensures Valid() && cache.view == old(cache.view)
      ensures EntryAddr(g, cluster) + g.EntrySize() <= |cache.view|
      ensures nextCluster == NextOf(g, cache.view, cluster)
      ensures T() == old(T()) && (cluster <= g.lastCluster ==> nextCluster == T()[cluster])
    {
      hide Cache.Valid, Table, EntryAddr;
      EntryOnVolume(g, cache.view, cluster);
      if cluster <= g.lastCluster {
        TableAt(g, cache.view, cluster);
      }
      if cluster == CLUSTER_FREE {
        return CLUSTER_FREE;
      }
      match g.fsType {
        case FAT12 =>
          nextCluster := NextCluster12(cluster);
        case FAT16 =>
          nextCluster := NextCluster16(cluster);
        case FAT32 =>
          nextCluster := NextCluster32(cluster);
      }
    }

    method NextCluster12(cluster: nat) returns (nextCluster: nat)
      requires Valid() && 0 < cluster <= g.lastCluster + 1 && g.fsType == FAT12
      modifies cache.Repr
      ensures Valid() && cache.view == old(cache.view)
      ensures EntryAddr(g, cluster) + 2 <= |cache.view|
      ensures nextCluster == NextOf(g, cache.view, cluster)
    {
      hide Cache.Valid, Mul, Div, Mod, Sub, LeValue, EntryAddr;
      EntryOnVolume(g, cache.view, cluster);
      TwoReads(cache.view, EntryAddr(g, cluster));
      Located(g, cache.view, cluster, 0);
      Located(g, cache.view, cluster, 1);
      NextByte(g.EntryPos(cluster), g.bps);
      var sector := g.fatStart + Div(cluster * 3 / 2, g.bps);
      var offset := Mod(cluster * 3 / 2, g.bps);
      var ok;
      ok, nextCluster := cache.ReadLittleEndianValue(sector, offset, 1);
      offset := offset + 1;
      if offset >= g.bps {
        offset := 0;
        sector := sector + 1;
      }
      var high;
      ok, high := cache.ReadLittleEndianValue(sector, offset, 1);
      nextCluster := nextCluster + 256 * high;
      if cluster % 2 == 1 {
        nextCluster := nextCluster / 16;
      } else {
        nextCluster := nextCluster % 0x1000;
      }
      if nextCluster >= 0x0FF7 {
        nextCluster := CLUSTER_EOF;
      }
    }

    method NextCluster16(cluster: nat) returns (nextCluster: nat)
      requires Valid() && 0 < cluster <= g.lastCluster + 1 && g.fsType == FAT16
      modifies cache.Repr
      ensures Valid() && cache.view == old(cache.view)
      ensures EntryAddr(g, cluster) + 2 <= |cache.view|
      ensures nextCluster == NextOf(g, cache.view, cluster)
    {
      hide Cache.Valid, Mul, Div, Mod;
      EntryOnVolume(g, cache.view, cluster);
      Located(g, cache.view, cluster, 0);
      WholeEntry(g, cluster);
      var sector := g.fatStart + Div(2 * cluster, g.bps);
      var offset := 2 * Mod(cluster, g.bps / 2);
      var ok;
      ok, nextCluster := cache.ReadLittleEndianValue(sector, offset, 2);
      if nextCluster >= 0xFFF7 {
        nextCluster := CLUSTER_EOF;
      }
    }

    method NextCluster32(cluster: nat) returns (nextCluster: nat)
      requires Valid() && 0 < cluster <= g.lastCluster + 1 && g.fsType == FAT32
      modifies cache.Repr
      ensures Valid() && cache.view == old(cache.view)
      ensures EntryAddr(g, cluster) + 4 <= |cache.view|
      ensures nextCluster == NextOf(g, cache.view, cluster)
    {
      hide Cache.Valid, Mul, Div, Mod;
      EntryOnVolume(g, cache.view, cluster);
      Located(g, cache.view, cluster, 0);
      WholeEntry(g, cluster);
      var sector := g.fatStart + Div(4 * cluster, g.bps);
      var offset := 4 * Mod(cluster, g.bps / 4);
      var ok;
      ok, nextCluster := cache.ReadLittleEndianValue(sector, offset, 4);
      if nextCluster >= 0x0FFF_FFF7 {
        nextCluster := CLUSTER_EOF;
      }
    }

    /** Writes one entry; refuses clusters outside the table. */
    method WriteFatEntry(cluster: nat, value: nat) returns (ok: bool)
      requires Valid()
      modifies cache.Repr
      ensures Valid() && ok == g.IsValidCluster(cluster)
      ensures ok ==> EntryAddr(g, cluster) + g.EntrySize() <= |old(cache.view)|
                     && cache.view == Written(g, old(cache.view), cluster, value)
      ensures ok && (value <= g.lastCluster || value == CLUSTER_EOF) ==> T() == old(T())[cluster := value]
      ensures DataKept(g, old(cache.view), cache.view)
      ensures !ok ==> cache.view == old(cache.view)
    {
      hide Cache.Valid, Written, EntryAddr, Table;
      EntryOnVolume(g, cache.view, g.lastCluster);
      if cluster < CLUSTER_FIRST || cluster > g.lastCluster {
        return false;
      }
      WriteEffect(g, cache.view, cluster, value);
      match g.fsType {
        case FAT12 =>
          if cluster % 2 == 1 {
            WriteOdd12(cluster, value);
          } else {
            WriteEven12(cluster, value);
          }
        case FAT16 =>
          Write16(cluster, value);
        case FAT32 =>
          Write32(cluster, value);
      }
      ok := true;
    }

    method Write16(cluster: nat, value: nat)
      requires Valid() && g.IsValidCluster(cluster) && g.fsType == FAT16
      modifies cache.Repr
      ensures EntryAddr(g, cluster) + 2 <= |old(cache.view)|
      ensures Valid() && cache.view == Written(g, old(cache.view), cluster, value)
    {
      hide Cache.Valid, Mul, Div, Mod, Splice, EntryAddr;
      EntryOnVolume(g, cache.view, cluster);
      Located(g, cache.view, cluster, 0);
      WholeEntry(g, cluster);
      var sector := g.fatStart + Div(2 * cluster, g.bps);
      var offset := 2 * Mod(cluster, g.bps / 2);
      var ok := cache.WriteLittleEndianValue(value, sector, offset, 2);
    }

    method Write32(cluster: nat, value: nat)
      requires Valid() && g.IsValidCluster(cluster) && g.fsType == FAT32
      modifies cache.Repr
      ensures EntryAddr(g, cluster) + 4 <= |old(cache.view)|
      ensures Valid() && cache.view == Written(g, old(cache.view), cluster, value)
    {
      hide Cache.Valid, Mul, Div, Mod, Splice, EntryAddr;
      EntryOnVolume(g, cache.view, cluster);
      Located(g, cache.view, cluster, 0);
      WholeEntry(g, cluster);
      var sector := g.fatStart + Div(4 * cluster, g.bps);
      var offset := 4 * Mod(cluster, g.bps / 4);
      var ok := cache.WriteLittleEndianValue(value, sector, offset, 4);
    }

    method WriteOdd12(cluster: nat, v: nat)
      requires Valid() && g.IsValidCluster(cluster) && g.fsType == FAT12 && cluster % 2 == 1
      modifies cache.Repr
      ensures EntryAddr(g, cluster) + 2 <= |old(cache.view)|
      ensures Valid() && cache.view == Written(g, old(cache.view), cluster, v)
    {
      hide Cache.Valid, Mul, Div, Mod, Splice, EntryAddr, Written, LeBytes, LeValue, Sub;
      EntryOnVolume(g, cache.view, cluster);
      Located(g, cache.view, cluster, 0);
      Located(g, cache.view, cluster, 1);
      NextByte(g.EntryPos(cluster), g.bps);
      var sector := g.fatStart + Div(cluster * 3 / 2, g.bps);
      var offset := Mod(cluster * 3 / 2, g.bps);
      LeOne(cache.view, EntryAddr(g, cluster));
      var ok, oldValue := cache.ReadLittleEndianValue(sector, offset, 1);
      var value := 16 * v + oldValue % 16;
      ok := cache.WriteLittleEndianValue(value % 256, sector, offset, 1);
      offset := offset + 1;
      if offset >= g.bps {
        offset := 0;
        sector := sector + 1;
      }
      ok := cache.WriteLittleEndianValue(value / 256 % 256, sector, offset, 1);
      StoresOdd(g, old(cache.view), cluster, v);
    }

    method WriteEven12(cluster: nat, v: nat)
      requires Valid() && g.IsValidCluster(cluster) && g.fsType == FAT12 && cluster % 2 == 0
      modifies cache.Repr
      ensures EntryAddr(g, cluster) + 2 <= |old(cache.view)|
      ensures Valid() && cache.view == Written(g, old(cache.view), cluster, v)
    {
      hide Cache.Valid, Mul, Div, Mod, Splice, EntryAddr, Written, LeBytes, LeValue, Sub;
      EntryOnVolume(g, cache.view, cluster);
      LeOne(cache.view, EntryAddr(g, cluster) + 1);
      Located(g, cache.view, cluster, 0);
      Located(g, cache.view, cluster, 1);
      NextByte(g.EntryPos(cluster), g.bps);
      var sector := g.fatStart + Div(cluster * 3 / 2, g.bps);
      var offset := Mod(cluster * 3 / 2, g.bps);
      var ok := cache.WriteLittleEndianValue(v, sector, offset, 1);
      offset := offset + 1;
      if offset >= g.bps {
        offset := 0;
        sector := sector + 1;
      }
      var oldValue;
      ok, oldValue := cache.ReadLittleEndianValue(sector, offset, 1);
      var value := v / 256 % 16 + (oldValue - oldValue % 16);
      ok := cache.WriteLittleEndianValue(value, sector, offset, 1);
      StoresEven(g, old(cache.view), cluster, v);
      SubOutside(old(cache.view), EntryAddr(g, cluster), LeBytes(v, 1), EntryAddr(g, cluster) + 1, 1);
    }

    /** The search of linkFreeCluster: forward from `start`, once round the end of the table. */
    method FindFree(start: nat) returns (firstFree: nat, found: bool)
      requires Valid() && CLUSTER_FIRST <= start <= g.lastCluster + 1
      modifies cache.Repr
      ensures Valid() && cache.view == old(cache.view) && T() == old(T())
      ensures EntryAddr(g, g.lastCluster + 1) + g.EntrySize() <= |cache.view|
      ensures start == g.lastCluster + 1 && NextOf(g, cache.view, g.lastCluster + 1) == CLUSTER_FREE
              ==> found && firstFree == g.lastCluster + 1
      ensures !(start == g.lastCluster + 1 && NextOf(g, cache.view, g.lastCluster + 1) == CLUSTER_FREE)
              ==>
                  if found then FirstFreeFrom(T(), start, firstFree)
                    else NoneFree(T()) && firstFree == g.lastCluster + 1
    {
      hide Cache.Valid, Table, NextOf, EntryAddr;
      EntryOnVolume(g, cache.view, g.lastCluster + 1);
      ghost var t := T();
      var loopedAroundFAT := false;
      firstFree := start;
      var next := NextCluster(firstFree);
      while next != CLUSTER_FREE
        invariant Valid() && cache.view == old(cache.view) && T() == t
        invariant firstFree <= g.lastCluster || (firstFree == g.lastCluster + 1 == start && !loopedAroundFAT)
        invariant firstFree <= g.lastCluster ==> InTable(t, firstFree) && next == t[firstFree]
        invariant firstFree == g.lastCluster + 1 ==> next == NextOf(g, cache.view, g.lastCluster + 1)
        invariant start == g.lastCluster + 1 && loopedAroundFAT ==>
                    NextOf(g, cache.view, g.lastCluster + 1) != CLUSTER_FREE
        invariant forall d :: start <= d < (if loopedAroundFAT then |t| else firstFree) ==> t[d] != CLUSTER_FREE
        invariant if loopedAroundFAT then forall d ::
                    CLUSTER_FIRST <= d < firstFree ==> t[d] != CLUSTER_FREE else start <= firstFree
        decreases !loopedAroundFAT, g.lastCluster + 2 - firstFree
      {
        firstFree := firstFree + 1;
        if firstFree > g.lastCluster {
          if loopedAroundFAT {
            return firstFree, false;
          }
          firstFree := CLUSTER_FIRST;
          loopedAroundFAT := true;
        }
        next := NextCluster(firstFree);
      }
      found := true;
    }

    /** The free-cluster counter is right. */
    ghost predicate Counted()
      requires Valid()
      reads this, cache, cache.Repr
    {
      numberFreeCluster == FreeCount(T())
    }

    /** The hint points behind the table, and what is stored there reads as free: then the search stops
        behind the table. */
    ghost predicate Overrun()
      requires Valid()
      reads this, cache, cache.Repr
    {
      && firstFree == g.lastCluster + 1
      && EntryAddr(g, g.lastCluster + 1) + g.EntrySize() <= |cache.view|
      && NextOf(g, cache.view, g.lastCluster + 1) == CLUSTER_FREE
    }

    function Hint(): (h: nat)
      reads this
      ensures h >= 2 && (firstFree >= 2 ==> h == firstFree)
    {
      if firstFree < CLUSTER_FIRST then CLUSTER_FIRST else firstFree
    }

    /** Takes the first free cluster from the hint on and links it from `cluster`, unless that already has
        a link. The contract tells all outcomes apart: refused, linked already, behind the table, none
        free, and a new cluster. */
    method LinkFreeCluster(cluster: nat) returns (r: nat)
      requires Valid()
      modifies this, cache.Repr
      ensures Valid() && DataKept(g, old(cache.view), cache.view)
      ensures cluster > g.lastCluster ==> r == 0xFFFF_FFFF
      ensures cluster <= g.lastCluster && InTable(old(T()), old(T())[cluster]) ==> r == old(T())[cluster]
      ensures cluster > g.lastCluster || InTable(old(T()), old(T())[cluster]) ==>
                cache.view == old(cache.view) && T() == old(T()) && firstFree == old(firstFree)
                && numberFreeCluster == old(numberFreeCluster)
      ensures cluster <= g.lastCluster && !InTable(old(T()), old(T())[cluster]) ==>
                if old(Overrun()) then
                  r == firstFree == numberLastAllocCluster == g.lastCluster + 1
                  && numberFreeCluster == (if old(numberFreeCluster) > 0 then old(numberFreeCluster) - 1 else 0)
                  && (g.IsValidCluster(cluster) ==> EntryAddr(g, cluster) + g.EntrySize() <= |old(cache.view)|)
                  && cache.view == (if g.IsValidCluster(cluster) then Written(g, old(cache.view), cluster,
                      r) else old(cache.view))
                else if NoneFree(old(T())) then
                  r == 0xFFFF_FFFF && T() == old(T()) && cache.view == old(cache.view)
                      && firstFree == g.lastCluster + 1
                  && numberFreeCluster == old(numberFreeCluster)
                else
                  FirstFreeFrom(old(T()), old(Hint()), r) && T() == LinkedTable(old(T()), cluster, r)
                  && firstFree == numberLastAllocCluster == r
                  && numberFreeCluster == if old(numberFreeCluster) > 0 then old(numberFreeCluster) - 1 else 0
    {
      hide Cache.Valid, Table, NextOf, EntryAddr, Written;
      EntryOnVolume(g, cache.view, g.lastCluster + 1);
      EntryOnVolume(g, cache.view, g.lastCluster);
      if cluster > g.lastCluster {
        return CLUSTER_ERROR;
      }
      EntryOnVolume(g, cache.view, cluster);
      var curLink := NextCluster(cluster);
      if CLUSTER_FIRST <= curLink <= g.lastCluster {
        return curLink;
      }
      var start := firstFree;
      if start < CLUSTER_FIRST {
        start := CLUSTER_FIRST;
      }
      var free, found := FindFree(start);
      if !found {
        firstFree := free;
        return CLUSTER_ERROR;
      }
      firstFree := free;
      if numberFreeCluster > 0 {
        numberFreeCluster := numberFreeCluster - 1;
      }
      numberLastAllocCluster := free;
      if CLUSTER_FIRST <= cluster <= g.lastCluster {
        var _ := WriteFatEntry(cluster, free);
      }
      var _ := WriteFatEntry(free, CLUSTER_EOF);
      r := free;
    }

    /** Frees the clusters linked from `cluster` on. Ends on every closed table, cyclic ones included. */
    method ClearLinks(cluster: nat) returns (ok: bool)
      requires Valid() && Closed(T())
      modifies this, cache.Repr
      ensures Valid() && DataKept(g, old(cache.view), cache.view) && ok == g.IsValidCluster(cluster)
      ensures numberLastAllocCluster == old(numberLastAllocCluster)
      ensures !ok ==> T() == old(T()) && firstFree == old(firstFree) && numberFreeCluster == old(numberFreeCluster)
      ensures ok ==> T() == ClearFrom(old(T()), cluster) && firstFree == Min(old(firstFree), cluster)
      ensures ok ==>
                numberFreeCluster == CountUp(old(numberFreeCluster), ClearSteps(old(T()), cluster),
                  Div(g.numberOfSectors, g.spc))
    {
      hide Cache.Valid, Table, EntryAddr, Written, Div;
      EntryOnVolume(g, cache.view, g.lastCluster);
      if cluster < CLUSTER_FIRST || cluster > g.lastCluster {
        return false;
      }
      if cluster < firstFree {
        firstFree := cluster;
      }
      ghost var t, n := T(), numberFreeCluster;
      ghost var rounds := 0;
      var c := cluster;
      while c != CLUSTER_EOF && c != CLUSTER_FREE && c != CLUSTER_ERROR
        invariant Valid() && Closed(T()) && DataKept(g, old(cache.view), cache.view)
        invariant InTable(T(), c) || c == CLUSTER_EOF || c == CLUSTER_FREE
        invariant ClearFrom(T(), c) == ClearFrom(t, cluster) && rounds + ClearSteps(T(), c) == ClearSteps(t, cluster)
        invariant numberFreeCluster == CountUp(n, rounds, Div(g.numberOfSectors, g.spc))
        invariant firstFree == Min(old(firstFree), cluster) && numberLastAllocCluster == old(numberLastAllocCluster)
        decreases ClearSteps(T(), c)
      {
        ghost var u := T();
        var nextCluster := NextCluster(c);
        var _ := WriteFatEntry(c, CLUSTER_FREE);
        ClearRound(u, c);
        if numberFreeCluster < Div(g.numberOfSectors, g.spc) {
          numberFreeCluster := numberFreeCluster + 1;
        }
        c, rounds := nextCluster, rounds + 1;
      }
      ok := true;
    }

    /** clearLinks on a chain frees exactly the chain and keeps the counter right. */
    method ClearChainLinks(cluster: nat, ghost ch: seq<nat>) returns (ok: bool)
      requires Valid() && Closed(T()) && IsChain(T(), ch) && ch[0] == cluster
      modifies this, cache.Repr
      ensures Valid() && DataKept(g, old(cache.view), cache.view) && ok
      ensures numberLastAllocCluster == old(numberLastAllocCluster)
      ensures T() == Freed(old(T()), ch) && Closed(T()) && firstFree == Min(old(firstFree), cluster)
      ensures old(Counted()) ==> Counted()
    {
      hide Cache.Valid, Table, EntryAddr, Div, Freed;
      ghost var t := T();
      ClearChain(t, ch);
      FreedCount(t, ch);
      ClearOnlyFrees(t, cluster, cluster);
      FreeBelowBound(Freed(t, ch), |t|);
      ok := ClearLinks(cluster);
    }

    /** Drops all clusters past the first `chainLength`; returns the last one kept. */
    method TrimChain(startCluster: nat, chainLength: nat, ghost ch: seq<nat>) returns (r: nat)
      requires Valid() && Closed(T()) && IsChain(T(), ch) && ch[0] == startCluster
      modifies this, cache.Repr
      ensures Valid() && Closed(T()) && DataKept(g, old(cache.view), cache.view) && firstFree <= old(firstFree)
      ensures chainLength == 0 ==> r == CLUSTER_FREE && T() == Freed(old(T()), ch)
      ensures chainLength > 0 ==>
                var k := Min(chainLength, |ch|);
                r == ch[k - 1] && T() == TrimmedTable(old(T()), ch, k) && IsChain(T(), ch[..k])
      ensures firstFree == if chainLength < |ch| then Min(old(firstFree), ch[chainLength]) else old(firstFree)
      ensures numberLastAllocCluster == old(numberLastAllocCluster)
      ensures old(Counted()) ==> Counted()
    {
      hide Cache.Valid, Table, EntryAddr, Div, Freed, Written, FreeCount;
      EntryOnVolume(g, cache.view, g.lastCluster);
      ghost var t := T();
      if chainLength == 0 {
        var _ := ClearChainLinks(startCluster, ch);
        return CLUSTER_FREE;
      }
      var start: nat, length: nat := startCluster, chainLength - 1;
      var nextCluster := NextCluster(start);
      ghost var i := 0;
      LinkOut(t, ch, 0);
      while length > 0 && nextCluster != CLUSTER_FREE && nextCluster != CLUSTER_EOF
        invariant Valid() && T() == t && cache.view == old(cache.view)
        invariant firstFree == old(firstFree) && numberFreeCluster == old(numberFreeCluster)
        invariant numberLastAllocCluster == old(numberLastAllocCluster)
        invariant i < |ch| && start == ch[i] && nextCluster == t[ch[i]] && i + length == chainLength - 1
      {
        LinkOut(t, ch, i);
        length := length - 1;
        start := nextCluster;
        i := i + 1;
        nextCluster := NextCluster(start);
      }
      LinkOut(t, ch, i);
      r := TrimAt(start, nextCluster, i + 1, ch);
    }

    /** The end of trimChain: frees what follows `start`, the `k`-th cluster, and makes it the last. */
    method TrimAt(start: nat, nextCluster: nat, ghost k: nat, ghost ch: seq<nat>) returns (r: nat)
      requires Valid() && Closed(T()) && IsChain(T(), ch) && 0 < k <= |ch| && start == ch[k - 1]
               && nextCluster == T()[start]
      modifies this, cache.Repr
      ensures Valid() && Closed(T()) && DataKept(g, old(cache.view), cache.view) && firstFree <= old(firstFree)
      ensures r == start && T() == TrimmedTable(old(T()), ch, k) && IsChain(T(), ch[..k])
      ensures firstFree == if k < |ch| then Min(old(firstFree), ch[k]) else old(firstFree)
      ensures numberLastAllocCluster == old(numberLastAllocCluster)
      ensures old(Counted()) ==> Counted()
    {
      hide Cache.Valid, Table, EntryAddr, Div, Freed, Written, FreeCount;
      EntryOnVolume(g, cache.view, g.lastCluster);
      ghost var t := T();
      LinkOut(t, ch, k - 1);
      TrimEffect(t, ch, k);
      FreedNone(t, ch);
      if nextCluster != CLUSTER_FREE && nextCluster != CLUSTER_EOF {
        var _ := ClearChainLinks(nextCluster, ch[k..]);
      }
      FreeCountUpdate(T(), start, CLUSTER_EOF);
      var _ := WriteFatEntry(start, CLUSTER_EOF);
      r := start;
    }

    method LastCluster(cluster: nat, ghost ch: seq<nat>) returns (r: nat)
      requires Valid() && ChainFrom(T(), cluster, ch)
      modifies cache.Repr
      ensures Valid() && T() == old(T()) && cache.view == old(cache.view)
      ensures r == if ch == [] then CLUSTER_FREE else ch[|ch| - 1]
    {
      hide Cache.Valid, Table, EntryAddr;
      ghost var t, i := T(), 0;
      r := cluster;
      if cluster != CLUSTER_FREE {
        LinkOut(t, ch, 0);
      }
      var next := NextCluster(r);
      while next != CLUSTER_FREE && next != CLUSTER_EOF
        invariant Valid() && T() == t && cache.view == old(cache.view)
        invariant ch == [] ==> r == CLUSTER_FREE && next == CLUSTER_FREE
        invariant ch != [] ==> i < |ch| && r == ch[i] && next == t[r]
        decreases |ch| - i
      {
        LinkOut(t, ch, i);
        LinkOut(t, ch, i + 1);
        r := next;
        i := i + 1;
        next := NextCluster(r);
      }
      if ch != [] {
        LinkOut(t, ch, i);
      }
    }

    method FreeClusterCount() returns (count: nat)
      requires Valid()
      modifies cache.Repr
      ensures Valid() && T() == old(T()) && cache.view == old(cache.view)
      ensures count == FreeCount(T())
    {
      hide Cache.Valid, Table, EntryAddr;
      count := 0;
      ghost var t := T();
      for curCluster := CLUSTER_FIRST to g.lastCluster + 1
        invariant Valid() && T() == t && cache.view == old(cache.view)
        invariant count == FreeBelow(t, curCluster)
      {
        var next := NextCluster(curCluster);
        if next == CLUSTER_FREE {
          count := count + 1;
        }
      }
    }
  }

  /** Mounts the partition at `startSector` from its boot sector, or refuses it. */
  method Mount(disc: Disc, startSector: nat, cacheSize: nat, sectorsPerPage: nat) returns (pt: Partition?)
    requires disc.reliable && 512 <= disc.bps && Mul(startSector, disc.bps) + disc.bps <= |disc.bytes|
    requires startSector != 0 || HasFatString(FirstSector(disc.bytes, startSector, disc.bps))
    requires Mountable(FirstSector(disc.bytes, startSector, disc.bps)) ==>
               var boot := BootOf(FirstSector(disc.bytes, startSector, disc.bps));
               boot.Consistent(startSector) && boot.bytesPerSector == disc.bps
               && Mul(startSector + boot.TotalSectors(), disc.bps) <= |disc.bytes|
    ensures pt == null <==> !Mountable(FirstSector(disc.bytes, startSector, disc.bps))
    ensures pt != null ==>
              fresh(pt) && fresh(pt.cache.Repr - {disc}) && pt.cache.disc == disc && pt.Valid()
              && pt.g == BootOf(FirstSector(disc.bytes, startSector, disc.bps)).Layout(startSector)
              && Mul(pt.g.end, pt.g.bps) <= |disc.bytes| && pt.cache.view == disc.bytes[..Mul(pt.g.end, pt.g.bps)]
              && pt.firstFree == CLUSTER_FIRST && pt.numberFreeCluster == 0
  {
    hide Mul, Mountable, BootSector.Consistent, BootSector.Layout, BootOf, Splice, Cache.Valid;
    var buf := new byte[disc.bps](_ => 0);
    MulOne(disc.bps);
    ghost var empty := buf[..];
    disc.ReadSectors(startSector, 1, buf);
    SpliceWhole(empty, FirstSector(disc.bytes, startSector, disc.bps));
    var sectorBuffer := buf[..];
    if !Mountable(sectorBuffer) {
      return null;
    }
    pt := new Partition(disc, BootOf(sectorBuffer), startSector, cacheSize, sectorsPerPage);
  }

  /** One round of clearLinks, also the last one on a cluster that was free. */
  lemma ClearRound(u: seq<nat>, c: nat)
    requires TableOk(u) && Closed(u) && InTable(u, c)
    ensures Closed(u[c := CLUSTER_FREE])
    ensures ClearFrom(u[c := CLUSTER_FREE], u[c]) == ClearFrom(u, c)
    ensures ClearSteps(u[c := CLUSTER_FREE], u[c]) + 1 == ClearSteps(u, c)
  {
    if u[c] == CLUSTER_FREE {
      assert u[c := CLUSTER_FREE] == u;
    } else {
      FreeStep(u, c);
    }
  }
}
