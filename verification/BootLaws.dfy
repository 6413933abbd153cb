/** What the layout of a mounted volume means in plain numbers (src/fat/partition.c): the fields of the boot
    sector byte by byte, what lies where on the volume, and the layouts of three real formats. */
module BootLaws {
  import opened Bytes
  import opened Arith
  import opened Volume

  /** The fields of the boot sector, byte by byte. */
  lemma FieldBytes(s: Sector)
    ensures var boot := BootOf(s);
            && boot.bytesPerSector == s[11] as int + 256 * (s[12] as int)
            && boot.sectorsPerCluster == s[13] as int
            && boot.reservedSectors == s[14] as int + 256 * (s[15] as int)
            && boot.numFATs == s[16] as int
            && boot.rootEntries == s[17] as int + 256 * (s[18] as int)
            && boot.numSectorsSmall == s[19] as int + 256 * (s[20] as int)
            && boot.sectorsPerFAT == s[22] as int + 256 * (s[23] as int)
            && boot.extFlags == s[40] as int
    ensures BootOf(s).numSectors
         == s[32] as int + 256 * (s[33] as int) + 0x1_0000 * (s[34] as int) + 0x100_0000 * (s[35] as int)
    ensures BootOf(s).sectorsPerFAT32
         == s[36] as int + 256 * (s[37] as int) + 0x1_0000 * (s[38] as int) + 0x100_0000 * (s[39] as int)
    ensures BootOf(s).rootClus
         == s[44] as int + 256 * (s[45] as int) + 0x1_0000 * (s[46] as int) + 0x100_0000 * (s[47] as int)
  {
    hide LeValue, Sub;
    LeTwo(s, 11);
    LeOne(s, 13);
    LeTwo(s, 14);
    LeOne(s, 16);
    LeTwo(s, 17);
    LeTwo(s, 19);
    LeTwo(s, 22);
    LeFour(s, 32);
    LeFour(s, 36);
    LeOne(s, 40);
    LeFour(s, 44);
  }

  /** Which sectors are mounted: 0x55 and 0xAA or 0xAB at the end of the first 512 bytes, "FAT" at one of its two
      places or the one signature that stands for it, and 512 to 4096 bytes a sector. */
  lemma MountedAre(s: Sector)
    ensures HasFatString(s) <==>
              (s[54] == 'F' as int && s[55] == 'A' as int && s[56] == 'T' as int)
              || (s[82] == 'F' as int && s[83] == 'A' as int && s[84] == 'T' as int)
    ensures Mountable(s) <==>
            && s[510] == 0x55 && (s[511] == 0xAA || s[511] == 0xAB)
            && (HasFatString(s) || s[..8] == [0xE9, 0, 0, 'T' as int, 'W' as int, 'L' as int, ' ' as int, ' ' as int])
            && 512 <= s[11] as int + 256 * (s[12] as int) <= 4096
  {
    FatStringAt(s, 54);
    FatStringAt(s, 82);
    LeTwo(s, 11);
    assert Sub(s, 0, 8) == s[..8];
  }

  lemma FatStringAt(s: Sector, at: nat)
    requires at + 3 <= 512
    ensures Sub(s, at, 3) == FAT_SIG <==> s[at] == 'F' as int && s[at + 1] == 'A' as int && s[at + 2] == 'T' as int
  {
    var t := Sub(s, at, 3);
    assert t[0] == s[at] && t[1] == s[at + 1] && t[2] == s[at + 2];
  }

  /** The copies of the table lie one behind the other up to the root directory, and the last one ends where that
      starts. The one in use is the first, unless a FAT32 volume names another. */
  lemma TablesFill(boot: BootSector, start: nat, k: nat, fat: nat)
    requires boot.Consistent(start) && k < boot.numFATs
    requires fat == if boot.sectorsPerFAT == 0 then boot.sectorsPerFAT32 else boot.sectorsPerFAT
    ensures var g := boot.Layout(start);
            && start + boot.reservedSectors + k * fat + fat <= g.rootDirStart
            && (k == boot.numFATs - 1 ==> start + boot.reservedSectors + k * fat + fat == g.rootDirStart)
            && g.fatStart == start + boot.reservedSectors
               + if g.fsType == FAT32 && boot.extFlags / 128 % 2 == 0 then boot.extFlags % 16 * fat else 0
  {
    hide Mul, Div;
    MulIsProduct(boot.numFATs, fat);
    MulIsProduct(boot.ActiveFat(), fat);
    Copies(boot.numFATs, k, fat);
  }

  lemma Copies(n: nat, k: nat, fat: nat)
    requires k < n
    ensures k * fat + fat <= n * fat && (k == n - 1 ==> k * fat + fat == n * fat)
  {
    ProductMono(k + 1, n, fat);
  }

  /** The root directory has the sectors of its entries, and the clusters fill what is left up to the end, with
      less than one cluster over. */
  lemma ClustersFill(boot: BootSector, start: nat)
    requires boot.Consistent(start)
    ensures var g := boot.Layout(start);
            && g.bps == boot.bytesPerSector && g.spc == boot.sectorsPerCluster
            && g.numberOfSectors == (if boot.numSectorsSmall == 0 then boot.numSectors else boot.numSectorsSmall)
            && g.end == start + g.numberOfSectors
            && g.dataStart + (g.lastCluster - 1) * g.spc <= g.end < g.dataStart + g.lastCluster * g.spc
    ensures var g := boot.Layout(start);
            && 0 <= 32 * boot.rootEntries - (g.dataStart - g.rootDirStart) * g.bps < g.bps
            && (32 * boot.rootEntries % g.bps == 0 ==> (g.dataStart - g.rootDirStart) * g.bps == 32 * boot.rootEntries)
  {
    hide Mul, Div;
    Floor(boot.TotalSectors() - boot.Overhead(), boot.sectorsPerCluster);
    Floor(32 * boot.rootEntries, boot.bytesPerSector);
  }

  lemma Floor(a: nat, n: nat)
    requires n > 0
    ensures Div(a, n) * n <= a < (Div(a, n) + 1) * n && a - Div(a, n) * n < n
    ensures a % n == 0 ==> Div(a, n) * n == a
  {
    DivModAreQuotientAndRemainder(a, n);
    assert a == a / n * n + a % n;
  }

  /** The number of clusters decides how wide an entry is. */
  lemma KindOf(boot: BootSector, start: nat)
    requires boot.Consistent(start)
    ensures var g := boot.Layout(start);
            && (g.fsType == FAT12 <==> g.lastCluster - 1 < 4085)
            && (g.fsType == FAT16 <==> 4085 <= g.lastCluster - 1 < 65525)
            && (g.fsType == FAT32 <==> 65525 <= g.lastCluster - 1)
            && g.rootDirCluster == if g.fsType == FAT32 then boot.rootClus else 0
  {
    hide Mul, Div;
  }

  /** Cluster 2 is the first behind the root directory, and the others follow in order. */
  lemma ClusterIsAt(g: Geometry, c: nat)
    ensures g.Bpc() == g.spc * g.bps
    ensures 2 <= c ==> g.ClusterToSector(c) == g.dataStart + (c - 2) * g.spc
    ensures g.ClusterToSector(0) == g.rootDirStart
    ensures g.IsValidCluster(c) <==> 2 <= c <= g.lastCluster
  {
    hide Mul;
    MulIsProduct(g.spc, g.bps);
    if 2 <= c {
      MulIsProduct(c - 2, g.spc);
    }
  }

  /** A 1.44 MB floppy disk. */
  lemma Floppy(boot: BootSector)
    requires boot == BootSector(512, 1, 1, 2, 224, 2880, 0, 9, 0, 0, 0)
    ensures boot.Consistent(0)
    ensures boot.Layout(0) == Geometry(FAT12, 512, 1, 1, 19, 33, 2880, 2848, 2880, 0)
  {
    hide Mul, Div;
    MulIsProduct(2, 9);
    MulIsProduct(0, 9);
    MulIsProduct(9, 512);
    DivModAreQuotientAndRemainder(7168, 512);
    DivModAreQuotientAndRemainder(2847, 1);
  }

  /** A 32 MB partition behind a partition table. */
  lemma Disk16(boot: BootSector)
    requires boot == BootSector(512, 4, 4, 2, 512, 0, 65536, 64, 0, 0, 0)
    ensures boot.Consistent(63)
    ensures boot.Layout(63) == Geometry(FAT16, 512, 4, 67, 195, 227, 65599, 16344, 65536, 0)
  {
    hide Mul, Div;
    MulIsProduct(2, 64);
    MulIsProduct(0, 64);
    MulIsProduct(64, 512);
    DivModAreQuotientAndRemainder(16384, 512);
    DivModAreQuotientAndRemainder(65372, 4);
  }

  /** An 8 GB partition that has switched to the second copy of its table. */
  lemma Disk32(boot: BootSector)
    requires boot == BootSector(512, 8, 32, 2, 0, 0, 16777216, 0, 16384, 2, 1)
    ensures boot.Consistent(2048)
    ensures boot.Layout(2048) == Geometry(FAT32, 512, 8, 18464, 34848, 34848, 16779264, 2093053, 16777216, 2)
  {
    hide Mul, Div;
    MulIsProduct(2, 16384);
    MulIsProduct(1, 16384);
    MulIsProduct(16384, 512);
    DivModAreQuotientAndRemainder(0, 512);
    DivModAreQuotientAndRemainder(16744416, 8);
  }
}
