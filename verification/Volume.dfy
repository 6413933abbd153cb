/** The layout of a FAT volume: where the table, the root directory and the clusters are
    (src/fat/partition.c and src/fat/file_allocation_table.h). */
module Volume {
  import opened Bytes
  import opened Arith

  const CLUSTER_EOF: nat := 0x0FFF_FFFF
  const CLUSTER_FREE: nat := 0
  const CLUSTER_ROOT: nat := 0
  const CLUSTER_FIRST: nat := 2
  const CLUSTER_ERROR: nat := 0xFFFF_FFFF
  const CLUSTERS_PER_FAT12: nat := 4085
  const CLUSTERS_PER_FAT16: nat := 65525
  const DIR_ENTRY_DATA_SIZE: nat := 32
  const MAX_SECTORS: nat := 0xFFFF_FFFF

  datatype FsType = FAT12 | FAT16 | FAT32

  datatype Geometry = Geometry(
    fsType: FsType, bps: nat, spc: nat,
    fatStart: nat, rootDirStart: nat, dataStart: nat, end: nat,
    lastCluster: nat, numberOfSectors: nat, rootDirCluster: nat)
  {
    function Bpc(): nat {
      Mul(spc, bps)
    }

    /** Where the entry of a cluster starts in the table, in bytes. */
    function EntryPos(c: nat): nat {
      match fsType
      case FAT12 => c * 3 / 2
      case FAT16 => 2 * c
      case FAT32 => 4 * c
    }

    function EntrySize(): nat {
      if fsType == FAT32 then 4 else 2
    }

    /** From this value on an entry ends its chain. */
    function EofThreshold(): nat {
      match fsType
      case FAT12 => 0x0FF7
      case FAT16 => 0xFFF7
      case FAT32 => 0x0FFF_FFF7
    }

    predicate Ok() {
      && bps >= 512 && bps % 32 == 0
      && spc >= 1
      && fatStart <= rootDirStart <= dataStart
      && CLUSTER_FIRST <= lastCluster < EofThreshold()
      && dataStart + Mul(lastCluster - 1, spc) <= end <= MAX_SECTORS
      && Mul(fatStart, bps) + EntryPos(lastCluster) + EntrySize() <= Mul(rootDirStart, bps)
      && lastCluster - 1 <= Div(numberOfSectors, spc)
    }

    predicate IsValidCluster(c: nat) {
      CLUSTER_FIRST <= c <= lastCluster
    }

    function ClusterToSector(c: nat): nat {
      if c >= CLUSTER_FIRST then Mul(c - CLUSTER_FIRST, spc) + dataStart else rootDirStart
    }
  }

  /** A volume: a disc image of the right size. */
  predicate IsVolume(g: Geometry, view: seq<byte>) {
    g.Ok() && |view| == Mul(g.end, g.bps)
  }

  /** The fields of the boot sector that describe the layout. */
  datatype BootSector = BootSector(
    bytesPerSector: nat, sectorsPerCluster: nat, reservedSectors: nat, numFATs: nat, rootEntries: nat,
    numSectorsSmall: nat, numSectors: nat, sectorsPerFAT: nat, sectorsPerFAT32: nat, rootClus: nat, extFlags: nat)
  {
    function FatSectors(): nat {
      if sectorsPerFAT == 0 then sectorsPerFAT32 else sectorsPerFAT
    }

    function TotalSectors(): nat {
      if numSectorsSmall == 0 then numSectors else numSectorsSmall
    }

    /** Sectors before the first cluster. */
    function Overhead(): nat
      requires bytesPerSector > 0
    {
      reservedSectors + Mul(numFATs, FatSectors()) + Div(32 * rootEntries, bytesPerSector)
    }

    function ClusterCount(): nat
      requires bytesPerSector > 0 && sectorsPerCluster > 0 && Overhead() <= TotalSectors()
    {
      Div(TotalSectors() - Overhead(), sectorsPerCluster)
    }

    function Kind(): FsType
      requires bytesPerSector > 0 && sectorsPerCluster > 0 && Overhead() <= TotalSectors()
    {
      if ClusterCount() < CLUSTERS_PER_FAT12 then FAT12
      else if ClusterCount() < CLUSTERS_PER_FAT16 then FAT16
      else FAT32
    }

    /** Which copy of the table is in use. */
    function ActiveFat(): nat
      requires bytesPerSector > 0 && sectorsPerCluster > 0 && Overhead() <= TotalSectors()
    {
      if Kind() == FAT32 && extFlags / 0x80 % 2 == 0 then extFlags % 0x10 else 0
    }

    /** What the format asks of a volume at `start`: sectors of 512 to 4096 bytes, at least one cluster,
        and tables with an entry for every cluster. */
    predicate Consistent(start: nat) {
      && 512 <= bytesPerSector <= 4096 && bytesPerSector % 32 == 0 && sectorsPerCluster >= 1
      && Overhead() + sectorsPerCluster <= TotalSectors() && start + TotalSectors() <= MAX_SECTORS
      && ActiveFat() < numFATs
      && var last := ClusterCount() + 1;
         match Kind()
         case FAT12 => last * 3 / 2 + 2 <= Mul(FatSectors(), bytesPerSector)
         case FAT16 => 2 * last + 2 <= Mul(FatSectors(), bytesPerSector)
         case FAT32 => 4 * last + 4 <= Mul(FatSectors(), bytesPerSector) && last < 0x0FFF_FFF7
    }

    /** The layout the mount computes. */
    function Layout(start: nat): Geometry
      requires Consistent(start)
    {
      var fat0 := start + reservedSectors;
      var root := fat0 + Mul(numFATs, FatSectors());
      Geometry(Kind(), bytesPerSector, sectorsPerCluster,
               fat0 + Mul(ActiveFat(), FatSectors()), root, root + Div(32 * rootEntries, bytesPerSector),
               start + TotalSectors(), ClusterCount() + 1, TotalSectors(),
               if Kind() == FAT32 then rootClus else CLUSTER_ROOT)
    }

    /** A consistent boot sector gives a layout in which the table in use lies before the root directory
        and every cluster lies between the root directory and the end of the partition. */
    lemma LayoutIsOk(start: nat)
      requires Consistent(start)
      ensures Layout(start).Ok()
    {
      hide Mul, Div;
      var g := Layout(start);
      DivMod(TotalSectors() - Overhead(), sectorsPerCluster);
      DivMono(TotalSectors() - Overhead(), TotalSectors(), sectorsPerCluster);
      DivMono(sectorsPerCluster, TotalSectors() - Overhead(), sectorsPerCluster);
      DivSelf(sectorsPerCluster);
      TableFits(start);
    }

    lemma TableFits(start: nat)
      requires Consistent(start)
      ensures var g := Layout(start);
              g.fatStart <= g.rootDirStart
              && Mul(g.fatStart, g.bps) + g.EntryPos(g.lastCluster) + g.EntrySize() <= Mul(g.rootDirStart, g.bps)
    {
      hide Mul, Div;
      var g := Layout(start);
      MulApart(ActiveFat(), 1, numFATs, FatSectors());
      MulOne(FatSectors());
      MulApart(g.fatStart, FatSectors(), g.rootDirStart, g.bps);
    }
  }

  // Offsets in the boot sector
  const BPB_BYTES_PER_SECTOR: nat := 0x0B
  const BPB_SECTORS_PER_CLUSTER: nat := 0x0D
  const BPB_RESERVED_SECTORS: nat := 0x0E
  const BPB_NUM_FATS: nat := 0x10
  const BPB_ROOT_ENTRIES: nat := 0x11
  const BPB_NUM_SECTORS_SMALL: nat := 0x13
  const BPB_SECTORS_PER_FAT: nat := 0x16
  const BPB_NUM_SECTORS: nat := 0x20
  const BPB_FAT32_SECTORS_PER_FAT32: nat := 0x24
  const BPB_FAT32_EXT_FLAGS: nat := 0x28
  const BPB_FAT32_ROOT_CLUS: nat := 0x2C
  const BPB_FAT16_FILE_SYS_TYPE: nat := 0x36
  const BPB_FAT32_FILE_SYS_TYPE: nat := 0x52
  const BPB_BOOT_SIG_55: nat := 0x1FE
  const BPB_BOOT_SIG_AA: nat := 0x1FF

  const FAT_SIG: seq<byte> := [0x46, 0x41, 0x54]
  const FS_TWL_SIG: seq<byte> := [0xE9, 0x00, 0x00, 0x54, 0x57, 0x4C, 0x20, 0x20]

  type Sector = s: seq<byte> | |s| >= 512 witness Zeros(512)

  function FieldOf(s: Sector, at: nat, size: nat): nat
    requires (size == 1 || size == 2 || size == 4) && at + size <= 512
  {
    LeValue(Sub(s, at, size))
  }

  /** The fields as the mount reads them from the sector. */
  function BootOf(s: Sector): BootSector {
    BootSector(FieldOf(s, BPB_BYTES_PER_SECTOR, 2), FieldOf(s, BPB_SECTORS_PER_CLUSTER, 1),
      FieldOf(s, BPB_RESERVED_SECTORS, 2), FieldOf(s, BPB_NUM_FATS, 1), FieldOf(s, BPB_ROOT_ENTRIES, 2),
      FieldOf(s, BPB_NUM_SECTORS_SMALL, 2), FieldOf(s, BPB_NUM_SECTORS, 4), FieldOf(s, BPB_SECTORS_PER_FAT, 2),
      FieldOf(s, BPB_FAT32_SECTORS_PER_FAT32, 4), FieldOf(s, BPB_FAT32_ROOT_CLUS, 4),
      FieldOf(s, BPB_FAT32_EXT_FLAGS, 1))
  }

  predicate HasFatString(s: Sector) {
    Sub(s, BPB_FAT16_FILE_SYS_TYPE, 3) == FAT_SIG || Sub(s, BPB_FAT32_FILE_SYS_TYPE, 3) == FAT_SIG
  }

  /** The sector is signed as a boot sector of a supported kind. */
  predicate Mountable(s: Sector) {
    && s[BPB_BOOT_SIG_55] == 0x55 && (s[BPB_BOOT_SIG_AA] == 0xAA || s[BPB_BOOT_SIG_AA] == 0xAB)
    && (HasFatString(s) || Sub(s, 0, 8) == FS_TWL_SIG)
    && 512 <= BootOf(s).bytesPerSector <= 4096
  }

  /** The first sector of the partition at `start`. */
  function FirstSector(image: seq<byte>, start: nat, bps: nat): Sector
    requires 512 <= bps && Mul(start, bps) + bps <= |image|
  {
    Sub(image, Mul(start, bps), bps)
  }

  /** The image starts with a boot sector, in a reserved sector of its own, that describes the layout `g`. */
  predicate Describes(image: seq<byte>, start: nat, g: Geometry) {
    && 512 <= g.bps && Mul(start, g.bps) + g.bps <= |image|
    && var s := FirstSector(image, start, g.bps); var boot := BootOf(s);
       Mountable(s) && (start != 0 || HasFatString(s)) && boot.Consistent(start) && boot.Layout(start) == g
           && 1 <= boot.reservedSectors
  }

  /** A volume that keeps what is before the tables keeps its boot sector. */
  lemma DescribesFrame(image: seq<byte>, image': seq<byte>, start: nat, g: Geometry)
    requires Describes(image, start, g) && |image'| == |image| && Mul(g.fatStart, g.bps) <= |image|
    requires image'[..Mul(g.fatStart, g.bps)] == image[..Mul(g.fatStart, g.bps)]
    ensures Describes(image', start, g)
  {
    hide Mul, Div, BootSector.Consistent, Mountable;
    var n := Mul(g.fatStart, g.bps);
    BehindBoot(image, start, g);
    SubOfPrefix(image, n, Mul(start, g.bps), g.bps);
    SubOfPrefix(image', n, Mul(start, g.bps), g.bps);
  }

  /** So does a disc that goes on behind the partition. */
  lemma DescribesMore(image: seq<byte>, disc: seq<byte>, start: nat, g: Geometry)
    requires Describes(image, start, g) && image <= disc
    ensures Describes(disc, start, g)
  {
    hide Mul, Div, BootSector.Consistent, Mountable;
    assert disc[..|image|] == image;
    SubOfPrefix(disc, |image|, Mul(start, g.bps), g.bps);
  }

  lemma BehindBoot(image: seq<byte>, start: nat, g: Geometry)
    requires Describes(image, start, g)
    ensures Mul(start, g.bps) + g.bps <= Mul(g.fatStart, g.bps)
  {
    hide Mul, Div, BootSector.Consistent, Mountable;
    MulApart(start, 1, g.fatStart, g.bps);
    MulOne(g.bps);
  }

  lemma DivSelf(n: nat)
    requires n > 0
    ensures Div(n, n) == 1
  {
  }

  lemma MulOne(b: nat)
    ensures Mul(1, b) == b
  {
  }

  /** The sectors of a cluster lie in the data area, and those of different clusters lie apart. */
  lemma ClusterSectors(g: Geometry, c: nat, e: nat)
    requires g.Ok() && g.IsValidCluster(c) && g.IsValidCluster(e) && c < e
    ensures g.dataStart <= g.ClusterToSector(c)
    ensures g.ClusterToSector(c) + g.spc <= g.ClusterToSector(e) && g.ClusterToSector(e) + g.spc <= g.end
  {
    MulApart(c - 2, 1, e - 2, g.spc);
    MulApart(e - 2, 1, g.lastCluster - 1, g.spc);
    MulOne(g.spc);
  }
}
