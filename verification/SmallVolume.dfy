/** A small 12-bit volume of three clusters with one file of two clusters, byte by byte. */
module SmallVolume {
  import opened Bytes
  import opened Arith
  import opened Volume
  import opened FatCodec
  import opened Chains
  import opened FileData
  import opened DirEntry

  const SMALL: Geometry := Geometry(FAT12, 512, 1, 1, 2, 3, 6, 4, 6, CLUSTER_ROOT)

  /** The slot of the file's entry. */
  const SLOT: EntryPosition := EntryPosition(CLUSTER_ROOT, 0, 0)

  /** Boot sector, table, root directory and three clusters of one sector each. The file has 1024 bytes in the
      clusters 2 and 4; all are zero. Cluster 3 starts with a one; on a full volume it is in use. The root directory
      has the entry of the file, fourteen deleted slots, and the entry of an empty file. */
  function ImageByte(full: bool, i: nat): byte {
    // Boot sector
    if i == 0x0C then 2
    else if i == 0x0D || i == 0x0E || i == 0x10 then 1
    else if i == 0x11 then 16
    else if i == 0x13 then 6
    else if i == 0x16 then 1
    else if i == 0x36 then 0x46
    else if i == 0x37 then 0x41
    else if i == 0x38 then 0x54
    else if i == 0x1FE then 0x55
    else if i == 0x1FF then 0xAA
    // Table
    else if i == 515 then 4
    else if i == 516 then if full then 0xF0 else 0
    else if i == 517 then if full then 0xFF else 0
    else if i == 518 then 0xFF
    else if i == 519 then 0x0F
    // Entry of the file
    else if i == 1024 then 0x41
    else if i == 1050 then 2
    else if i == 1053 then 4
    // Deleted slots, and another entry in the last one
    else if 1056 <= i <= 1472 && i % 32 == 0 then 0xE5
    else if i == 1504 then 0x42
    // Clusters
    else if i == 2048 then 1
    else 0
  }

  function Image(full: bool): (v: seq<byte>)
    ensures |v| == 3072
  {
    seq(3072, i => if i < 0 then 0 else ImageByte(full, i))
  }

  lemma Products()
    ensures Mul(0, 512) == 0 && Mul(1, 512) == 512 && Mul(2, 512) == 1024 && Mul(3, 512) == 1536 && Mul(4, 512) == 2048
    ensures Mul(5, 512) == 2560 && Mul(6, 512) == 3072
    ensures Mul(0, 1) == 0 && Mul(1, 1) == 1 && Mul(2, 1) == 2 && Mul(3, 1) == 3
    ensures Div(512, 512) == 1 && Div(3, 1) == 3 && Div(6, 1) == 6 && Mod(512, 512) == 0
  {
    MulZero(512);
    MulSucc(0, 512);
    MulSucc(1, 512);
    MulSucc(2, 512);
    MulSucc(3, 512);
    MulSucc(4, 512);
    MulSucc(5, 512);
    MulIsProduct(2, 1);
    MulIsProduct(3, 1);
    DivModUnique(1, 512, 0);
    DivModUnique(3, 1, 0);
    MulIsProduct(6, 1);
    DivModUnique(6, 1, 0);
  }

  /** Where the clusters are. */
  lemma SmallIsOk(full: bool)
    ensures SMALL.Ok() && SMALL.Bpc() == 512 && IsVolume(SMALL, Image(full))
    ensures ClusterBase(SMALL, 2) == 1536 && ClusterBase(SMALL, 3) == 2048 && ClusterBase(SMALL, 4) == 2560
  {
    hide Mul, Div, Mod;
    Products();
  }

  /** The first sector of the image describes the volume. */
  lemma SmallIsDescribed(full: bool)
    ensures Describes(Image(full), 0, SMALL)
    ensures |Image(full)| == Mul(BootOf(FirstSector(Image(full), 0, 512)).TotalSectors(), 512)
  {
    hide Mul, Div, Mod, ImageByte, BootOf;
    Products();
    var s := FirstSector(Image(full), 0, 512);
    assert s == Image(full)[..512];
    SmallFields(full, s);
    SmallIsSigned(full, s);
  }

  lemma SmallIsSigned(full: bool, s: Sector)
    requires |Image(full)| == 3072 && s == Image(full)[..512]
    ensures HasFatString(s) && s[BPB_BOOT_SIG_55] == 0x55 && s[BPB_BOOT_SIG_AA] == 0xAA
  {
    var d := Sub(s, BPB_FAT16_FILE_SYS_TYPE, 3);
    assert d[0] == s[0x36] && d[1] == s[0x37] && d[2] == s[0x38];
    assert d == FAT_SIG;
  }

  lemma SmallFields(full: bool, s: Sector)
    requires |Image(full)| == 3072 && s == Image(full)[..512]
    ensures BootOf(s) == BootSector(512, 1, 1, 1, 16, 6, 0, 1, 0, 0, 0)
  {
    hide LeValue, Sub;
    LeTwo(s, BPB_BYTES_PER_SECTOR);
    LeOne(s, BPB_SECTORS_PER_CLUSTER);
    LeTwo(s, BPB_RESERVED_SECTORS);
    LeOne(s, BPB_NUM_FATS);
    LeTwo(s, BPB_ROOT_ENTRIES);
    LeTwo(s, BPB_NUM_SECTORS_SMALL);
    LeFour(s, BPB_NUM_SECTORS);
    LeTwo(s, BPB_SECTORS_PER_FAT);
    LeFour(s, BPB_FAT32_SECTORS_PER_FAT32);
    LeFour(s, BPB_FAT32_ROOT_CLUS);
    LeOne(s, BPB_FAT32_EXT_FLAGS);
  }

  /** The entries of the table: 2 leads to 4, which ends the file; 3 is free or the only cluster of another
      one. What would be the entry of cluster 5 reads as free. */
  lemma SmallTable(full: bool)
    ensures IsVolume(SMALL, Image(full)) && EntryAddr(SMALL, 5) + 2 <= |Image(full)|
    ensures var t := Table(SMALL, Image(full));
            |t| == 5 && t[2] == 4 && t[3] == (if full then CLUSTER_EOF else CLUSTER_FREE) && t[4] == CLUSTER_EOF
    ensures NextOf(SMALL, Image(full), 5) == CLUSTER_FREE
  {
    hide Mul, Div, Mod, LeValue, Sub;
    SmallIsOk(full);
    Products();
    var v := Image(full);
    TableAt(SMALL, v, 2);
    TableAt(SMALL, v, 3);
    TableAt(SMALL, v, 4);
    LeTwo(v, 515);
    LeTwo(v, 516);
    LeTwo(v, 518);
    LeTwo(v, 519);
  }

  /** The file and its entry. */
  lemma SmallFile(full: bool)
    ensures IsVolume(SMALL, Image(full)) && Closed(Table(SMALL, Image(full)))
    ensures IsChain(Table(SMALL, Image(full)), [2, 4]) && Clusters(SMALL, [2, 4])
    ensures OnVolume(SMALL, SLOT) && EntryAddress(SMALL, SLOT) == 1024
    ensures var e := Sub(Image(full), 1024, 32);
            SizeOf(e) == 1024 && StartOf(SMALL, e) == 2 && !IsDirectory(e) && IsWritable(e)
  {
    hide Mul, Div, Mod, Table;
    SmallTable(full);
    Products();
    var e := Sub(Image(full), 1024, 32);
    assert forall k :: 0 <= k < 32 ==> e[k] == Image(full)[1024 + k];
    LeFour(e, FILE_SIZE);
    LeTwo(e, CLUSTER_LOW);
  }

  /** The bytes of the clusters: cluster 3 is the only one that does not start with a zero. */
  lemma SmallBytes(full: bool)
    ensures IsVolume(SMALL, Image(full)) && Clusters(SMALL, [2, 4]) && SMALL.Bpc() == 512
    ensures |FileBytes(SMALL, Image(full), [2, 4])| == 1024 && FileBytes(SMALL, Image(full), [2, 4])[512] == 0
    ensures ClusterBytes(SMALL, Image(full), 3)[0] == 1
  {
    hide Mul, Div, Mod, Table, FileBytes;
    SmallIsOk(full);
    Products();
    var v := Image(full);
    ReadInCluster(SMALL, v, [2, 4], 1, 0, 1);
    assert Sub(v, 2560, 1)[0] == 0;
    assert Sub(FileBytes(SMALL, v, [2, 4]), 512, 1)[0] == FileBytes(SMALL, v, [2, 4])[512];
  }
}
