/**
  The FAT boot sector and directory entries (fs/fat.cpp): the packed
  on-disk structures, and the geometry `fat::try_read` computes from the
  boot sector - root directory size, first data sector, cluster count and
  FAT variant, as section 3.5 of the Microsoft FAT specification defines
  them.

  `try_read` logs what it computes and returns `false` on every path; the
  computed values are modelled as its outcome.  A division by zero (a
  boot sector with 0 bytes per sector or 0 sectors per cluster) is the
  `DivideFault` outcome.
 */
module Fat {
  import opened Bits
  import opened Layouts
  import opened Options
  import opened FatLayouts

  // ---------------------------------------------------------------------
  // On-disk structures

  /** `static_assert(sizeof(FatBootRecord) == 90)`. */
  lemma {:induction false} BootRecordSize()
    ensures LayoutSize(BOOT_RECORD_LAYOUT) == 90
  {
    assert SizeBetween(BOOT_RECORD_LAYOUT, 8, 15) == 69;
    assert SizeBetween(BOOT_RECORD_LAYOUT, 0, 15) == 90;
  }

  /** `static_assert(sizeof(FatHeader32) == 54)`. */
  lemma {:induction false} Fat32HeaderSize()
    ensures LayoutSize(FAT32_HEADER_LAYOUT) == 54
  {
    assert SizeBetween(FAT32_HEADER_LAYOUT, 7, 13) == 26;
    assert SizeBetween(FAT32_HEADER_LAYOUT, 0, 13) == 54;
  }

  /** `static_assert(sizeof(FatHeader16) == 26)`. */
  lemma {:induction false} Fat16HeaderSize()
    ensures LayoutSize(FAT16_HEADER_LAYOUT) == 26
  {
    assert SizeBetween(FAT16_HEADER_LAYOUT, 0, 6) == 26;
  }

  /** `static_assert(sizeof(FileEntry) == 32)`. */
  lemma {:induction false} FileEntrySize()
    ensures LayoutSize(FILE_ENTRY_LAYOUT) == 32
  {
    assert SizeBetween(FILE_ENTRY_LAYOUT, 6, 12) == 14;
    assert SizeBetween(FILE_ENTRY_LAYOUT, 0, 12) == 32;
  }

  /** `static_assert(sizeof(LongNameEntry) == 32)`. */
  lemma {:induction false} LongNameEntrySize()
    ensures LayoutSize(LONG_NAME_ENTRY_LAYOUT) == 32
  {
    assert SizeBetween(LONG_NAME_ENTRY_LAYOUT, 9, 18) == 18;
    assert SizeBetween(LONG_NAME_ENTRY_LAYOUT, 0, 18) == 32;
  }

  /** Both kinds of directory entry keep the attribute byte at offset 11, which tells them apart. */
  lemma {:induction false} AttributesShareOffset()
    ensures FILE_ENTRY_LAYOUT[1] == UInt(1) && Offset(FILE_ENTRY_LAYOUT, 1) == 11
    ensures LONG_NAME_ENTRY_LAYOUT[6] == UInt(1) && Offset(LONG_NAME_ENTRY_LAYOUT, 6) == 11
  {
    assert SizeBetween(FILE_ENTRY_LAYOUT, 0, 1) == 11;
    assert SizeBetween(LONG_NAME_ENTRY_LAYOUT, 0, 6) == 11;
  }

  /** Where the cluster halves and the size sit in a short-name entry. */
  lemma {:induction false} FileEntryFieldOffsets()
    ensures Offset(FILE_ENTRY_LAYOUT, 7) == 20 && Offset(FILE_ENTRY_LAYOUT, 10) == 26
    ensures Offset(FILE_ENTRY_LAYOUT, 11) == 28
  {
    var l := FILE_ENTRY_LAYOUT;
    assert SizeBetween(l, 0, 7) == 20;
    assert SizeBetween(l, 7, 11) == 8;
    assert SizeBetween(l, 0, 10) == 26 && SizeBetween(l, 0, 11) == 28;
  }

  /** `FileAttr::LONG_NAME`: read-only, hidden, system and volume id together. */
  const LONG_NAME_ATTR: u8 := 0x0f

  /** The fields of `FatBootRecord`, with the FAT12/16 or FAT32 header as its raw bytes. */
  datatype BootRecord = BootRecord(
    bootJump: seq<u8>,
    oemName: seq<u8>,
    bytesPerSector: u16,
    sectorsPerCluster: u8,
    reservedSectorCount: u16,
    fatCount: u8,
    rootEntryCount: u16,
    totalSectors16: u16,
    mediaType: u8,
    sectorsPerFat: u16,
    sectorsPerTrack: u16,
    headSideCount: u16,
    hiddenSectorCount: u32,
    totalSectors32: u32,
    header: seq<u8>)
  {
    /** The arrays have their declared lengths. */
    predicate Valid()
    {
      |bootJump| == 3 && |oemName| == 8 && |header| == 54
    }
  }

  /** What `AllFit` says about each field of a boot record, field by field. */
  predicate BootRecordFits(vs: seq<Value>)
  {
    |vs| == 15 &&
    Fits(vs[0], Bytes(3)) && Fits(vs[1], Bytes(8)) && IsU16(vs[2]) && IsU8(vs[3]) &&
    IsU16(vs[4]) && IsU8(vs[5]) && IsU16(vs[6]) && IsU16(vs[7]) &&
    IsU8(vs[8]) && IsU16(vs[9]) && IsU16(vs[10]) && IsU16(vs[11]) &&
    IsU32(vs[12]) && IsU32(vs[13]) && Fits(vs[14], Bytes(54))
  }

  lemma {:induction false} BootRecordFitsIff(vs: seq<Value>)
    ensures AllFit(vs, BOOT_RECORD_LAYOUT) <==> BootRecordFits(vs)
  {
    var l := BOOT_RECORD_LAYOUT;
    forall v | v in vs {
      FitsWidths(v);
    }
    if AllFit(vs, l) {
      assert Fits(vs[0], l[0]) && Fits(vs[1], l[1]) && Fits(vs[2], l[2]) && Fits(vs[3], l[3]);
      assert Fits(vs[4], l[4]) && Fits(vs[5], l[5]) && Fits(vs[6], l[6]) && Fits(vs[7], l[7]);
      assert Fits(vs[8], l[8]) && Fits(vs[9], l[9]) && Fits(vs[10], l[10]) && Fits(vs[11], l[11]);
      assert Fits(vs[12], l[12]) && Fits(vs[13], l[13]) && Fits(vs[14], l[14]);
    }
  }

  function BootRecordOf(vs: seq<Value>): (r: BootRecord)
    requires BootRecordFits(vs)
    ensures r.Valid()
  {
    BootRecord(vs[0].bs, vs[1].bs, U16Of(vs[2]), U8Of(vs[3]), U16Of(vs[4]), U8Of(vs[5]),
               U16Of(vs[6]), U16Of(vs[7]), U8Of(vs[8]), U16Of(vs[9]), U16Of(vs[10]),
               U16Of(vs[11]), U32Of(vs[12]), U32Of(vs[13]), vs[14].bs)
  }

  function ValuesOf(r: BootRecord): (vs: seq<Value>)
    requires r.Valid()
    ensures BootRecordFits(vs)
  {
    [Raw(r.bootJump), Raw(r.oemName), Num(r.bytesPerSector), Num(r.sectorsPerCluster),
     Num(r.reservedSectorCount), Num(r.fatCount), Num(r.rootEntryCount), Num(r.totalSectors16),
     Num(r.mediaType), Num(r.sectorsPerFat), Num(r.sectorsPerTrack), Num(r.headSideCount),
     Num(r.hiddenSectorCount), Num(r.totalSectors32), Raw(r.header)]
  }

  /** The fields of the first 90 bytes of a sector. */
  function BootRecordValues(sector: seq<u8>): (vs: seq<Value>)
    requires |sector| >= 90
    ensures BootRecordFits(vs)
  {
    BootRecordSize();
    var vs := Decode(sector[..90], BOOT_RECORD_LAYOUT);
    BootRecordFitsIff(vs);
    vs
  }

  /** The boot record a sector holds: `*reinterpret_cast<const FatBootRecord*>(sector)`. */
  function DecodeBootRecord(sector: seq<u8>): (r: BootRecord)
    requires |sector| >= 90
    ensures r.Valid()
  {
    BootRecordOf(BootRecordValues(sector))
  }

  /** The 90 bytes a boot record occupies. */
  function EncodeBootRecord(r: BootRecord): (bs: seq<u8>)
    requires r.Valid()
    ensures |bs| == 90
  {
    BootRecordSize();
    BootRecordFitsIff(ValuesOf(r));
    Encode(ValuesOf(r), BOOT_RECORD_LAYOUT)
  }

  /** Writing a boot record and reading it back gives the same record. */
  lemma {:induction false} BootRecordRoundTrip(r: BootRecord)
    requires r.Valid()
    ensures DecodeBootRecord(EncodeBootRecord(r)) == r
  {
    var bs := EncodeBootRecord(r);
    assert bs[..90] == bs;
    BootRecordFitsIff(ValuesOf(r));
    DecodeEncode(ValuesOf(r), BOOT_RECORD_LAYOUT);
    ValuesOfBootRecord(r);
  }

  lemma {:induction false} ValuesOfBootRecord(r: BootRecord)
    requires r.Valid()
    ensures BootRecordOf(ValuesOf(r)) == r
  {
  }

  /** Reading the boot record of a sector and writing it back gives the sector's first 90 bytes. */
  lemma {:induction false} SectorRoundTrip(sector: seq<u8>)
    requires |sector| >= 90
    ensures EncodeBootRecord(DecodeBootRecord(sector)) == sector[..90]
  {
    BootRecordSize();
    BootRecordOfValues(BootRecordValues(sector));
    EncodeDecode(sector[..90], BOOT_RECORD_LAYOUT);
  }

  lemma {:induction false} BootRecordOfValues(vs: seq<Value>)
    requires BootRecordFits(vs)
    ensures ValuesOf(BootRecordOf(vs)) == vs
  {
  }

  /** Integer field `i` of a boot record, `w` bytes wide, is read from the sector bytes at offset `o`. */
  lemma BootRecordUIntAt(sector: seq<u8>, i: nat, o: nat, w: nat)
    requires |sector| >= 90 && i < 15 && BOOT_RECORD_LAYOUT[i] == UInt(w)
    requires SizeBetween(BOOT_RECORD_LAYOUT, 0, i) == o
    ensures o + w <= 90
    ensures BootRecordValues(sector)[i] == Num(LeValue(sector[o..o + w]))
  {
    BootRecordSize();
    UIntAt(sector, BOOT_RECORD_LAYOUT, i, o, w);
  }

  /** The same for a one-byte field: it holds the byte at offset `o`. */
  lemma BootRecordByteAt(sector: seq<u8>, i: nat, o: nat)
    requires |sector| >= 90 && i < 15 && BOOT_RECORD_LAYOUT[i] == UInt(1)
    requires SizeBetween(BOOT_RECORD_LAYOUT, 0, i) == o
    ensures o < 90
    ensures BootRecordValues(sector)[i] == Num(sector[o])
  {
    BootRecordSize();
    ByteAt(sector, BOOT_RECORD_LAYOUT, i, o);
  }

  /** Bytes per sector at offset 11, sectors per cluster at 13. */
  lemma {:induction false} BootRecordClusterOffsets(sector: seq<u8>)
    requires |sector| >= 90
    ensures var r := DecodeBootRecord(sector);
            r.bytesPerSector == LeValue(sector[11..13]) && r.sectorsPerCluster == sector[13]
  {
    assert SizeBetween(BOOT_RECORD_LAYOUT, 0, 2) == 11 && SizeBetween(BOOT_RECORD_LAYOUT, 0, 3) == 13;
    BootRecordUIntAt(sector, 2, 11, 2);
    BootRecordByteAt(sector, 3, 13);
    assert DecodeBootRecord(sector) == BootRecordOf(BootRecordValues(sector));
  }

  /** Reserved sectors at offset 14, FAT count at 16, root entries at 17. */
  lemma {:induction false} BootRecordRegionOffsets(sector: seq<u8>)
    requires |sector| >= 90
    ensures var r := DecodeBootRecord(sector);
            r.reservedSectorCount == LeValue(sector[14..16]) && r.fatCount == sector[16] &&
            r.rootEntryCount == LeValue(sector[17..19])
  {
    assert SizeBetween(BOOT_RECORD_LAYOUT, 0, 4) == 14 && SizeBetween(BOOT_RECORD_LAYOUT, 0, 5) == 16;
    assert SizeBetween(BOOT_RECORD_LAYOUT, 0, 6) == 17;
    BootRecordUIntAt(sector, 4, 14, 2);
    BootRecordByteAt(sector, 5, 16);
    BootRecordUIntAt(sector, 6, 17, 2);
    assert DecodeBootRecord(sector) == BootRecordOf(BootRecordValues(sector));
  }

  /** The 16-bit total at offset 19, the 16-bit FAT size at 22. */
  lemma {:induction false} BootRecordSmallSizeOffsets(sector: seq<u8>)
    requires |sector| >= 90
    ensures var r := DecodeBootRecord(sector);
            r.totalSectors16 == LeValue(sector[19..21]) && r.sectorsPerFat == LeValue(sector[22..24])
  {
    assert SizeBetween(BOOT_RECORD_LAYOUT, 0, 7) == 19 && SizeBetween(BOOT_RECORD_LAYOUT, 0, 9) == 22;
    BootRecordUIntAt(sector, 7, 19, 2);
    BootRecordUIntAt(sector, 9, 22, 2);
    assert DecodeBootRecord(sector) == BootRecordOf(BootRecordValues(sector));
  }

  /** The 32-bit total at offset 32, and the header union from 36 to the end. */
  lemma {:induction false} BootRecordLargeSizeOffsets(sector: seq<u8>)
    requires |sector| >= 90
    ensures var r := DecodeBootRecord(sector);
            r.totalSectors32 == LeValue(sector[32..36]) && r.header == sector[36..90]
  {
    assert SizeBetween(BOOT_RECORD_LAYOUT, 9, 13) == 10;
    assert SizeBetween(BOOT_RECORD_LAYOUT, 0, 13) == 32 && SizeBetween(BOOT_RECORD_LAYOUT, 0, 14) == 36;
    BootRecordUIntAt(sector, 13, 32, 4);
    BootRecordSize();
    BytesAt(sector, BOOT_RECORD_LAYOUT, 14, 36, 54);
    assert DecodeBootRecord(sector) == BootRecordOf(BootRecordValues(sector));
  }

  /** `header.fat32.sectors_per_fat`: the first four bytes of the header union. */
  function Fat32SectorsPerFat(r: BootRecord): (n: u32)
    requires r.Valid()
    ensures n == LeValue(r.header[..4])
  {
    Fat32HeaderSize();
    DecodeFieldAt(r.header, FAT32_HEADER_LAYOUT, 0, 0);
    FitsWidths(Decode(r.header, FAT32_HEADER_LAYOUT)[0]);
    U32Of(Decode(r.header, FAT32_HEADER_LAYOUT)[0])
  }

  // ---------------------------------------------------------------------
  // Geometry

  datatype FatType = Fat12 | Fat16 | Fat32

  /** `total_clusters < 4085` is FAT12, `< 65525` FAT16, anything more FAT32. */
  function FatTypeOf(totalClusters: nat): (t: FatType)
    ensures t == Fat12 <==> totalClusters < 4085
    ensures t == Fat32 <==> totalClusters >= 65525
  {
    if totalClusters < 4085 then Fat12
    else if totalClusters < 65525 then Fat16
    else Fat32
  }

  function Rank(t: FatType): nat
  {
    match t
    case Fat12 => 12
    case Fat16 => 16
    case Fat32 => 32
  }

  /** More clusters never give a smaller FAT variant. */
  lemma {:induction false} FatTypeMonotone(a: nat, b: nat)
    requires a <= b
    ensures Rank(FatTypeOf(a)) <= Rank(FatTypeOf(b))
  {
  }

  /** The boundaries lie exactly between 4084 and 4085, and between 65524 and 65525. */
  lemma {:induction false} FatTypeBoundaries()
    ensures FatTypeOf(4084) == Fat12 && FatTypeOf(4085) == Fat16
    ensures FatTypeOf(65524) == Fat16 && FatTypeOf(65525) == Fat32
  {
  }

  /** What `try_read` computes. */
  datatype Geometry = Geometry(
    totalSectors: u32,
    fatSize: u32,
    rootDirSectors: nat,
    firstDataSector: u32,
    firstFatSector: u32,
    dataSectors: u32,
    totalClusters: u32,
    fatType: FatType)

  datatype GeometryResult = Computed(geometry: Geometry) | DivideFault

  /** `total_sectors_16`, or `total_sectors_32` when that is 0. */
  function TotalSectors(r: BootRecord): (n: u32)
    ensures r.totalSectors16 != 0 ==> n == r.totalSectors16
    ensures r.totalSectors16 == 0 ==> n == r.totalSectors32
  {
    if r.totalSectors16 == 0 then r.totalSectors32 else r.totalSectors16
  }

  /** The 16-bit `sectors_per_fat`, or the FAT32 header's when that is 0. */
  function FatSize(r: BootRecord): (n: u32)
    requires r.Valid()
    ensures r.sectorsPerFat != 0 ==> n == r.sectorsPerFat
    ensures r.sectorsPerFat == 0 ==> n == LeValue(r.header[..4])
  {
    if r.sectorsPerFat == 0 then Fat32SectorsPerFat(r) else r.sectorsPerFat
  }

  /** `(root_entry_count * 32 + bytes_per_sector - 1) / bytes_per_sector`, in `int`. */
  function RootDirSectors(rootEntryCount: u16, bytesPerSector: u16): (n: nat)
    requires bytesPerSector > 0
    ensures n * bytesPerSector >= rootEntryCount * 32
    ensures (n - 1) * bytesPerSector < rootEntryCount * 32 || (n == 0 && rootEntryCount == 0)
  {
    var e := rootEntryCount * 32;
    var n := (e + bytesPerSector - 1) / bytesPerSector;
    DivUnique(e + bytesPerSector - 1, bytesPerSector, n, (e + bytesPerSector - 1) % bytesPerSector);
    n
  }

  /**
    The geometry of `try_read`.  `fat_count * fat_size` and the sums after
    it are `uint32_t` arithmetic, and so is `total_sectors -
    first_data_sector`: each wraps modulo `2^32`.
   */
  function ComputeGeometry(r: BootRecord): (g: GeometryResult)
    requires r.Valid()
    ensures g == DivideFault <==> r.bytesPerSector == 0 || r.sectorsPerCluster == 0
    ensures g.Computed? ==>
              var x := g.geometry;
              x.totalSectors == TotalSectors(r) &&
              x.fatSize == FatSize(r) &&
              x.rootDirSectors == RootDirSectors(r.rootEntryCount, r.bytesPerSector) &&
              x.firstDataSector == (r.reservedSectorCount + r.fatCount * x.fatSize + x.rootDirSectors) % 0x1_0000_0000 &&
              x.firstFatSector == r.reservedSectorCount &&
              x.dataSectors == (x.totalSectors - x.firstDataSector) % 0x1_0000_0000 &&
              x.totalClusters == x.dataSectors / r.sectorsPerCluster &&
              x.fatType == FatTypeOf(x.totalClusters)
  {
    var total := TotalSectors(r);
    var fatSize := FatSize(r);
    if r.bytesPerSector == 0 then DivideFault
    else
      var rootDir := RootDirSectors(r.rootEntryCount, r.bytesPerSector);
      var fats: int := r.fatCount * fatSize;
      var product := fats % 0x1_0000_0000;
      var firstData := (r.reservedSectorCount + product + rootDir) % 0x1_0000_0000;
      ModSum(r.reservedSectorCount + rootDir, fats);
      var firstFat := r.reservedSectorCount;
      var data := (total - firstData) % 0x1_0000_0000;
      if r.sectorsPerCluster == 0 then DivideFault
      else
        DivAtMost(data, r.sectorsPerCluster);
        var clusters := data / r.sectorsPerCluster;
        Computed(Geometry(total, fatSize, rootDir, firstData, firstFat, data, clusters, FatTypeOf(clusters)))
  }

  /** Reducing a summand first does not change a sum modulo `2^32`. */
  lemma {:induction false} ModSum(a: int, b: int)
    ensures (a + b % 0x1_0000_0000) % 0x1_0000_0000 == (a + b) % 0x1_0000_0000
  {
    var m := 0x1_0000_0000;
    DivUnique(a + b, m, (a + b % m) / m + b / m, (a + b % m) % m);
  }

  /**
    When the reserved sectors, FATs and root directory fit in the volume,
    nothing wraps: the data region is what follows them, and the clusters
    are the whole clusters in it.
   */
  lemma {:induction false} GeometryWithoutWrap(r: BootRecord)
    requires r.Valid() && r.bytesPerSector > 0 && r.sectorsPerCluster > 0
    requires r.reservedSectorCount + r.fatCount * FatSize(r) +
             RootDirSectors(r.rootEntryCount, r.bytesPerSector) <= TotalSectors(r)
    ensures var x := ComputeGeometry(r).geometry;
            x.firstDataSector + x.dataSectors == TotalSectors(r) &&
            x.firstDataSector == r.reservedSectorCount + r.fatCount * FatSize(r) +
                                 RootDirSectors(r.rootEntryCount, r.bytesPerSector) &&
            x.totalClusters * r.sectorsPerCluster <= x.dataSectors < (x.totalClusters + 1) * r.sectorsPerCluster
  {
    var x := ComputeGeometry(r).geometry;
    var fats: int := r.fatCount * FatSize(r);
    MulNonnegative(r.fatCount, FatSize(r));
    var s := r.reservedSectorCount + fats + RootDirSectors(r.rootEntryCount, r.bytesPerSector);
    DivUnique(s, 0x1_0000_0000, 0, s);
    DivUnique(TotalSectors(r) - s, 0x1_0000_0000, 0, TotalSectors(r) - s);
    DivUnique(x.dataSectors, r.sectorsPerCluster, x.totalClusters, x.dataSectors % r.sectorsPerCluster);
  }

  /**
    A boot sector whose reserved sectors, FATs and root directory claim
    more than the volume's sectors is not rejected: the data-sector count
    wraps around, and with one sector per cluster the volume is taken
    for FAT32.
   */
  lemma {:induction false} OversizedMetadataWraps(r: BootRecord)
    requires r.Valid() && r.bytesPerSector > 0 && r.sectorsPerCluster == 1
    requires r.reservedSectorCount + r.fatCount * FatSize(r) +
             RootDirSectors(r.rootEntryCount, r.bytesPerSector) > TotalSectors(r)
    requires r.reservedSectorCount + r.fatCount * FatSize(r) +
             RootDirSectors(r.rootEntryCount, r.bytesPerSector) <= 0xffff_0000
    ensures ComputeGeometry(r).geometry.fatType == Fat32
  {
    var x := ComputeGeometry(r).geometry;
    var fats: int := r.fatCount * FatSize(r);
    MulNonnegative(r.fatCount, FatSize(r));
    var s := r.reservedSectorCount + fats + RootDirSectors(r.rootEntryCount, r.bytesPerSector);
    DivUnique(s, 0x1_0000_0000, 0, s);
    DivUnique(TotalSectors(r) - s, 0x1_0000_0000, -1, 0x1_0000_0000 + TotalSectors(r) - s);
    DivUnique(x.dataSectors, 1, x.dataSectors, 0);
  }

  /**
    A 1.44 MB floppy layout: 512-byte sectors, 4 sectors per cluster, 1
    reserved sector, 2 FATs of 9 sectors, 16 root entries, 2880 sectors.
    The root directory takes 1 sector, from sector 19; data starts at 20;
    the 2860 data sectors make 715 clusters, so the volume is FAT12.
   */
  lemma {:induction false} FloppyExample(r: BootRecord)
    requires r.Valid()
    requires r.bytesPerSector == 512 && r.sectorsPerCluster == 4 && r.reservedSectorCount == 1
    requires r.fatCount == 2 && r.rootEntryCount == 16 && r.totalSectors16 == 2880
    requires r.sectorsPerFat == 9 && r.totalSectors32 == 0
    ensures var x := ComputeGeometry(r).geometry;
            x.rootDirSectors == 1 && x.firstDataSector == 20 &&
            x.firstDataSector - x.rootDirSectors == 19 &&
            x.dataSectors == 2860 && x.totalClusters == 715 && x.fatType == Fat12
  {
    var x := ComputeGeometry(r).geometry;
    assert x.rootDirSectors == 1 by {
      DivUnique(16 * 32 + 511, 512, 1, 511);
    }
  }

  /**
    `fat::try_read(disk)`: reads sector 0 (given here as the read's
    success and the sector) and computes the geometry; it returns `false`
    whether the read failed or not.  The second component is what it
    computed, nothing when the read failed.
   */
  function TryRead(readOk: bool, sector: seq<u8>): (r: (bool, Option<GeometryResult>))
    requires |sector| == 512
    ensures !r.0
    ensures r.1.None? <==> !readOk
    ensures readOk ==> r.1.value == ComputeGeometry(DecodeBootRecord(sector))
  {
    if !readOk then (false, None)
    else (false, Some(ComputeGeometry(DecodeBootRecord(sector))))
  }

  // ---------------------------------------------------------------------
  // Directory entries

  /** `FileEntry`, with the timestamps as their raw 16-bit words. */
  datatype FileEntry = FileEntry(
    name: seq<u8>,
    attributes: u8,
    reserved: u8,
    creationTimeTenths: u8,
    creationTime: u16,
    creationDate: u16,
    lastAccessedDate: u16,
    firstClusterHigh: u16,
    lastModifiedTime: u16,
    lastModifiedDate: u16,
    firstClusterLow: u16,
    fileSize: u32)

  /** What `AllFit` says about each field of a short-name entry. */
  predicate FileEntryFits(vs: seq<Value>)
  {
    |vs| == 12 &&
    Fits(vs[0], Bytes(11)) && IsU8(vs[1]) && IsU8(vs[2]) && IsU8(vs[3]) &&
    IsU16(vs[4]) && IsU16(vs[5]) && IsU16(vs[6]) && IsU16(vs[7]) &&
    IsU16(vs[8]) && IsU16(vs[9]) && IsU16(vs[10]) && IsU32(vs[11])
  }

  lemma {:induction false} FileEntryFitsIff(vs: seq<Value>)
    ensures AllFit(vs, FILE_ENTRY_LAYOUT) <==> FileEntryFits(vs)
  {
    var l := FILE_ENTRY_LAYOUT;
    forall v | v in vs {
      FitsWidths(v);
    }
    if AllFit(vs, l) {
      assert Fits(vs[0], l[0]) && Fits(vs[1], l[1]) && Fits(vs[2], l[2]) && Fits(vs[3], l[3]);
      assert Fits(vs[4], l[4]) && Fits(vs[5], l[5]) && Fits(vs[6], l[6]) && Fits(vs[7], l[7]);
      assert Fits(vs[8], l[8]) && Fits(vs[9], l[9]) && Fits(vs[10], l[10]) && Fits(vs[11], l[11]);
    }
  }

  function FileEntryOf(vs: seq<Value>): (e: FileEntry)
    requires FileEntryFits(vs)
    ensures |e.name| == 11
  {
    FileEntry(vs[0].bs, U8Of(vs[1]), U8Of(vs[2]), U8Of(vs[3]), U16Of(vs[4]), U16Of(vs[5]),
              U16Of(vs[6]), U16Of(vs[7]), U16Of(vs[8]), U16Of(vs[9]), U16Of(vs[10]), U32Of(vs[11]))
  }

  function FileEntryValues(e: FileEntry): (vs: seq<Value>)
    requires |e.name| == 11
    ensures FileEntryFits(vs)
  {
    [Raw(e.name), Num(e.attributes), Num(e.reserved), Num(e.creationTimeTenths),
     Num(e.creationTime), Num(e.creationDate), Num(e.lastAccessedDate), Num(e.firstClusterHigh),
     Num(e.lastModifiedTime), Num(e.lastModifiedDate), Num(e.firstClusterLow), Num(e.fileSize)]
  }

  /** The fields of a 32-byte directory slot read as a short-name entry. */
  function FileEntrySlotValues(slot: seq<u8>): (vs: seq<Value>)
    requires |slot| == 32
    ensures FileEntryFits(vs)
  {
    FileEntrySize();
    var vs := Decode(slot, FILE_ENTRY_LAYOUT);
    FileEntryFitsIff(vs);
    vs
  }

  /** A 32-byte directory slot read as a short-name entry. */
  function DecodeFileEntry(slot: seq<u8>): (e: FileEntry)
    requires |slot| == 32
    ensures |e.name| == 11
  {
    FileEntryOf(FileEntrySlotValues(slot))
  }

  function EncodeFileEntry(e: FileEntry): (slot: seq<u8>)
    requires |e.name| == 11
    ensures |slot| == 32
  {
    FileEntrySize();
    FileEntryFitsIff(FileEntryValues(e));
    Encode(FileEntryValues(e), FILE_ENTRY_LAYOUT)
  }

  /** A short-name entry survives being written to a slot and read back. */
  lemma {:induction false} FileEntryRoundTrip(e: FileEntry)
    requires |e.name| == 11
    ensures DecodeFileEntry(EncodeFileEntry(e)) == e
  {
    FileEntrySize();
    FileEntryFitsIff(FileEntryValues(e));
    DecodeEncode(FileEntryValues(e), FILE_ENTRY_LAYOUT);
    ValuesOfFileEntry(e);
  }

  /** A slot read as a short-name entry and written back is the same slot. */
  lemma {:induction false} FileEntrySlotRoundTrip(slot: seq<u8>)
    requires |slot| == 32
    ensures EncodeFileEntry(DecodeFileEntry(slot)) == slot
  {
    FileEntrySize();
    FileEntryOfValues(FileEntrySlotValues(slot));
    EncodeDecode(slot, FILE_ENTRY_LAYOUT);
  }

  lemma {:induction false} ValuesOfFileEntry(e: FileEntry)
    requires |e.name| == 11
    ensures FileEntryOf(FileEntryValues(e)) == e
  {
  }

  lemma {:induction false} FileEntryOfValues(vs: seq<Value>)
    requires FileEntryFits(vs)
    ensures FileEntryValues(FileEntryOf(vs)) == vs
  {
  }

  /** Integer field `i` of a short-name entry, `w` bytes wide, is read from the slot bytes at offset `o`. */
  lemma FileEntryUIntAt(slot: seq<u8>, i: nat, o: nat, w: nat)
    requires |slot| == 32 && i < 12 && FILE_ENTRY_LAYOUT[i] == UInt(w)
    requires SizeBetween(FILE_ENTRY_LAYOUT, 0, i) == o
    ensures o + w <= 32
    ensures FileEntrySlotValues(slot)[i] == Num(LeValue(slot[o..o + w]))
  {
    FileEntrySize();
    assert slot[..32] == slot;
    UIntAt(slot, FILE_ENTRY_LAYOUT, i, o, w);
  }

  /** The name is the first 11 bytes of the slot, the attribute byte the next. */
  lemma {:induction false} FileEntryNameOffsets(slot: seq<u8>)
    requires |slot| == 32
    ensures var e := DecodeFileEntry(slot);
            e.name == slot[..11] && e.attributes == slot[11]
  {
    FileEntryNameFields(slot);
    assert DecodeFileEntry(slot) == FileEntryOf(FileEntrySlotValues(slot));
  }

  lemma FileEntryNameFields(slot: seq<u8>)
    requires |slot| == 32
    ensures FileEntrySlotValues(slot)[0] == Raw(slot[..11])
    ensures FileEntrySlotValues(slot)[1] == Num(slot[11])
  {
    assert SizeBetween(FILE_ENTRY_LAYOUT, 0, 1) == 11;
    FileEntrySize();
    assert slot[..32] == slot;
    BytesAt(slot, FILE_ENTRY_LAYOUT, 0, 0, 11);
    ByteAt(slot, FILE_ENTRY_LAYOUT, 1, 11);
  }

  /** The first cluster is split in two halves, at offsets 20 and 26; the size is at 28. */
  lemma {:induction false} FileEntryClusterOffsets(slot: seq<u8>)
    requires |slot| == 32
    ensures var e := DecodeFileEntry(slot);
            e.firstClusterHigh == LeValue(slot[20..22]) &&
            e.firstClusterLow == LeValue(slot[26..28]) &&
            e.fileSize == LeValue(slot[28..32])
  {
    assert SizeBetween(FILE_ENTRY_LAYOUT, 0, 7) == 20;
    assert SizeBetween(FILE_ENTRY_LAYOUT, 7, 10) == 6;
    assert SizeBetween(FILE_ENTRY_LAYOUT, 0, 10) == 26 && SizeBetween(FILE_ENTRY_LAYOUT, 0, 11) == 28;
    FileEntryUIntAt(slot, 7, 20, 2);
    FileEntryUIntAt(slot, 10, 26, 2);
    FileEntryUIntAt(slot, 11, 28, 4);
    assert DecodeFileEntry(slot) == FileEntryOf(FileEntrySlotValues(slot));
  }

  /** `LongNameEntry`: 13 UTF-16 units in groups of 5, 6 and 2. */
  datatype LongNameEntry = LongNameEntry(
    order: u8,
    name0: seq<u16>,
    attributes: u8,
    longEntryType: u8,
    checksum: u8,
    name1: seq<u16>,
    zero: u16,
    name2: seq<u16>)
  {
    predicate Valid()
    {
      |name0| == 5 && |name1| == 6 && |name2| == 2
    }
  }

  /** What `AllFit` says about each field of a long-name entry. */
  predicate LongNameEntryFits(vs: seq<Value>)
  {
    |vs| == 18 &&
    IsU8(vs[0]) && IsU8(vs[6]) && IsU8(vs[7]) && IsU8(vs[8]) &&
    (forall i | 1 <= i < 6 :: IsU16(vs[i])) &&
    (forall i | 9 <= i < 18 :: IsU16(vs[i]))
  }

  lemma {:induction false} LongNameEntryFitsIff(vs: seq<Value>)
    ensures AllFit(vs, LONG_NAME_ENTRY_LAYOUT) <==> LongNameEntryFits(vs)
  {
    var l := LONG_NAME_ENTRY_LAYOUT;
    forall v | v in vs {
      FitsWidths(v);
    }
    if AllFit(vs, l) {
      assert Fits(vs[0], l[0]) && Fits(vs[6], l[6]) && Fits(vs[7], l[7]) && Fits(vs[8], l[8]);
      forall i | 1 <= i < 6
        ensures Fits(vs[i], UInt(2))
      {
        assert Fits(vs[i], l[i]);
      }
      forall i | 9 <= i < 18
        ensures Fits(vs[i], UInt(2))
      {
        assert Fits(vs[i], l[i]);
      }
    }
    if LongNameEntryFits(vs) {
      forall i | 0 <= i < 18
        ensures Fits(vs[i], l[i])
      {
      }
    }
  }

  /** The UTF-16 units of fields `lo` to `hi - 1`. */
  function Units(vs: seq<Value>, lo: nat, hi: nat): (us: seq<u16>)
    requires lo <= hi <= |vs|
    requires forall i | lo <= i < hi :: IsU16(vs[i])
    ensures |us| == hi - lo
    ensures forall k | 0 <= k < |us| :: vs[lo + k] == Num(us[k])
    decreases hi - lo
  {
    if lo == hi then [] else [U16Of(vs[lo])] + Units(vs, lo + 1, hi)
  }

  function LongNameEntryOf(vs: seq<Value>): (e: LongNameEntry)
    requires LongNameEntryFits(vs)
    ensures e.Valid()
  {
    LongNameEntry(U8Of(vs[0]), Units(vs, 1, 6), U8Of(vs[6]), U8Of(vs[7]), U8Of(vs[8]),
                  Units(vs, 9, 15), U16Of(vs[15]), Units(vs, 16, 18))
  }

  /** Field `i` of a long-name entry in layout order, the name parts one unit per field. */
  function LongNameField(e: LongNameEntry, i: nat): Value
    requires e.Valid() && i < 18
  {
    if i == 0 then Num(e.order)
    else if i < 6 then Num(e.name0[i - 1])
    else if i == 6 then Num(e.attributes)
    else if i == 7 then Num(e.longEntryType)
    else if i == 8 then Num(e.checksum)
    else if i < 15 then Num(e.name1[i - 9])
    else if i == 15 then Num(e.zero)
    else Num(e.name2[i - 16])
  }

  function LongNameEntryValues(e: LongNameEntry): (vs: seq<Value>)
    requires e.Valid()
    ensures LongNameEntryFits(vs)
  {
    seq(18, i requires 0 <= i < 18 => LongNameField(e, i))
  }

  /** The fields of a 32-byte directory slot read as a long-name entry. */
  function LongNameSlotValues(slot: seq<u8>): (vs: seq<Value>)
    requires |slot| == 32
    ensures LongNameEntryFits(vs)
  {
    LongNameEntrySize();
    var vs := Decode(slot, LONG_NAME_ENTRY_LAYOUT);
    LongNameEntryFitsIff(vs);
    vs
  }

  /** A 32-byte directory slot read as a long-name entry. */
  function DecodeLongNameEntry(slot: seq<u8>): (e: LongNameEntry)
    requires |slot| == 32
    ensures e.Valid()
  {
    LongNameEntryOf(LongNameSlotValues(slot))
  }

  function EncodeLongNameEntry(e: LongNameEntry): (slot: seq<u8>)
    requires e.Valid()
    ensures |slot| == 32
  {
    LongNameEntrySize();
    LongNameEntryFitsIff(LongNameEntryValues(e));
    Encode(LongNameEntryValues(e), LONG_NAME_ENTRY_LAYOUT)
  }

  /** A long-name entry survives being written to a slot and read back. */
  lemma {:induction false} LongNameEntryRoundTrip(e: LongNameEntry)
    requires e.Valid()
    ensures DecodeLongNameEntry(EncodeLongNameEntry(e)) == e
  {
    LongNameEntrySize();
    LongNameEntryFitsIff(LongNameEntryValues(e));
    DecodeEncode(LongNameEntryValues(e), LONG_NAME_ENTRY_LAYOUT);
    ValuesOfLongNameEntry(e);
  }

  /** A slot read as a long-name entry and written back is the same slot. */
  lemma {:induction false} LongNameSlotRoundTrip(slot: seq<u8>)
    requires |slot| == 32
    ensures EncodeLongNameEntry(DecodeLongNameEntry(slot)) == slot
  {
    LongNameEntrySize();
    LongNameEntryOfValues(LongNameSlotValues(slot));
    EncodeDecode(slot, LONG_NAME_ENTRY_LAYOUT);
  }

  lemma {:induction false} ValuesOfLongNameEntry(e: LongNameEntry)
    requires e.Valid()
    ensures LongNameEntryOf(LongNameEntryValues(e)) == e
  {
    var vs := LongNameEntryValues(e);
    var d := LongNameEntryOf(vs);
    assert d.name0 == e.name0;
    assert d.name1 == e.name1;
    assert d.name2 == e.name2;
  }

  lemma {:induction false} LongNameEntryOfValues(vs: seq<Value>)
    requires LongNameEntryFits(vs)
    ensures LongNameEntryValues(LongNameEntryOf(vs)) == vs
  {
    var ws := LongNameEntryValues(LongNameEntryOf(vs));
    forall i | 0 <= i < 18
      ensures ws[i] == vs[i]
    {
    }
  }

  /** The attribute byte of a long-name entry is the slot's byte at offset 11. */
  lemma {:induction false} LongNameAttributesOffset(slot: seq<u8>)
    requires |slot| == 32
    ensures DecodeLongNameEntry(slot).attributes == slot[11]
  {
    assert SizeBetween(LONG_NAME_ENTRY_LAYOUT, 0, 6) == 11;
    LongNameEntrySize();
    assert slot[..32] == slot;
    ByteAt(slot, LONG_NAME_ENTRY_LAYOUT, 6, 11);
    assert DecodeLongNameEntry(slot) == LongNameEntryOf(LongNameSlotValues(slot));
  }

  /** The same slot read either way: the attribute byte is the same byte, offset 11. */
  lemma {:induction false} SlotKindByAttributes(slot: seq<u8>)
    requires |slot| == 32
    ensures DecodeFileEntry(slot).attributes == DecodeLongNameEntry(slot).attributes == slot[11]
  {
    FileEntryNameOffsets(slot);
    LongNameAttributesOffset(slot);
  }
}
