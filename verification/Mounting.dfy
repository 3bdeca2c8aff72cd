/** The layout computed at mount time (fat_fill_super): unsigned arithmetic of limited width,
    and when the layout it yields really lies on the volume. */
module Mounting {
  import opened Arith
  import opened Packing
  import opened FatDevices
  import opened Logs
  import opened Volumes
  import opened Machine

  /** The boot sector fields that decide the layout. */
  datatype Boot = Boot(reserved: nat, fats: nat, media: nat, sectorSize: nat, secPerClus: nat,
                       fatLength: nat, fat32Length: nat, dirEntries: nat, sectors: nat, totalSect: nat)

  datatype Super = Super(bs: nat, secPerClus: nat, fats: nat, kind: Kind, fatStart: nat, fatLength: nat,
                         dirStart: nat, dirEntries: nat, dataStart: nat, maxCluster: nat)

  datatype Mount = Bad(err: int) | Mounted(g: Super)

  /** The widths of the fields on disk. */
  predicate OnDisk(b: Boot) {
    && b.reserved < 0x1_0000 && b.fats < 0x100 && b.media < 0x100 && b.sectorSize < 0x1_0000 && b.secPerClus < 0x100
    && b.fatLength < 0x1_0000 && b.fat32Length < U32 && b.dirEntries < 0x1_0000 && b.sectors < 0x1_0000 && b.totalSect < U32
  }

  predicate PowerOf2(n: nat) {
    n == 1 || n == 2 || n == 4 || n == 8 || n == 16 || n == 32 || n == 64 || n == 128
  }

  predicate SectorSize(n: nat) { n == 512 || n == 1024 || n == 2048 || n == 4096 }

  predicate ValidMedia(m: nat) { m >= 0xF8 || m == 0xF0 }

  predicate HeaderOk(b: Boot) {
    b.reserved != 0 && b.fats != 0 && ValidMedia(b.media) && SectorSize(b.sectorSize) && PowerOf2(b.secPerClus)
  }

  function Bits(k: Kind): nat { match k case Fat12 => 12 case Fat16 => 16 case Fat32 => 32 }

  /** MAX_FAT12, MAX_FAT16, MAX_FAT32. */
  function MaxFat(k: Kind): nat { match k case Fat12 => 0xFF4 case Fat16 => 0xFFF4 case Fat32 => 0x0FFF_FFF6 }

  // ----- what the fields say, without any limit on widths

  function IsFat32(b: Boot): bool { b.fatLength == 0 && b.fat32Length != 0 }

  function FatLength(b: Boot): nat { if IsFat32(b) then b.fat32Length else b.fatLength }

  function Total(b: Boot): nat { if b.sectors == 0 then b.totalSect else b.sectors }

  function RootSectors(b: Boot): nat
    requires SectorSize(b.sectorSize)
  {
    b.dirEntries * 32 / b.sectorSize
  }

  function FatEnd(b: Boot): nat { b.reserved + b.fats * FatLength(b) }

  function DataStart(b: Boot): nat
    requires SectorSize(b.sectorSize)
  {
    FatEnd(b) + RootSectors(b)
  }

  /** The entries one FAT of so many bytes has room for. */
  function Room(k: Kind, bytes: nat): nat { bytes * 8 / Bits(k) }

  // ----- what the driver computes; M is the size of an unsigned long

  predicate LongSize(M: nat) { M == U32 || M == 0x1_0000_0000_0000_0000 }

  /** total_clusters as first computed. */
  function FirstCount(b: Boot, M: nat): nat
    requires HeaderOk(b) && LongSize(M)
  {
    (Total(b) - DataStart(b) % M) % M / b.secPerClus % U32
  }

  function KindOf(b: Boot, M: nat): Kind
    requires HeaderOk(b) && LongSize(M)
  {
    if IsFat32(b) then Fat32 else if FirstCount(b, M) > MaxFat(Fat12) then Fat16 else Fat12
  }

  /** fat_clusters. */
  function FatClusters(b: Boot, M: nat): nat
    requires HeaderOk(b) && LongSize(M)
  {
    FatLength(b) * b.sectorSize * 8 % M / Bits(KindOf(b, M)) % U32
  }

  /** total_clusters in the end. */
  function Count(b: Boot, M: nat): nat
    requires HeaderOk(b) && LongSize(M)
  {
    var room := (FatClusters(b, M) - FAT_START_ENT) % U32;
    if FirstCount(b, M) < room then FirstCount(b, M) else room
  }

  /** The layout in unsigned arithmetic. */
  function LayoutOf(b: Boot, M: nat): Super
    requires HeaderOk(b) && LongSize(M)
  {
    Super(b.sectorSize, b.secPerClus, b.fats, KindOf(b, M), b.reserved, FatLength(b), FatEnd(b) % M, b.dirEntries,
          DataStart(b) % M, Count(b, M) + FAT_START_ENT)
  }

  /** The number of clusters, and with it the kind of FAT. */
  method CountClusters(b: Boot, fatBits0: nat, fatLength: nat, dataStart: nat, M: nat) returns (kind: Kind, totalClusters: nat)
    requires HeaderOk(b) && LongSize(M) && fatBits0 == (if IsFat32(b) then 32 else 0)
    requires fatLength == FatLength(b) && dataStart == DataStart(b) % M
    ensures kind == KindOf(b, M) && totalClusters == Count(b, M)
  {
    var fatBits, totalSectors := fatBits0, b.sectors;
    if totalSectors == 0 {
      totalSectors := b.totalSect;
    }
    totalClusters := (totalSectors - dataStart) % M / b.secPerClus % U32;
    if fatBits != 32 {
      fatBits := if totalClusters > 0xFF4 then 16 else 12;
    }
    var fatClusters := fatLength * b.sectorSize * 8 % M / fatBits % U32;
    var room := (fatClusters - FAT_START_ENT) % U32;
    totalClusters := if totalClusters < room then totalClusters else room;
    kind := if fatBits == 32 then Fat32 else if fatBits == 16 then Fat16 else Fat12;
  }

  /** The geometry part of fat_fill_super. */
  method FillSuper(b: Boot, blockSize: nat, M: nat) returns (r: Mount)
    requires OnDisk(b) && LongSize(M)
    ensures r.Mounted? <==> (HeaderOk(b) && blockSize <= b.sectorSize && b.dirEntries % (b.sectorSize / 32) == 0
                             && Count(b, M) <= MaxFat(KindOf(b, M)))
    ensures r.Bad? ==> r.err == if HeaderOk(b) && blockSize > b.sectorSize then EIO else EINVAL
    ensures r.Mounted? ==> r.g == LayoutOf(b, M)
  {
    if b.reserved == 0 || b.fats == 0 || !ValidMedia(b.media) || !SectorSize(b.sectorSize) || !PowerOf2(b.secPerClus) {
      return Bad(EINVAL);
    }
    if b.sectorSize < blockSize {
      return Bad(EIO);
    }
    var fatBits, fatLength := 0, b.fatLength;
    if fatLength == 0 && b.fat32Length != 0 {
      fatBits, fatLength := 32, b.fat32Length;
    }
    var dirPerBlock := b.sectorSize / 32;
    var dirStart := (b.reserved + b.fats * fatLength) % M;
    if b.dirEntries % dirPerBlock != 0 {
      return Bad(EINVAL);
    }
    var rootdirSectors := b.dirEntries * 32 / b.sectorSize;
    var dataStart := (dirStart + rootdirSectors) % M;
    ModTwice(FatEnd(b), rootdirSectors, M);
    var kind, totalClusters := CountClusters(b, fatBits, fatLength, dataStart, M);
    if totalClusters > MaxFat(kind) {
      return Bad(EINVAL);
    }
    r := Mounted(Super(b.sectorSize, b.secPerClus, b.fats, kind, b.reserved, fatLength, dirStart, b.dirEntries, dataStart,
                       totalClusters + FAT_START_ENT));
  }

  lemma ModTwice(x: nat, y: nat, m: nat)
    requires m > 0
    ensures (x % m + y) % m == (x + y) % m
  {
    DivMod(x, m);
    DivMod(x % m + y, m);
    var q, r := x / m + (x % m + y) / m, (x % m + y) % m;
    assert x + y == q * m + r;
    DivModUnique(x + y, m, q, r);
  }

  // ----- when the layout lies on the volume

  /** Everything in its place: the root directory behind all FAT copies, the data area behind the
      entries of the root directory, all clusters inside the volume, and every entry of a cluster
      inside one FAT copy. */
  ghost predicate Sound(g: Super, total: nat) {
    && g.fatStart + g.fats * g.fatLength == g.dirStart
    && g.bs > 0 && g.dirStart + Quot(g.dirEntries * 32, g.bs) == g.dataStart
    && g.dataStart + (g.maxCluster - 2) * g.secPerClus <= total
    && forall e: nat :: 2 <= e < g.maxCluster ==> Offset(g.kind, e) + Width(g.kind) <= g.fatLength * g.bs
  }

  lemma RootBlocks(entries: nat, bs: nat)
    requires SectorSize(bs)
    ensures Quot(entries * 32, bs) == entries / (bs / 32)
  {
    QuotRemIsDivMod(entries * 32, bs);
    if bs == 512 {
      assert entries * 32 / 512 == entries / 16;
    } else if bs == 1024 {
      assert entries * 32 / 1024 == entries / 32;
    } else if bs == 2048 {
      assert entries * 32 / 2048 == entries / 64;
    } else {
      assert entries * 32 / 4096 == entries / 128;
    }
  }

  /** The branch of fat_bmap for the root directory of FAT12 and FAT16, which is no chain: on a
      sound layout its blocks are exactly those between the FAT copies and the data area. */
  method BmapRoot(g: Super, sector: nat, ghost total: nat) returns (phys: nat, mapped: nat)
    requires SectorSize(g.bs) && Sound(g, total)
    ensures mapped == (if g.dirStart + sector < g.dataStart then 1 else 0)
    ensures phys == if mapped == 1 then g.dirStart + sector else 0
  {
    RootBlocks(g.dirEntries, g.bs);
    var dirPerBlock := g.bs / 32;
    phys, mapped := 0, 0;
    if sector < g.dirEntries / dirPerBlock {
      phys, mapped := sector + g.dirStart, 1;
    }
  }

  /** A FAT has room for exactly the entries before Room. */
  lemma EntryRoom(k: Kind, e: nat, bytes: nat)
    ensures Offset(k, e) + Width(k) <= bytes <==> e < Room(k, bytes)
  {
  }

  lemma EntriesInside(k: Kind, max: nat, bytes: nat)
    ensures (forall e: nat :: 2 <= e < max ==> Offset(k, e) + Width(k) <= bytes) <==> max <= 2 || max <= Room(k, bytes)
  {
    if max <= 2 || max <= Room(k, bytes) {
      forall e: nat | 2 <= e < max
        ensures Offset(k, e) + Width(k) <= bytes
      {
        EntryRoom(k, e, bytes);
      }
    } else {
      EntryRoom(k, max - 1, bytes);
      assert Offset(k, max - 1) + Width(k) > bytes;
    }
  }

  /** The wrapped count of entries is never more than there is room for; but a count below
      two wraps to "any number". */
  lemma CountFits(b: Boot, M: nat)
    requires HeaderOk(b) && LongSize(M)
    ensures FatClusters(b, M) <= Room(KindOf(b, M), FatLength(b) * b.sectorSize)
    ensures FatClusters(b, M) >= 2 ==> Count(b, M) + 2 <= FatClusters(b, M)
    ensures FatClusters(b, M) < 2 && Count(b, M) <= MaxFat(KindOf(b, M)) ==> Count(b, M) == FirstCount(b, M)
  {
    var bits, x := Bits(KindOf(b, M)), FatLength(b) * b.sectorSize * 8;
    ModLe(x, M);
    DivMonotone(x % M, x, bits);
    ModLe(x % M / bits, U32);
    WrapTwo(FatClusters(b, M));
  }

  lemma WrapTwo(f: nat)
    requires f < U32
    ensures (f - 2) % U32 == if f >= 2 then f - 2 else f - 2 + U32
  {
  }

  lemma ModLe(x: nat, m: nat)
    requires m > 0
    ensures x % m <= x && (x < m ==> x % m == x)
  {
    DivMod(x, m);
    if x < m {
      DivModUnique(x, m, 0, x);
    } else {
      MulLe(0, x / m, m);
    }
  }

  lemma DivMonotone(x: nat, y: nat, d: nat)
    requires d > 0 && x <= y
    ensures x / d <= y / d
  {
    QuotRemIsDivMod(x, d);
    QuotRemIsDivMod(y, d);
    QuotMonotone(x, y, d);
  }

  /** Where the data area starts decides about the clusters: with no wrap they fit. */
  lemma ClustersFit(b: Boot, M: nat)
    requires OnDisk(b) && HeaderOk(b) && LongSize(M) && DataStart(b) <= Total(b)
    ensures DataStart(b) % M == DataStart(b) && DataStart(b) + Count(b, M) * b.secPerClus <= Total(b)
  {
    var n := Total(b) - DataStart(b);
    ModLe(DataStart(b), M);
    ModLe(n, M);
    DivMod(n, b.secPerClus);
    MulLe(1, b.secPerClus, n / b.secPerClus);
    ModLe(n / b.secPerClus, U32);
    MulLe(Count(b, M), n / b.secPerClus, b.secPerClus);
  }

  /** A mounted layout is sound exactly when the data area starts inside the volume and the
      FAT has room for two entries (or, failing that, for the clusters there are). The driver
      checks neither. */
  lemma SoundIff(b: Boot, M: nat)
    requires OnDisk(b) && HeaderOk(b) && LongSize(M) && Count(b, M) <= MaxFat(KindOf(b, M))
    ensures Sound(LayoutOf(b, M), Total(b)) <==>
      DataStart(b) <= Total(b) && (FatClusters(b, M) >= 2 || FirstCount(b, M) == 0
                                   || FirstCount(b, M) + 2 <= Room(KindOf(b, M), FatLength(b) * b.sectorSize))
  {
    var g := LayoutOf(b, M);
    CountFits(b, M);
    EntriesInside(g.kind, g.maxCluster, g.fatLength * g.bs);
    MulLe(0, g.maxCluster - 2, g.secPerClus);
    QuotRemIsDivMod(g.dirEntries * 32, g.bs);
    if DataStart(b) <= Total(b) {
      ClustersFit(b, M);
      ModLe(FatEnd(b), M);
    }
  }

  /** On a volume that reaches behind the start of its data area the count is the greatest number
      of clusters that fit both there and into the FAT, as long as the FAT has two entries and
      its bits can be counted. */
  lemma CountGreatest(b: Boot, M: nat, n: nat)
    requires OnDisk(b) && HeaderOk(b) && LongSize(M) && DataStart(b) <= Total(b) && FatLength(b) * b.sectorSize * 8 < M
    requires 2 <= Room(KindOf(b, M), FatLength(b) * b.sectorSize) < U32
    ensures n <= Count(b, M) <==>
      DataStart(b) + n * b.secPerClus <= Total(b) && n + 2 <= Room(KindOf(b, M), FatLength(b) * b.sectorSize)
  {
    FirstCountFits(b, M, n);
    AllCounted(b, M);
    WrapTwo(FatClusters(b, M));
  }

  lemma AllCounted(b: Boot, M: nat)
    requires HeaderOk(b) && LongSize(M) && FatLength(b) * b.sectorSize * 8 < M
    requires Room(KindOf(b, M), FatLength(b) * b.sectorSize) < U32
    ensures FatClusters(b, M) == Room(KindOf(b, M), FatLength(b) * b.sectorSize)
  {
    var x := FatLength(b) * b.sectorSize * 8;
    ModLe(x, M);
    ModLe(x / Bits(KindOf(b, M)), U32);
  }

  lemma FirstCountFits(b: Boot, M: nat, n: nat)
    requires OnDisk(b) && HeaderOk(b) && LongSize(M) && DataStart(b) <= Total(b)
    ensures n <= FirstCount(b, M) <==> DataStart(b) + n * b.secPerClus <= Total(b)
  {
    var left := Total(b) - DataStart(b);
    ModLe(DataStart(b), M);
    ModLe(left, M);
    DivMod(left, b.secPerClus);
    MulLe(1, b.secPerClus, left / b.secPerClus);
    ModLe(left / b.secPerClus, U32);
    if n <= left / b.secPerClus {
      MulLe(n, left / b.secPerClus, b.secPerClus);
    } else {
      MulLe(left / b.secPerClus + 1, n, b.secPerClus);
    }
  }

  /** The kind of FAT: 32 bits where only the long length field is used, else 12 bits exactly on
      a volume with no room for 4085 clusters. */
  lemma KindByRoom(b: Boot, M: nat)
    requires OnDisk(b) && HeaderOk(b) && LongSize(M) && DataStart(b) <= Total(b)
    ensures KindOf(b, M) == Fat32 <==> b.fatLength == 0 && b.fat32Length > 0
    ensures KindOf(b, M) == Fat12 <==> KindOf(b, M) != Fat32 && DataStart(b) + 4085 * b.secPerClus > Total(b)
  {
    FirstCountFits(b, M, 4085);
  }

  /** A boot sector that gives the FAT no length at all passes, and puts 98 clusters on it. */
  lemma EmptyFatPasses(M: nat) returns (b: Boot)
    requires LongSize(M)
    ensures OnDisk(b) && HeaderOk(b) && b.dirEntries % (b.sectorSize / 32) == 0 && Count(b, M) <= MaxFat(KindOf(b, M))
    ensures FatLength(b) == 0 && DataStart(b) <= Total(b) && Count(b, M) == 98
    ensures !Sound(LayoutOf(b, M), Total(b))
  {
    b := Boot(1, 1, 0xF8, 512, 1, 0, 0, 16, 100, 0);
    ModLe(2, M);
    ModLe(98, M);
    ModLe(98, U32);
    ModLe(0, M);
    ModLe(0, U32);
    assert DataStart(b) == 2 && Total(b) == 100;
    assert FirstCount(b, M) == 98;
    assert FatLength(b) * b.sectorSize * 8 == 0 && FatClusters(b, M) == 0;
    WrapTwo(0);
    assert Count(b, M) == 98;
    NoRoomForTwo(LayoutOf(b, M), Total(b));
  }

  lemma NoRoomForTwo(g: Super, total: nat)
    requires g.fatLength == 0 && g.maxCluster > 2
    ensures !Sound(g, total)
  {
    assert Offset(g.kind, 2) + Width(g.kind) > g.fatLength * g.bs;
  }

  /** A boot sector whose volume ends before its data area begins passes too: the count of
      sectors left wraps around, and 254 clusters lie behind the end. */
  lemma ShortVolumePasses(M: nat) returns (b: Boot)
    requires LongSize(M)
    ensures OnDisk(b) && HeaderOk(b) && b.dirEntries % (b.sectorSize / 32) == 0 && Count(b, M) <= MaxFat(KindOf(b, M))
    ensures DataStart(b) == 3 && Total(b) == 1 && Count(b, M) == 254
    ensures !Sound(LayoutOf(b, M), Total(b))
  {
    b := Boot(1, 1, 0xF8, 512, 1, 1, 0, 16, 1, 0);
    ModLe(3, M);
    assert DataStart(b) == 3 && Total(b) == 1;
    assert (1 - 3) % M == M - 2;
    assert FirstCount(b, M) == (M - 2) % U32 == U32 - 2;
    ModLe(4096, M);
    ModLe(256, U32);
    assert FatLength(b) * b.sectorSize * 8 == 4096 && FatClusters(b, M) == 256;
    WrapTwo(256);
    assert Count(b, M) == 254;
  }

  /** A FAT32 volume that passes with the greatest number of clusters: its last one has the
      number of the BAD mark. */
  lemma MostClustersPass(M: nat) returns (b: Boot)
    requires LongSize(M)
    ensures OnDisk(b) && HeaderOk(b) && b.dirEntries % (b.sectorSize / 32) == 0 && Count(b, M) <= MaxFat(KindOf(b, M))
    ensures IsFat32(b) && Count(b, M) == MaxFat(Fat32) && Count(b, M) + 1 == BadMark(KindOf(b, M))
    ensures !Legal(KindOf(b, M), Count(b, M) + 1)
  {
    b := Boot(1, 1, 0xF8, 512, 1, 0, 0x20_0000, 0, 0, 0x0FFF_FFF6 + 0x20_0001);
    ModLe(0x20_0001, M);
    assert DataStart(b) == 0x20_0001 && Total(b) - DataStart(b) == 0x0FFF_FFF6;
    ModLe(0x0FFF_FFF6, M);
    ModLe(0x0FFF_FFF6, U32);
    assert FirstCount(b, M) == 0x0FFF_FFF6;
    assert FatLength(b) * b.sectorSize * 8 == 0x2_0000_0000;
    assert FatClusters(b, M) == if M == U32 then 0 else 0x1000_0000;
    WrapTwo(FatClusters(b, M));
  }

  /** Every cluster number can be linked to, unless a FAT32 volume has the greatest number of
      clusters that mounting accepts: then the last one has the number of the BAD mark. */
  lemma ClustersLegal(b: Boot, M: nat)
    requires HeaderOk(b) && LongSize(M) && Count(b, M) <= MaxFat(KindOf(b, M))
    ensures (forall c: int :: 2 <= c < Count(b, M) + 2 ==> Legal(KindOf(b, M), c)) <==> Count(b, M) + 2 <= BadMark(KindOf(b, M))
    ensures Count(b, M) + 2 <= BadMark(KindOf(b, M)) <==> !(IsFat32(b) && Count(b, M) == MaxFat(Fat32))
  {
    assert Count(b, M) > 0 ==> (Legal(KindOf(b, M), Count(b, M) + 1) <==> Count(b, M) + 1 < BadMark(KindOf(b, M)));
  }

  /** The volume that a sound layout describes: all FAT copies lie before the data area, and that
      on the device. It may be one with no clusters at all. */
  method MountVolume(g: Super, data: array2<byte>, freeHint: int, prevHint: nat) returns (vol: Volume)
    requires Sound(g, data.Length0) && SectorSize(g.bs) && data.Length1 == g.bs && PowerOf2(g.secPerClus)
    requires g.fatStart > 0 && g.fats > 0 && 2 <= g.maxCluster <= BadMark(g.kind) && 0 <= freeHint <= UNKNOWN
    ensures vol.Valid() && vol.Layout() && !vol.freeClusValid && vol.live == map[]
    ensures vol.secPerClus == g.secPerClus && vol.dataStart == g.dataStart && vol.dev.maxCluster == g.maxCluster
    ensures vol.dev.data == data && vol.dev.kind == g.kind && vol.dev.bs == g.bs
    ensures vol.dev.fatStart + Times(vol.dev.fats, vol.dev.fatLength) == g.dirStart
    ensures g.dirStart + Quot(g.dirEntries * 32, g.bs) == vol.dataStart
    ensures vol.dataStart + Times(vol.dev.maxCluster - 2, vol.secPerClus) <= data.Length0
    ensures vol.pending == [] && LogOk(vol.trace)
  {
    TimesIsProduct(g.fats, g.fatLength);
    TimesIsProduct(g.fatLength, g.bs);
    TimesIsProduct(g.maxCluster - 2, g.secPerClus);
    MulLe(0, g.maxCluster - 2, g.secPerClus);
    assert g.maxCluster > 2 ==> Offset(g.kind, g.maxCluster - 1) + Width(g.kind) <= g.fatLength * g.bs;
    var dev := new FatDevice(g.kind, g.bs, g.fatStart, g.fatLength, g.fats, g.maxCluster, data);
    vol := new Volume(dev, g.secPerClus, g.dataStart, freeHint, prevHint);
  }
}
