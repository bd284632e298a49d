/** On-disk layout of a FAT12/FAT16 volume: the geometry derived from the BIOS
    parameter block, the packing of FAT entries, and the meaning of an entry. */
module FatFormat {
  import Arith

  type Byte = b: int | 0 <= b < 0x100
  type Word = w: int | 0 <= w < 0x1_0000

  datatype Option<+T> = None | Some(value: T)

  // ARC status codes used by the FAT engine.
  datatype Status = ESUCCESS | ENOSPC | EINVAL | ENOENT | ENOTDIR | EBADF | EISDIR | EACCES | EROFS

  const FAT_CACHE_SIZE := 1536
  const DIRENT_SIZE := 32
  const FAT_CLUSTER_AVAILABLE: Word := 0x0000
  const FAT_CLUSTER_LAST: Word := 0xffff

  datatype ClusterType = Available | Reserved | Bad | Last | Next

  // The unpacked BIOS parameter block (the fields the engine reads).
  datatype Bpb = Bpb(
    bytesPerSector: nat, sectorsPerCluster: nat, reservedSectors: nat, fats: nat,
    rootEntries: nat, sectors: nat, largeSectors: nat, sectorsPerFat: nat)
  {
    function Overhead(): nat
      requires bytesPerSector > 0
    {
      reservedSectors + fats * sectorsPerFat + rootEntries * DIRENT_SIZE / bytesPerSector
    }

    // Unsigned arithmetic: a volume shorter than its own metadata wraps.
    function NumberOfClusters(): nat
      requires bytesPerSector > 0 && sectorsPerCluster > 0
    {
      ((sectors + largeSectors - Overhead()) % 0x1_0000_0000) / sectorsPerCluster
    }

    // The values of the size and location macros.
    function Layout(): Geometry
      requires bytesPerSector > 0 && sectorsPerCluster > 0
    {
      var n := NumberOfClusters();
      var bytesPerFat := bytesPerSector * sectorsPerFat;
      var rootLbo := bytesPerSector * reservedSectors + fats * bytesPerFat;
      Geometry(
        if n < 4087 then 12 else 16, n, bytesPerSector * sectorsPerCluster,
        reservedSectors * bytesPerSector, bytesPerFat, fats, rootLbo, rootEntries * DIRENT_SIZE,
        rootLbo + rootEntries * DIRENT_SIZE, (sectors + largeSectors) * bytesPerSector)
    }

    // What mounting checks (only the fields modelled here) ...
    ghost predicate Accepted() {
      && bytesPerSector in {128, 256, 512, 1024}
      && sectorsPerCluster in {1, 2, 4, 8, 16, 32, 64, 128}
      && reservedSectors > 0 && fats > 0 && rootEntries > 0 && sectorsPerFat > 0
      && (sectors == 0 <==> largeSectors != 0)
    }

    // ... and what it leaves to the formatter of the volume.
    ghost predicate Formatted()
      requires Accepted()
    {
      var g := Layout();
      && bytesPerSector * sectorsPerCluster % 512 == 0
      && rootEntries % 16 == 0 && rootEntries * DIRENT_SIZE % bytesPerSector == 0
      && Overhead() + sectorsPerCluster <= sectors + largeSectors
      && (sectors + largeSectors) * bytesPerSector < 0x1_0000_0000
      && g.clusters + 1 < FirstReserved(g.bits)
      && EntryVbo(g.bits, g.clusters + 1) + 1 < g.bytesPerFat
      && g.firstFat + (g.bytesPerFat - 1) / FAT_CACHE_SIZE * FAT_CACHE_SIZE + FAT_CACHE_SIZE <= g.deviceBytes
    }
  }

  /** The engine's view of a mounted volume; byte quantities throughout. */
  datatype Geometry = Geometry(
    bits: nat, clusters: nat, bytesPerCluster: nat, firstFat: nat, bytesPerFat: nat,
    fats: nat, rootLbo: nat, rootSize: nat, fileArea: nat, deviceBytes: nat)
  {
    ghost predicate Valid() {
      && bits == (if clusters < 4087 then 12 else 16)
      && clusters >= 1 && clusters + 1 < FirstReserved(bits)
      && bytesPerCluster >= 512 && bytesPerCluster % 512 == 0
      && fats >= 1 && firstFat > 0
      && rootLbo == CopyLbo(fats)
      && rootSize > 0 && rootSize % 512 == 0
      && fileArea == rootLbo + rootSize
      && fileArea + Arith.Times(clusters, bytesPerCluster) <= deviceBytes
      && EntryVbo(bits, clusters + 1) + 1 < bytesPerFat
      && firstFat + (bytesPerFat - 1) / FAT_CACHE_SIZE * FAT_CACHE_SIZE + FAT_CACHE_SIZE <= deviceBytes
    }

    predicate InRange(i: int) {
      2 <= i < clusters + 2
    }

    // Start of the k-th copy of the FAT.
    function CopyLbo(k: nat): nat {
      firstFat + Arith.Times(k, bytesPerFat)
    }

    function IndexToLbo(i: nat): nat
      requires i >= 2
    {
      Arith.Times(i - 2, bytesPerCluster) + fileArea
    }

    function InterpretClusterType(entry: Word): ClusterType {
      if bits == 12 then
        var e := entry % 0x1000;
        if e == 0 then Available
        else if 0xff0 <= e <= 0xff6 then Reserved
        else if e == 0xff7 then Bad
        else if 0xff8 <= e <= 0xfff then Last
        else Next
      else
        if entry == 0 then Available
        else if 0xfff0 <= entry <= 0xfff6 then Reserved
        else if entry == 0xfff7 then Bad
        else if 0xfff8 <= entry <= 0xffff then Last
        else Next
    }

    predicate IsNext(entry: Word) {
      InterpretClusterType(entry).Next?
    }
  }

  // First entry value that no longer reads as a link.
  function FirstReserved(bits: nat): nat {
    if bits == 12 then 0xff0 else 0xfff0
  }

  /** What an entry means, for either width by the same rule: of the values that fit, the
      highest eight are last marks, the one below them is a bad mark, and the links lie
      below the highest sixteen. */
  lemma EntryMeaning(g: Geometry, entry: Word)
    requires g.bits in {12, 16}
    ensures var values := if g.bits == 12 then 0x1000 else 0x1_0000;
            var e := entry % values;
            && (g.InterpretClusterType(entry).Available? <==> e == 0)
            && (g.InterpretClusterType(entry).Last? <==> e >= values - 8)
            && (g.InterpretClusterType(entry).Bad? <==> e == values - 9)
            && (g.IsNext(entry) <==> 0 < e < values - 16)
  {
  }

  // Byte offset, within the FAT, of the word that holds entry i.
  function EntryVbo(bits: nat, i: nat): nat {
    if bits == 12 then i * 3 / 2 else i * 2
  }

  // What remains of a value once stored in an entry.
  function Stored(bits: nat, v: Word): Word {
    if bits == 12 then v % 0x1000 else v
  }

  function Unpack(bits: nat, i: nat, lo: Byte, hi: Byte): Word {
    var w := lo + 0x100 * hi;
    if bits == 12 then
      if i % 2 == 1 then w / 16 else w % 0x1000
    else
      w
  }

  // The word to store back, given the word already there.
  function Pack(bits: nat, i: nat, lo: Byte, hi: Byte, v: Word): Word {
    var w := lo + 0x100 * hi;
    if bits == 12 then
      if i % 2 == 0 then w / 0x1000 * 0x1000 + v % 0x1000 else w % 16 + v % 0x1000 * 16
    else
      v
  }

  lemma UnpackPacked(bits: nat, i: nat, lo: Byte, hi: Byte, v: Word)
    requires bits in {12, 16}
    ensures var w := Pack(bits, i, lo, hi, v);
            Unpack(bits, i, w % 0x100, w / 0x100) == Stored(bits, v)
  {
  }

  // The nibbles of a byte.
  lemma Nibbles(b: Byte)
    ensures b == b / 16 * 16 + b % 16 && 0 <= b / 16 < 16 && 0 <= b % 16 < 16
  {
  }

  lemma Digit(q: nat, b: nat, r: nat)
    requires r < b
    ensures (r + b * q) / b == q && (r + b * q) % b == r
  {
    Arith.DivIsQuotient(q, b, r);
  }

  /** Neighbouring 12-bit entries share one byte; storing one leaves the other's
      half of that byte alone. First the even entry of a pair, then the odd one. */
  lemma EvenKeepsOdd(lo: Byte, hi: Byte, next: Byte, v: Word)
    ensures (Pack(12, 0, lo, hi, v) / 0x100 + 0x100 * next) / 16 == (hi + 0x100 * next) / 16
  {
    Nibbles(hi);
    var p, e := hi / 16, v % 0x1000;
    Digit(p, 0x1000, lo + 0x100 * (hi % 16));
    Digit(p * 16 + e / 0x100, 0x100, e % 0x100);
    Digit(p + 16 * next, 16, e / 0x100);
    Digit(p + 16 * next, 16, hi % 16);
  }

  lemma OddKeepsEven(prev: Byte, lo: Byte, hi: Byte, v: Word)
    ensures (prev + 0x100 * (Pack(12, 1, lo, hi, v) % 0x100)) % 0x1000 == (prev + 0x100 * lo) % 0x1000
  {
    Nibbles(lo);
    var n, e := lo % 16, v % 0x1000;
    Digit(lo / 16 + 16 * hi, 16, n);
    Digit(e / 16, 0x100, n + 16 * (e % 16));
    Digit(e % 16, 0x1000, prev + 0x100 * n);
    Digit(lo / 16, 0x1000, prev + 0x100 * n);
  }

  lemma EntriesApart(bits: nat, i: nat, j: nat)
    requires bits in {12, 16} && i < j
    ensures EntryVbo(bits, i) < EntryVbo(bits, j)
    ensures EntryVbo(bits, i) + 1 == EntryVbo(bits, j) ==> bits == 12 && i % 2 == 0 && j == i + 1
  {
  }

  /** Storing entry i does not change what entry j reads as. (lo, hi) are the
      bytes of i, (lo', hi') those of j, before the store. */
  lemma UnpackOther(bits: nat, i: nat, j: nat, lo: Byte, hi: Byte, lo': Byte, hi': Byte, v: Word)
    requires bits in {12, 16} && i != j
    requires EntryVbo(bits, j) == EntryVbo(bits, i) + 1 ==> lo' == hi
    requires EntryVbo(bits, j) + 1 == EntryVbo(bits, i) ==> hi' == lo
    ensures EntryVbo(bits, j) != EntryVbo(bits, i)
    ensures EntryVbo(bits, j) == EntryVbo(bits, i) + 1 ==>
              Unpack(bits, j, Pack(bits, i, lo, hi, v) / 0x100, hi') == Unpack(bits, j, lo', hi')
    ensures EntryVbo(bits, j) + 1 == EntryVbo(bits, i) ==>
              Unpack(bits, j, lo', Pack(bits, i, lo, hi, v) % 0x100) == Unpack(bits, j, lo', hi')
  {
    hide EntryVbo, Pack;
    if i < j {
      EntriesApart(bits, i, j);
      if EntryVbo(bits, i) + 1 == EntryVbo(bits, j) {
        EvenKeepsOdd(lo, hi, hi', v);
        PackByParity(i, 0, lo, hi, v);
      }
    } else {
      EntriesApart(bits, j, i);
      if EntryVbo(bits, j) + 1 == EntryVbo(bits, i) {
        OddKeepsEven(lo', lo, hi, v);
        PackByParity(i, 1, lo, hi, v);
      }
    }
  }

  lemma PackByParity(i: nat, j: nat, lo: Byte, hi: Byte, v: Word)
    requires i % 2 == j % 2
    ensures Pack(12, i, lo, hi, v) == Pack(12, j, lo, hi, v)
  {
  }

  lemma NotThreefold(a: int, r: nat)
    requires r < 2
    ensures 3 * a != r + 1
  {
  }

  /** The cache window is a multiple of six bytes, so no entry straddles it: the
      word of an entry starting inside an aligned window also ends inside it. */
  lemma NoStraddle(bits: nat, i: nat, window: nat)
    requires bits in {12, 16} && window % FAT_CACHE_SIZE == 0
    requires EntryVbo(bits, i) < window + FAT_CACHE_SIZE
    ensures EntryVbo(bits, i) + 1 < window + FAT_CACHE_SIZE
  {
    var m := window / FAT_CACHE_SIZE;
    assert window == m * FAT_CACHE_SIZE;
    var h, r := i / 2, i % 2;
    if bits == 12 {
      Digit(3 * h + r, 2, r);
      assert EntryVbo(12, i) == 3 * h + r;
      NotThreefold(512 * m + 512 - h, r);
    }
  }

  lemma EntryVboMonotone(bits: nat, i: nat, j: nat)
    requires i <= j
    ensures EntryVbo(bits, i) <= EntryVbo(bits, j)
  {
  }

  lemma CopyFits(g: Geometry, j: nat, k: nat)
    requires j < k
    ensures g.CopyLbo(j) + g.bytesPerFat <= g.CopyLbo(k)
  {
    Arith.TimesStep(j, k, g.bytesPerFat);
  }

  lemma ClusterFits(g: Geometry, i: nat)
    requires g.Valid() && g.InRange(i)
    ensures g.fileArea <= g.IndexToLbo(i)
    ensures g.IndexToLbo(i) + g.bytesPerCluster <= g.fileArea + Arith.Times(g.clusters, g.bytesPerCluster)
  {
    Arith.TimesStep(i - 2, g.clusters, g.bytesPerCluster);
  }

  /** A volume that passes the mount checks and is formatted sensibly has the
      geometry everything else relies on: the regions tile the device in order. */
  lemma FormattedGeometry(b: Bpb)
    requires b.Accepted() && b.Formatted()
    ensures b.Layout().Valid()
  {
    hide Arith.Times;
    var g := b.Layout();
    var s, c := b.bytesPerSector, b.sectorsPerCluster;
    assert s > 0 && c > 0;
    RegionsFit(s, c, b.reservedSectors, b.fats, b.sectorsPerFat, b.rootEntries * DIRENT_SIZE, b.sectors
        + b.largeSectors);
    Arith.TimesIsProduct(b.fats, s * b.sectorsPerFat);
    Arith.TimesIsProduct(g.clusters, s * c);
    Positive(b.reservedSectors, s);
    Positive(s, c);
    AtLeast512(s * c);
    RootMultiple(b.rootEntries);
    assert g.fileArea + g.clusters * (s * c) <= g.deviceBytes;
    assert g.rootLbo == g.CopyLbo(g.fats);
    assert g.clusters >= 1;
  }

  // The first sector of the clusters, and all sectors.
  function FirstDataSector(b: Bpb): nat
    requires b.bytesPerSector > 0
  {
    b.reservedSectors + b.fats * b.sectorsPerFat + b.rootEntries * DIRENT_SIZE / b.bytesPerSector
  }

  /** The same geometry in sectors: the copies of the FAT follow the reserved sectors, the
      root directory follows them, and the clusters are as many as fit after it. */
  lemma SectorLayout(b: Bpb, k: nat, i: nat)
    requires b.Accepted() && b.Formatted() && k <= b.fats && i >= 2
    ensures var g, s, all := b.Layout(), b.bytesPerSector, b.sectors + b.largeSectors;
            && g.bytesPerCluster == b.sectorsPerCluster * s && g.deviceBytes == all * s
            && g.CopyLbo(k) == (b.reservedSectors + k * b.sectorsPerFat) * s
            && g.rootLbo == (b.reservedSectors + b.fats * b.sectorsPerFat) * s
            && g.rootSize == b.rootEntries * 32
            && g.IndexToLbo(i) == (FirstDataSector(b) + (i - 2) * b.sectorsPerCluster) * s
            && g.clusters * b.sectorsPerCluster <= all - FirstDataSector(b) < (g.clusters + 1) * b.sectorsPerCluster
  {
    hide EntryVbo, Arith.Times;
    var g, s, c := b.Layout(), b.bytesPerSector, b.sectorsPerCluster;
    var all, root := b.sectors + b.largeSectors, b.rootEntries * DIRENT_SIZE;
    Arith.TimesIsProduct(k, g.bytesPerFat);
    Arith.TimesIsProduct(i - 2, g.bytesPerCluster);
    FileAreaSectors(s, b.reservedSectors, k, b.sectorsPerFat, 0);
    FileAreaSectors(s, b.reservedSectors, b.fats, b.sectorsPerFat, 0);
    FileAreaSectors(s, b.reservedSectors, b.fats, b.sectorsPerFat, root / s);
    Arith.DivMul(root, s);
    Clustered(s, FirstDataSector(b), i - 2, c);
    ClustersThatFit(s, c, FirstDataSector(b), all);
  }

  lemma ClustersThatFit(s: nat, c: nat, first: nat, all: nat)
    requires s > 0 && c > 0 && first <= all && all * s < 0x1_0000_0000
    ensures var n := (all - first) % 0x1_0000_0000 / c; n * c <= all - first < (n + 1) * c
  {
    Arith.MulMono(1, s, all);
    Arith.DivMul(all - first, c);
  }

  lemma Clustered(s: nat, first: nat, n: nat, c: nat)
    ensures first * s + n * (s * c) == (first + n * c) * s
  {
    assert n * (s * c) == n * c * s;
  }

  lemma Positive(a: nat, b: nat)
    requires a > 0 && b > 0
    ensures a * b > 0
  {
    Arith.MulMono(1, a, b);
  }

  lemma AtLeast512(a: nat)
    requires a > 0 && a % 512 == 0
    ensures a >= 512
  {
  }

  lemma RootMultiple(entries: nat)
    requires entries % 16 == 0
    ensures entries * DIRENT_SIZE % 512 == 0
  {
    assert entries == 16 * (entries / 16);
    assert entries * DIRENT_SIZE == 512 * (entries / 16);
  }

  lemma RegionsFit(s: nat, c: nat, reserved: nat, fats: nat, perFat: nat, rootSize: nat, total: nat)
    requires s > 0 && c > 0 && rootSize % s == 0 && total * s < 0x1_0000_0000
    requires reserved + fats * perFat + rootSize / s + c <= total
    ensures var overhead := reserved + fats * perFat + rootSize / s;
            var n := (total - overhead) % 0x1_0000_0000 / c;
            && n >= 1
            && s * reserved + fats * (s * perFat) + rootSize + n * (s * c) <= total * s
  {
    var overhead := reserved + fats * perFat + rootSize / s;
    var usable := total - overhead;
    Arith.MulMono(1, s, total);
    var n := usable / c;
    Arith.DivMul(usable, c);
    Arith.DivMul(rootSize, s);
    FileAreaSectors(s, reserved, fats, perFat, rootSize / s);
    Arith.MulMono(n * c, usable, s);
    Regroup(s, c, n, overhead, total);
  }

  lemma FileAreaSectors(s: nat, reserved: nat, fats: nat, perFat: nat, root: nat)
    ensures s * reserved + fats * (s * perFat) + root * s == (reserved + fats * perFat + root) * s
  {
    assert fats * (s * perFat) == fats * perFat * s;
  }

  lemma Regroup(s: nat, c: nat, n: nat, overhead: nat, total: nat)
    requires overhead <= total && n * c * s <= (total - overhead) * s
    ensures overhead * s + n * (s * c) <= total * s
  {
    assert n * (s * c) == n * c * s;
    assert overhead * s + (total - overhead) * s == total * s;
  }

  // What remains of any cluster number: the low 16 bits, and of them what an entry holds.
  function AsEntry(bits: nat, i: nat): Word {
    Stored(bits, i % 0x1_0000)
  }

  /** A stored cluster number reads back as a link for every cluster of the volume
      exactly when the volume stops short of the reserved values; the 12/16-bit
      threshold of 4087 alone does not give that. */
  lemma LinksReadable(g: Geometry)
    requires g.bits == (if g.clusters < 4087 then 12 else 16)
    ensures (forall i: nat :: g.InRange(i) ==> AsEntry(g.bits, i) == i && g.IsNext(AsEntry(g.bits, i)))
            <==> g.clusters + 1 < FirstReserved(g.bits)
  {
    var r := FirstReserved(g.bits);
    if g.clusters + 1 >= r {
      assert g.InRange(r) && !g.IsNext(AsEntry(g.bits, r));
    }
  }

  /** A volume can be accepted and still go past that: one of 4080 clusters, whose highest
      cluster number, 4081, is a reserved value once stored. */
  lemma UnreadableLink()
    ensures var b := Bpb(512, 1, 1, 2, 16, 4106, 0, 12);
            && b.Accepted() && b.Layout().bits == 12 && b.Layout().clusters == 4080 && b.Layout().InRange(4081)
            && !b.Layout().IsNext(Stored(12, 4081))
  {
  }

  // A volume of four clusters, for examples.
  const SMALL := Bpb(512, 1, 1, 2, 16, 12, 0, 3)

  lemma SmallLayout()
    ensures SMALL.Accepted() && SMALL.Formatted() && SMALL.Layout().Valid()
    ensures SMALL.Layout() == Geometry(12, 4, 512, 512, 1536, 2, 3584, 512, 4096, 6144)
  {
    FormattedGeometry(SMALL);
  }
}
