/** What every open file of a volume relies on, and why growing, writing or failing
    to grow one file leaves the others alone. */
module VolumeFiles {
  import opened FatFormat
  import opened FatStore
  import opened FatChains
  import opened FileTable
  import opened FileAllocation
  import opened FileRuns
  import opened FileData
  import Arith

  // The cluster that holds the file's directory entry; below 2 for the root directory.
  ghost function Home(g: Geometry, f: FileEntry): nat
    requires g.bytesPerCluster > 0
  {
    ClusterOf(g, f.direntLbo)
  }

  // A file on its own: its chain holds its bytes, and the device holds its entry,
  // which lies in the root directory or in one used cluster.
  ghost predicate FileOk(g: Geometry, fat: seq<Word>, disk: seq<Byte>, f: FileEntry, c: seq<nat>)
    requires g.Valid() && |fat| == g.clusters + 2 && |disk| == g.deviceBytes
  {
    && (IsDirectory(f) ==> f.dirent.fileSize == 0)
    && if f.direntLbo == 0 then IsDirectory(f) && c == [] && f.dirent.firstCluster == FAT_CLUSTER_AVAILABLE
       else
         && FileChain(g, fat, f.dirent.firstCluster, c)
         && f.dirent.fileSize <= Capacity(g, c)
         && (!IsDirectory(f) ==> f.position <= f.dirent.fileSize)
         && g.rootLbo <= f.direntLbo && f.direntLbo + DIRENT_SIZE <= |disk|
         && disk[f.direntLbo..f.direntLbo + DIRENT_SIZE] == Encode(f.dirent)
         && (forall a: nat | f.direntLbo <= a < f.direntLbo + DIRENT_SIZE :: ClusterOf(g, a) == Home(g, f))
         && (Home(g, f) == 0 || (g.InRange(Home(g, f)) && !IsFree(g, fat, Home(g, f))))
  }

  // Two files: no cluster is shared, nor any directory entry, and the entry of
  // neither lies among the bytes of the other unless that is a directory.
  ghost predicate Apart(g: Geometry, f: FileEntry, c: seq<nat>, f': FileEntry, c': seq<nat>)
    requires g.bytesPerCluster > 0
  {
    && Disjoint(c, c')
    && (f.direntLbo != 0 && f'.direntLbo != 0 ==>
          f.direntLbo + DIRENT_SIZE <= f'.direntLbo || f'.direntLbo + DIRENT_SIZE <= f.direntLbo)
    && HomeOutside(g, f, f', c') && HomeOutside(g, f', f, c)
  }

  ghost predicate HomeOutside(g: Geometry, f: FileEntry, f': FileEntry, c': seq<nat>)
    requires g.bytesPerCluster > 0
  {
    f.direntLbo != 0 && !IsDirectory(f') ==> Home(g, f) !in c'
  }

  ghost predicate FilesOk(g: Geometry, fat: seq<Word>, disk: seq<Byte>, files: seq<FileEntry>, open: set<nat>,
          chains: seq<seq<nat>>)
    requires g.Valid()
  {
    && Linked(g, fat) && |disk| == g.deviceBytes && |chains| == |files|
    && (forall i :: i in open ==> i < |files| && FileOk(g, fat, disk, files[i], chains[i]))
    && (forall i :: i in open ==> HomeOutside(g, files[i], files[i], chains[i]))
    && (forall i, j :: i in open && j in open && i != j ==> Apart(g, files[i], chains[i], files[j], chains[j]))
  }

  /** The contents of an open file. */
  ghost function Contents(g: Geometry, disk: seq<Byte>, f: FileEntry, c: seq<nat>): (r: seq<Byte>)
    requires g.Valid() && |disk| == g.deviceBytes && Clusters(g, c) && f.dirent.fileSize <= Capacity(g, c)
    ensures |r| == f.dirent.fileSize
  {
    Data(g, disk, c, f.dirent.fileSize)
  }

  lemma FileOkClusters(g: Geometry, fat: seq<Word>, disk: seq<Byte>, f: FileEntry, c: seq<nat>)
    requires g.Valid() && Linked(g, fat) && |disk| == g.deviceBytes && FileOk(g, fat, disk, f, c)
    ensures Clusters(g, c) && f.dirent.fileSize <= Capacity(g, c) && Distinct(c)
    ensures forall x :: x in c ==> g.InRange(x) && !IsFree(g, fat, x)
    ensures Walkable(g, fat, f)
  {
    if c != [] {
      ChainDistinct(g, fat, c);
      ChainNotFree(g, fat, c);
      EndOfChain(g, fat, c);
    } else {
      assert f.direntLbo != 0 ==> !g.IsNext(f.dirent.firstCluster);
    }
  }

  // fat' is fat with free clusters `taken` put to use and, perhaps, the last entry of
  // c pointed at them.
  ghost predicate Extended(g: Geometry, fat: seq<Word>, fat': seq<Word>, c: seq<nat>, taken: seq<nat>) {
    && |fat| == |fat'| == g.clusters + 2
    && (forall e :: e in taken ==> g.InRange(e) && IsFree(g, fat, e))
    && (forall i :: 0 <= i < |fat| && i !in taken && !(c != [] && i == c[|c| - 1]) ==> fat'[i] == fat[i])
    && (c != [] ==> 0 <= c[|c| - 1] < |fat| && !IsFree(g, fat', c[|c| - 1]))
  }

  lemma GrownExtends(g: Geometry, fat: seq<Word>, fat': seq<Word>, c: seq<nat>, taken: seq<nat>)
    requires g.Valid() && Grown(g, fat, fat', c, taken)
    ensures Extended(g, fat, fat', c, taken)
  {
    if c + taken != [] {
      ChainNotFree(g, fat', c + taken);
      if c != [] {
        assert (c + taken)[|c| - 1] == c[|c| - 1];
        EndOfChain(g, fat', c + taken);
      }
    }
  }

  // Outside the FAT copies, d' differs from d only in `taken` and at lbo .. lbo + n.
  ghost predicate DiskTouched(g: Geometry, d: seq<Byte>, d': seq<Byte>, taken: seq<nat>, lbo: nat, n: nat)
    requires g.bytesPerCluster > 0
  {
    && |d| == |d'|
    && forall a: nat | a < |d| && !(g.firstFat <= a < g.rootLbo) && !(lbo <= a < lbo + n)
        && ClusterOf(g, a) !in taken ::
        d'[a] == d[a]
  }

  // A file not being grown keeps its chain ...
  lemma OtherChain(g: Geometry, fat: seq<Word>, fat': seq<Word>, c: seq<nat>, taken: seq<nat>, first: Word,
          c': seq<nat>)
    requires g.Valid() && Extended(g, fat, fat', c, taken) && FileChain(g, fat, first, c') && Disjoint(c, c')
    ensures FileChain(g, fat', first, c')
  {
    if c' != [] {
      ChainNotFree(g, fat, c');
      EndOfChain(g, fat, c');
      forall k | 0 <= k < |c'|
        ensures fat'[c'[k]] == fat[c'[k]]
      {
        assert c'[k] !in taken;
        if c != [] {
          assert c[|c| - 1] != c'[k];
        }
      }
      ChainFrame(g, fat, fat', c');
    }
  }

  // ... and its contents, ...
  lemma OtherData(g: Geometry, fat: seq<Word>, d: seq<Byte>, d': seq<Byte>, taken: seq<nat>, fi: FileEntry, n: nat,
          f: FileEntry, c: seq<nat>)
    requires g.Valid() && Linked(g, fat) && |d| == |d'| == g.deviceBytes && FileOk(g, fat, d, f, c)
    requires forall e :: e in taken ==> IsTaken(g, fat, e)
    requires DiskTouched(g, d, d', taken, fi.direntLbo, n)
    requires n > 0 ==> n == DIRENT_SIZE && fi.direntLbo != 0 && HomeOutside(g, fi, f, c) && OneHome(g, fi)
    ensures Clusters(g, c) && f.dirent.fileSize <= Capacity(g, c)
    ensures Contents(g, d', f, c) == Contents(g, d, f, c)
  {
    FileOkClusters(g, fat, d, f, c);
    if f.dirent.fileSize > 0 {
      forall a: nat | g.rootLbo <= a < |d| && ClusterOf(g, a) in c
        ensures d'[a] == d[a]
      {
      }
      DataFrame(g, d, d', c, f.dirent.fileSize);
    }
  }

  ghost predicate IsTaken(g: Geometry, fat: seq<Word>, e: nat) {
    e < |fat| && IsFree(g, fat, e)
  }

  ghost predicate OneHome(g: Geometry, f: FileEntry)
    requires g.bytesPerCluster > 0
  {
    forall a: nat | f.direntLbo <= a < f.direntLbo + DIRENT_SIZE :: ClusterOf(g, a) == Home(g, f)
  }

  // ... and stays in order.
  lemma OtherFileOk(g: Geometry, fat: seq<Word>, fat': seq<Word>, d: seq<Byte>, d': seq<Byte>, c: seq<nat>,
          taken: seq<nat>, fi: FileEntry, n: nat, f: FileEntry, c': seq<nat>)
    requires g.Valid() && Linked(g, fat) && |d| == |d'| == g.deviceBytes && FileOk(g, fat, d, f, c')
    requires Extended(g, fat, fat', c, taken) && Disjoint(c, c')
    requires DiskTouched(g, d, d', taken, fi.direntLbo, n)
    requires n > 0 && f.direntLbo != 0 ==>
               n == DIRENT_SIZE && (fi.direntLbo + DIRENT_SIZE <= f.direntLbo || f.direntLbo
                   + DIRENT_SIZE <= fi.direntLbo)
    ensures FileOk(g, fat', d', f, c')
  {
    if f.direntLbo != 0 {
      OtherChain(g, fat, fat', c, taken, f.dirent.firstCluster, c');
      var l := f.direntLbo;
      var h := Home(g, f);
      assert h == 0 || h !in taken;
      forall a: nat | l <= a < l + DIRENT_SIZE
        ensures d'[a] == d[a]
      {
        assert ClusterOf(g, a) == h;
      }
      assert d'[l..l + DIRENT_SIZE] == d[l..l + DIRENT_SIZE];
    }
  }

  // The grown file itself, once its entry is on the device.
  lemma GrownFileOk(g: Geometry, fat: seq<Word>, fat': seq<Word>, d: seq<Byte>, d': seq<Byte>, f: FileEntry,
          c: seq<nat>, taken: seq<nat>, f': FileEntry)
    requires g.Valid() && Linked(g, fat) && |d| == |d'| == g.deviceBytes && FileOk(g, fat, d, f, c)
    requires Extended(g, fat, fat', c, taken) && f.direntLbo != 0
    requires f'.direntLbo == f.direntLbo && !IsDirectory(f')
    requires FileChain(g, fat', f'.dirent.firstCluster, c + taken)
    requires f'.position <= f'.dirent.fileSize <= Capacity(g, c + taken)
    requires d'[f.direntLbo..f.direntLbo + DIRENT_SIZE] == Encode(f'.dirent)
    ensures FileOk(g, fat', d', f', c + taken)
  {
    var h := Home(g, f);
    assert h == 0 || h !in taken;
  }

  // Its old bytes are where they were.
  lemma GrownData(g: Geometry, fat: seq<Word>, d: seq<Byte>, d': seq<Byte>, f: FileEntry, c: seq<nat>, taken: seq<nat>,
          n: nat)
    requires g.Valid() && Linked(g, fat) && |d| == |d'| == g.deviceBytes && FileOk(g, fat, d, f, c)
    requires Clusters(g, taken) && (forall e :: e in taken ==> IsTaken(g, fat, e))
    requires f.direntLbo != 0 && n in {0, DIRENT_SIZE} && DiskTouched(g, d, d', taken, f.direntLbo, n)
    requires HomeOutside(g, f, f, c) && !IsDirectory(f)
    ensures Clusters(g, c) && Clusters(g, c + taken) && f.dirent.fileSize <= Capacity(g, c) <= Capacity(g, c + taken)
    ensures Data(g, d', c + taken, f.dirent.fileSize) == Contents(g, d, f, c)
  {
    FileOkClusters(g, fat, d, f, c);
    OtherData(g, fat, d, d', taken, f, n, f, c);
    Arith.TimesMono(|c|, |c + taken|, g.bytesPerCluster);
    forall v: nat | v < f.dirent.fileSize
      ensures ByteOf(g, d', c + taken, v) == ByteOf(g, d', c, v)
    {
      ChainWalkPrefix(g, c, taken, v);
    }
    assert Data(g, d', c + taken, f.dirent.fileSize) == Data(g, d', c, f.dirent.fileSize);
  }

  lemma NewChainApart(g: Geometry, fat: seq<Word>, d: seq<Byte>, f: FileEntry, c: seq<nat>, taken: seq<nat>,
          f': FileEntry, fj: FileEntry, cj: seq<nat>)
    requires g.Valid() && Linked(g, fat) && |d| == g.deviceBytes && FileOk(g, fat, d, fj, cj)
    requires Apart(g, f, c, fj, cj) && (forall e :: e in taken ==> IsTaken(g, fat, e) && g.InRange(e))
    requires f'.direntLbo == f.direntLbo && (IsDirectory(f') <==> IsDirectory(f))
    ensures Apart(g, f', c + taken, fj, cj) && Apart(g, fj, cj, f', c + taken)
  {
    FileOkClusters(g, fat, d, fj, cj);
  }

  // What file i becomes, whether it grew by `taken` or `taken` was left unlinked.
  ghost predicate FileReplaced(g: Geometry, fat: seq<Word>, fat': seq<Word>, d: seq<Byte>, d': seq<Byte>, f: FileEntry,
          c: seq<nat>, f': FileEntry, grew: bool, taken: seq<nat>, n: nat)
    requires g.Valid() && |d| == |d'| == g.deviceBytes
  {
    && f.direntLbo != 0 && n in {0, DIRENT_SIZE} && Linked(g, fat')
    && Extended(g, fat, fat', if grew then c else [], taken)
    && DiskTouched(g, d, d', taken, f.direntLbo, n)
    && f'.direntLbo == f.direntLbo && (IsDirectory(f') <==> IsDirectory(f))
    && FileOk(g, fat', d', f', if grew then c + taken else c)
  }

  lemma OtherFileKept(g: Geometry, fat: seq<Word>, fat': seq<Word>, d: seq<Byte>, d': seq<Byte>, f: FileEntry,
          c: seq<nat>, f': FileEntry, grew: bool, taken: seq<nat>, n: nat, fj: FileEntry, cj: seq<nat>)
    requires g.Valid() && Linked(g, fat) && |d| == |d'| == g.deviceBytes
    requires FileReplaced(g, fat, fat', d, d', f, c, f', grew, taken, n)
    requires FileOk(g, fat, d, f, c) && FileOk(g, fat, d, fj, cj) && Apart(g, f, c, fj, cj)
    ensures FileOk(g, fat', d', fj, cj)
    ensures var c' := if grew then c + taken else c;
            Apart(g, f', c', fj, cj) && Apart(g, fj, cj, f', c')
    ensures Clusters(g, cj) && fj.dirent.fileSize <= Capacity(g, cj)
    ensures Contents(g, d', fj, cj) == Contents(g, d, fj, cj)
  {
    var ce := if grew then c else [];
    OtherFileOk(g, fat, fat', d, d', ce, taken, f, n, fj, cj);
    OtherData(g, fat, d, d', taken, f, n, fj, cj);
    NewChainApart(g, fat, d, f, c, if grew then taken else [], f', fj, cj);
    assert c + [] == c;
  }

  /** Growing, or failing to grow, file i keeps the volume in order and the contents
      of every other open file. */
  lemma GrowKeepsFiles(g: Geometry, fat: seq<Word>, fat': seq<Word>, d: seq<Byte>, d': seq<Byte>, files: seq<FileEntry>,
          open: set<nat>, chains: seq<seq<nat>>, i: nat, f': FileEntry, grew: bool, taken: seq<nat>, n: nat)
    requires g.Valid() && FilesOk(g, fat, d, files, open, chains) && i in open && |d'| == |d|
    requires FileReplaced(g, fat, fat', d, d', files[i], chains[i], f', grew, taken, n)
    ensures var c' := if grew then chains[i] + taken else chains[i];
            FilesOk(g, fat', d', files[i := f'], open, chains[i := c'])
    ensures forall j :: j in open && j != i ==> SameContents(g, d, d', files[j], chains[j])
  {
    hide FileOk, Apart, HomeOutside, Extended, DiskTouched, Linked, Geometry.Valid, Clusters, Contents;
    var c' := if grew then chains[i] + taken else chains[i];
    Sizes(g, fat);
    Sizes(g, fat');
    forall j | j in open && j != i
      ensures FileOk(g, fat', d', files[j], chains[j])
      ensures Apart(g, f', c', files[j], chains[j]) && Apart(g, files[j], chains[j], f', c')
      ensures SameContents(g, d, d', files[j], chains[j])
    {
      assert Apart(g, files[i], chains[i], files[j], chains[j]);
      OtherFileKept(g, fat, fat', d, d', files[i], chains[i], f', grew, taken, n, files[j], chains[j]);
    }
    HomeStaysOutside(g, fat, fat', d, d', files[i], chains[i], f', grew, taken, n);
  }

  lemma Sizes(g: Geometry, fat: seq<Word>)
    requires g.Valid() && Linked(g, fat)
    ensures |fat| == g.clusters + 2 && g.bytesPerCluster > 0
  {
  }

  lemma HomeStaysOutside(g: Geometry, fat: seq<Word>, fat': seq<Word>, d: seq<Byte>, d': seq<Byte>, f: FileEntry,
          c: seq<nat>, f': FileEntry, grew: bool, taken: seq<nat>, n: nat)
    requires g.Valid() && Linked(g, fat) && |d| == |d'| == g.deviceBytes && FileOk(g, fat, d, f, c)
    requires FileReplaced(g, fat, fat', d, d', f, c, f', grew, taken, n) && HomeOutside(g, f, f, c)
    ensures HomeOutside(g, f', f', if grew then c + taken else c)
  {
  }

  ghost predicate SameContents(g: Geometry, d: seq<Byte>, d': seq<Byte>, f: FileEntry, c: seq<nat>)
    requires g.Valid() && |d| == |d'| == g.deviceBytes
  {
    && Clusters(g, c) && f.dirent.fileSize <= Capacity(g, c)
    && Contents(g, d', f, c) == Contents(g, d, f, c)
  }

  // d' and d agree on the file's clusters and on its directory entry.
  ghost predicate Untouched(g: Geometry, d: seq<Byte>, d': seq<Byte>, f: FileEntry, c: seq<nat>)
    requires g.bytesPerCluster > 0
  {
    && |d'| == |d|
    && (forall a: nat | g.rootLbo <= a < |d| && ClusterOf(g, a) in c :: d'[a] == d[a])
    && (f.direntLbo != 0 ==> forall a: nat | f.direntLbo <= a < |d| && a < f.direntLbo + DIRENT_SIZE :: d'[a] == d[a])
  }

  lemma KeepFile(g: Geometry, fat: seq<Word>, d: seq<Byte>, d': seq<Byte>, f: FileEntry, c: seq<nat>)
    requires g.Valid() && Linked(g, fat) && |d| == g.deviceBytes && FileOk(g, fat, d, f, c) && Untouched(g, d, d', f, c)
    ensures FileOk(g, fat, d', f, c) && SameContents(g, d, d', f, c)
  {
    FileOkClusters(g, fat, d, f, c);
    DataFrame(g, d, d', c, f.dirent.fileSize);
    if f.direntLbo != 0 {
      var l := f.direntLbo;
      assert d'[l..l + DIRENT_SIZE] == d[l..l + DIRENT_SIZE];
    }
  }

  lemma UntouchedBySame(g: Geometry, fat: seq<Word>, d: seq<Byte>, d': seq<Byte>, f: FileEntry, c: seq<nat>)
    requires g.Valid() && Linked(g, fat) && |d| == g.deviceBytes && FileOk(g, fat, d, f, c) && SameData(g, d, d')
    ensures Untouched(g, d, d', f, c)
  {
  }

  lemma UntouchedByPour(g: Geometry, fat: seq<Word>, d: seq<Byte>, d': seq<Byte>, fi: FileEntry, ci: seq<nat>, p: nat,
          b: seq<Byte>, f: FileEntry, c: seq<nat>)
    requires g.Valid() && Linked(g, fat) && |d| == g.deviceBytes && FileOk(g, fat, d, f, c)
    requires Clusters(g, ci) && Poured(g, ci, d, d', p, b) && !IsDirectory(fi)
    requires Apart(g, fi, ci, f, c)
    ensures Untouched(g, d, d', f, c)
  {
  }

  // The written file itself.
  lemma PouredFile(g: Geometry, fat: seq<Word>, d: seq<Byte>, d': seq<Byte>, f: FileEntry, c: seq<nat>, p: nat,
          b: seq<Byte>)
    requires g.Valid() && Linked(g, fat) && |d| == g.deviceBytes && FileOk(g, fat, d, f, c)
    requires f.direntLbo != 0 && !IsDirectory(f) && HomeOutside(g, f, f, c) && p + |b| <= f.dirent.fileSize
    requires Clusters(g, c) && Poured(g, c, d, d', p, b)
    ensures FileOk(g, fat, d', f, c) && f.dirent.fileSize <= Capacity(g, c)
    ensures Contents(g, d', f, c) == Patched(Contents(g, d, f, c), p, b)
  {
    var l := f.direntLbo;
    assert d'[l..l + DIRENT_SIZE] == d[l..l + DIRENT_SIZE];
    var x, y := Contents(g, d', f, c), Patched(Contents(g, d, f, c), p, b);
    assert forall v: nat :: v < |x| ==> x[v] == ByteOf(g, d', c, v) && y[v] == x[v];
  }

  /** Writing b at p of file i, within its size, keeps the volume in order, patches
      the contents of i and keeps those of every other open file. */
  lemma PourKeepsFiles(g: Geometry, fat: seq<Word>, d: seq<Byte>, d': seq<Byte>, files: seq<FileEntry>, open: set<nat>,
          chains: seq<seq<nat>>, i: nat, p: nat, b: seq<Byte>)
    requires g.Valid() && FilesOk(g, fat, d, files, open, chains) && i in open
    requires files[i].direntLbo != 0 && !IsDirectory(files[i]) && p + |b| <= files[i].dirent.fileSize
    requires Clusters(g, chains[i]) && Poured(g, chains[i], d, d', p, b)
    ensures |d'| == |d| && FilesOk(g, fat, d', files, open, chains)
    ensures files[i].dirent.fileSize <= Capacity(g, chains[i])
    ensures Contents(g, d', files[i], chains[i]) == Patched(Contents(g, d, files[i], chains[i]), p, b)
    ensures forall j :: j in open && j != i ==> SameContents(g, d, d', files[j], chains[j])
  {
    hide FileOk, Apart, HomeOutside, Linked, Geometry.Valid, Clusters, Contents, SameContents, Untouched, IsDirectory;
    Sizes(g, fat);
    assert HomeOutside(g, files[i], files[i], chains[i]);
    PouredFile(g, fat, d, d', files[i], chains[i], p, b);
    forall j | j in open && j != i
      ensures FileOk(g, fat, d', files[j], chains[j]) && SameContents(g, d, d', files[j], chains[j])
    {
      assert Apart(g, files[i], chains[i], files[j], chains[j]);
      UntouchedByPour(g, fat, d, d', files[i], chains[i], p, b, files[j], chains[j]);
      KeepFile(g, fat, d, d', files[j], chains[j]);
    }
  }

  // Changes confined to the FAT copies keep everything.
  lemma SameKeepsFiles(g: Geometry, fat: seq<Word>, d: seq<Byte>, d': seq<Byte>, files: seq<FileEntry>, open: set<nat>,
          chains: seq<seq<nat>>)
    requires g.Valid() && FilesOk(g, fat, d, files, open, chains) && SameData(g, d, d')
    ensures |d'| == |d| && FilesOk(g, fat, d', files, open, chains)
    ensures forall j :: j in open ==> SameContents(g, d, d', files[j], chains[j])
  {
    hide FileOk, Apart, HomeOutside, Linked, Geometry.Valid, Clusters, Contents, SameContents, Untouched;
    Sizes(g, fat);
    forall j | j in open
      ensures FileOk(g, fat, d', files[j], chains[j]) && SameContents(g, d, d', files[j], chains[j])
    {
      UntouchedBySame(g, fat, d, d', files[j], chains[j]);
      KeepFile(g, fat, d, d', files[j], chains[j]);
    }
  }

  // Moving the position of a file, within its size unless it is a directory.
  lemma MoveKeepsFiles(g: Geometry, fat: seq<Word>, d: seq<Byte>, files: seq<FileEntry>, open: set<nat>,
          chains: seq<seq<nat>>, i: nat, position: nat)
    requires g.Valid() && FilesOk(g, fat, d, files, open, chains) && i in open
    requires files[i].direntLbo != 0 && !IsDirectory(files[i]) ==> position <= files[i].dirent.fileSize
    ensures FilesOk(g, fat, d, files[i := files[i].(position := position)], open, chains)
  {
    hide Linked, Geometry.Valid, Clusters, Contents;
    Sizes(g, fat);
    var f, f' := files[i], files[i].(position := position);
    assert FileOk(g, fat, d, f', chains[i]);
    assert HomeOutside(g, f, f, chains[i]);
    forall j | j in open && j != i
      ensures Apart(g, f', chains[i], files[j], chains[j]) && Apart(g, files[j], chains[j], f', chains[i])
    {
      assert Apart(g, f, chains[i], files[j], chains[j]) && Apart(g, files[j], chains[j], f, chains[i]);
    }
  }

  // A cluster in use outside the chain ci; 0 and 1 stand for what is before the clusters.
  ghost predicate Foreign(g: Geometry, fat: seq<Word>, ci: seq<nat>, x: nat) {
    x !in ci && (x < 2 || (x < |fat| && !IsFree(g, fat, x)))
  }

  ghost predicate Unused(g: Geometry, fat: seq<Word>, x: nat) {
    g.InRange(x) && IsTaken(g, fat, x)
  }

  /** Nothing changed but one file, its entry at lbo and its chain ci, which is ci' now: no
      FAT entry in use outside its chain, and no byte outside its entry, its clusters, the
      clusters that were free and the FAT copies. */
  ghost predicate OnlyFile(g: Geometry, fat: seq<Word>, fat': seq<Word>, d: seq<Byte>, d': seq<Byte>, lbo: nat,
          ci: seq<nat>, ci': seq<nat>)
    requires g.bytesPerCluster > 0
  {
    && |fat'| == |fat| && |d'| == |d|
    && (forall x: nat | 2 <= x < |fat| && Foreign(g, fat, ci, x) :: fat'[x] == fat[x])
    && (forall x | x in ci' :: x in ci || Unused(g, fat, x))
    && (forall a: nat | a < |d| && !(g.firstFat <= a < g.rootLbo) && !(lbo <= a < lbo + DIRENT_SIZE)
          && Foreign(g, fat, ci, ClusterOf(g, a)) :: d'[a] == d[a])
  }

  lemma OnlyFileTrans(g: Geometry, fat: seq<Word>, fat1: seq<Word>, fat2: seq<Word>, d: seq<Byte>, d1: seq<Byte>,
          d2: seq<Byte>, lbo: nat, ci: seq<nat>, c1: seq<nat>, c2: seq<nat>)
    requires g.bytesPerCluster > 0 && |fat| == g.clusters + 2
    requires OnlyFile(g, fat, fat1, d, d1, lbo, ci, c1) && OnlyFile(g, fat1, fat2, d1, d2, lbo, c1, c2)
    ensures OnlyFile(g, fat, fat2, d, d2, lbo, ci, c2)
  {
    forall x: nat | Foreign(g, fat, ci, x)
      ensures Foreign(g, fat1, c1, x)
    {
      assert x in c1 ==> x in ci || Unused(g, fat, x);
    }
    forall x | x in c2
      ensures x in ci || Unused(g, fat, x)
    {
      assert x in c1 || Unused(g, fat1, x);
      assert x in c1 ==> x in ci || Unused(g, fat, x);
    }
  }

  lemma GrowOnlyFile(g: Geometry, fat: seq<Word>, fat': seq<Word>, d: seq<Byte>, d': seq<Byte>, f: FileEntry,
          c: seq<nat>, f': FileEntry, grew: bool, taken: seq<nat>, n: nat)
    requires g.Valid() && |d| == |d'| == g.deviceBytes && FileReplaced(g, fat, fat', d, d', f, c, f', grew, taken, n)
    ensures g.bytesPerCluster > 0
    ensures OnlyFile(g, fat, fat', d, d', f.direntLbo, c, if grew then c + taken else c)
  {
    forall x: nat | Foreign(g, fat, c, x)
      ensures x !in taken
    {
    }
    forall x: nat | 2 <= x < |fat| && Foreign(g, fat, c, x)
      ensures fat'[x] == fat[x]
    {
      assert x !in taken;
    }
  }

  lemma PourOnlyFile(g: Geometry, fat: seq<Word>, d: seq<Byte>, d': seq<Byte>, lbo: nat, c: seq<nat>, p: nat,
          b: seq<Byte>)
    requires g.Valid() && Clusters(g, c) && Poured(g, c, d, d', p, b)
    ensures g.bytesPerCluster > 0 && OnlyFile(g, fat, fat, d, d', lbo, c, c)
  {
  }

  lemma SameOnlyFile(g: Geometry, fat: seq<Word>, d: seq<Byte>, d': seq<Byte>, lbo: nat, c: seq<nat>)
    requires g.bytesPerCluster > 0 && SameData(g, d, d')
    ensures OnlyFile(g, fat, fat, d, d', lbo, c, c)
  {
  }

  lemma NothingChanged(g: Geometry, fat: seq<Word>, d: seq<Byte>, lbo: nat, c: seq<nat>)
    requires g.bytesPerCluster > 0
    ensures OnlyFile(g, fat, fat, d, d, lbo, c, c)
  {
  }

  /** Another chain, of a file open or not or of a directory: it is the same chain, still
      apart from the file's, and its bytes are the same, those of the file's directory entry
      excepted. */
  ghost predicate ChainKept(g: Geometry, fat': seq<Word>, d: seq<Byte>, d': seq<Byte>, f: FileEntry, c': seq<nat>,
          e: seq<nat>)
    requires g.Valid() && |fat'| == g.clusters + 2 && |d| == |d'| == g.deviceBytes && g.bytesPerCluster > 0
  {
    && Chain(g, fat', e) && Disjoint(c', e) && Clusters(g, e)
    && (forall a: nat | g.rootLbo <= a < |d| && ClusterOf(g, a) in e
          && !(f.direntLbo <= a < f.direntLbo + DIRENT_SIZE) :: d'[a] == d[a])
    && (Home(g, f) !in e ==> Data(g, d', e, Capacity(g, e)) == Data(g, d, e, Capacity(g, e)))
  }

  ghost predicate OtherChainsKept(g: Geometry, fat: seq<Word>, fat': seq<Word>, d: seq<Byte>, d': seq<Byte>,
          f: FileEntry, c: seq<nat>, c': seq<nat>)
    requires g.Valid() && |fat| == |fat'| == g.clusters + 2 && |d| == |d'| == g.deviceBytes && g.bytesPerCluster > 0
  {
    forall e: seq<nat> | Chain(g, fat, e) && Disjoint(c, e) :: ChainKept(g, fat', d, d', f, c', e)
  }

  // A file, open or not, that is in order and apart from file fi.
  ghost predicate Bystander(g: Geometry, fat: seq<Word>, d: seq<Byte>, fi: FileEntry, ci: seq<nat>, f: FileEntry,
          c: seq<nat>)
    requires g.Valid() && |fat| == g.clusters + 2 && |d| == g.deviceBytes && g.bytesPerCluster > 0
  {
    FileOk(g, fat, d, f, c) && Apart(g, fi, ci, f, c)
  }

  /** Every other file, open or not, stays in order and apart from this one, and keeps its
      bytes. */
  ghost predicate OtherFilesKept(g: Geometry, fat: seq<Word>, fat': seq<Word>, d: seq<Byte>, d': seq<Byte>,
          fi: FileEntry, ci: seq<nat>, fi': FileEntry, ci': seq<nat>)
    requires g.Valid() && |fat| == |fat'| == g.clusters + 2 && |d| == |d'| == g.deviceBytes && g.bytesPerCluster > 0
  {
    forall f: FileEntry, c: seq<nat> | Bystander(g, fat, d, fi, ci, f, c) ::
      Bystander(g, fat', d', fi', ci', f, c) && SameContents(g, d, d', f, c)
  }

  lemma OnlyFileKeepsChains(g: Geometry, fat: seq<Word>, fat': seq<Word>, d: seq<Byte>, d': seq<Byte>, f: FileEntry,
          c: seq<nat>, c': seq<nat>)
    requires g.Valid() && |fat| == |fat'| == g.clusters + 2 && |d| == |d'| == g.deviceBytes && g.bytesPerCluster > 0
    requires OneHome(g, f) && OnlyFile(g, fat, fat', d, d', f.direntLbo, c, c')
    ensures OtherChainsKept(g, fat, fat', d, d', f, c, c')
  {
    hide Geometry.Valid, OnlyFile, Data, Capacity;
    forall e: seq<nat> | Chain(g, fat, e) && Disjoint(c, e)
      ensures ChainKept(g, fat', d, d', f, c', e)
    {
      OnlyFileKeepsChain(g, fat, fat', d, d', f, c, c', e);
    }
  }

  lemma OnlyFileKeepsChain(g: Geometry, fat: seq<Word>, fat': seq<Word>, d: seq<Byte>, d': seq<Byte>, f: FileEntry,
          c: seq<nat>, c': seq<nat>, e: seq<nat>)
    requires g.Valid() && |fat| == |fat'| == g.clusters + 2 && |d| == |d'| == g.deviceBytes && g.bytesPerCluster > 0
    requires OneHome(g, f) && OnlyFile(g, fat, fat', d, d', f.direntLbo, c, c')
    requires Chain(g, fat, e) && Disjoint(c, e)
    ensures ChainKept(g, fat', d, d', f, c', e)
  {
    hide Geometry.Valid, ClusterOf;
    ChainNotFree(g, fat, e);
    EndOfChain(g, fat, e);
    forall k | 0 <= k < |e|
      ensures Foreign(g, fat, c, e[k]) && e[k] !in c' && fat'[e[k]] == fat[e[k]]
    {
      assert e[k] in c' ==> e[k] in c || Unused(g, fat, e[k]);
    }
    assert Disjoint(c', e);
    ChainFrame(g, fat, fat', e);
    if Home(g, f) !in e {
      DataFrame(g, d, d', e, Capacity(g, e));
    }
  }

  lemma OnlyFileKeepsFiles(g: Geometry, fat: seq<Word>, fat': seq<Word>, d: seq<Byte>, d': seq<Byte>, fi: FileEntry,
          ci: seq<nat>, fi': FileEntry, ci': seq<nat>)
    requires g.Valid() && |fat| == |fat'| == g.clusters + 2 && |d| == |d'| == g.deviceBytes && g.bytesPerCluster > 0
    requires OneHome(g, fi) && OnlyFile(g, fat, fat', d, d', fi.direntLbo, ci, ci')
    requires fi.direntLbo != 0 && fi'.direntLbo == fi.direntLbo && !IsDirectory(fi) && !IsDirectory(fi')
    ensures OtherFilesKept(g, fat, fat', d, d', fi, ci, fi', ci')
  {
    hide Geometry.Valid, OnlyFile, FileOk, Apart, SameContents;
    forall f: FileEntry, c: seq<nat> | Bystander(g, fat, d, fi, ci, f, c)
      ensures Bystander(g, fat', d', fi', ci', f, c) && SameContents(g, d, d', f, c)
    {
      OnlyFileKeepsFile(g, fat, fat', d, d', fi, ci, fi', ci', f, c);
    }
  }

  // The directory entry of another file, and the cluster it lies in.
  lemma OnlyFileKeepsEntry(g: Geometry, fat: seq<Word>, fat': seq<Word>, d: seq<Byte>, d': seq<Byte>, fi: FileEntry,
          ci: seq<nat>, ci': seq<nat>, f: FileEntry, c: seq<nat>)
    requires g.Valid() && |fat| == |fat'| == g.clusters + 2 && |d| == |d'| == g.deviceBytes && g.bytesPerCluster > 0
    requires OnlyFile(g, fat, fat', d, d', fi.direntLbo, ci, ci') && !IsDirectory(fi) && fi.direntLbo != 0
    requires Bystander(g, fat, d, fi, ci, f, c) && f.direntLbo != 0
    ensures f.direntLbo + DIRENT_SIZE <= |d|
    ensures d'[f.direntLbo..f.direntLbo + DIRENT_SIZE] == d[f.direntLbo..f.direntLbo + DIRENT_SIZE]
    ensures Home(g, f) == 0 || (Home(g, f) < |fat'| && !IsFree(g, fat', Home(g, f)))
    ensures Home(g, f) !in ci'
  {
    hide Geometry.Valid, ClusterOf, FileChain, Encode;
    var l, h := f.direntLbo, Home(g, f);
    assert HomeOutside(g, f, fi, ci);
    assert h !in ci && Foreign(g, fat, ci, h);
    assert h in ci' ==> h in ci || Unused(g, fat, h);
    assert h != 0 ==> fat'[h] == fat[h];
    forall a: nat | l <= a < l + DIRENT_SIZE
      ensures d'[a] == d[a]
    {
      assert ClusterOf(g, a) == h;
    }
    assert d'[l..l + DIRENT_SIZE] == d[l..l + DIRENT_SIZE];
  }

  lemma OnlyFileKeepsFile(g: Geometry, fat: seq<Word>, fat': seq<Word>, d: seq<Byte>, d': seq<Byte>, fi: FileEntry,
          ci: seq<nat>, fi': FileEntry, ci': seq<nat>, f: FileEntry, c: seq<nat>)
    requires g.Valid() && |fat| == |fat'| == g.clusters + 2 && |d| == |d'| == g.deviceBytes && g.bytesPerCluster > 0
    requires OneHome(g, fi) && OnlyFile(g, fat, fat', d, d', fi.direntLbo, ci, ci')
    requires fi.direntLbo != 0 && fi'.direntLbo == fi.direntLbo && !IsDirectory(fi) && !IsDirectory(fi')
    requires Bystander(g, fat, d, fi, ci, f, c)
    ensures Bystander(g, fat', d', fi', ci', f, c) && SameContents(g, d, d', f, c)
  {
    hide Geometry.Valid, ClusterOf, OnlyFile, Encode, Chain, OneHome;
    if c != [] {
      OnlyFileKeepsChain(g, fat, fat', d, d', fi, ci, ci', c);
    }
    if f.direntLbo != 0 {
      OnlyFileKeepsEntry(g, fat, fat', d, d', fi, ci, ci', f, c);
    }
    assert Clusters(g, c) && f.dirent.fileSize <= Capacity(g, c) by { NoClusters(g); }
    if f.dirent.fileSize > 0 {
      assert c != [] && Home(g, fi) !in c by { NoClusters(g); }
      WholeToPart(g, d, d', c, f.dirent.fileSize);
    }
  }

  lemma NoClusters(g: Geometry)
    ensures Capacity(g, []) == 0
  {
  }

  lemma WholeToPart(g: Geometry, d: seq<Byte>, d': seq<Byte>, c: seq<nat>, n: nat)
    requires g.Valid() && |d| == |d'| == g.deviceBytes && Clusters(g, c) && n <= Capacity(g, c)
    requires Data(g, d', c, Capacity(g, c)) == Data(g, d, c, Capacity(g, c))
    ensures Data(g, d', c, n) == Data(g, d, c, n)
  {
    assert Data(g, d, c, n) == Data(g, d, c, Capacity(g, c))[..n];
    assert Data(g, d', c, n) == Data(g, d', c, Capacity(g, c))[..n];
  }

  /** One file changed, and every other chain and file, open or not, is as it was. */
  ghost predicate OnlyThisFile(g: Geometry, fat: seq<Word>, fat': seq<Word>, d: seq<Byte>, d': seq<Byte>, f: FileEntry,
          c: seq<nat>, f': FileEntry, c': seq<nat>)
    requires g.Valid() && |fat| == |fat'| == g.clusters + 2 && |d| == |d'| == g.deviceBytes && g.bytesPerCluster > 0
  {
    && OnlyFile(g, fat, fat', d, d', f.direntLbo, c, c')
    && OtherChainsKept(g, fat, fat', d, d', f, c, c')
    && OtherFilesKept(g, fat, fat', d, d', f, c, f', c')
  }

  lemma OnlyFileSuffices(g: Geometry, fat: seq<Word>, fat': seq<Word>, d: seq<Byte>, d': seq<Byte>, f: FileEntry,
          c: seq<nat>, f': FileEntry, c': seq<nat>)
    requires g.Valid() && |fat| == |fat'| == g.clusters + 2 && |d| == |d'| == g.deviceBytes && g.bytesPerCluster > 0
    requires FileOk(g, fat, d, f, c) && OnlyFile(g, fat, fat', d, d', f.direntLbo, c, c')
    requires f.direntLbo != 0 && f'.direntLbo == f.direntLbo && !IsDirectory(f) && !IsDirectory(f')
    ensures OnlyThisFile(g, fat, fat', d, d', f, c, f', c')
  {
    hide OnlyFile, Geometry.Valid, OtherChainsKept, OtherFilesKept, IsDirectory;
    OnlyFileKeepsChains(g, fat, fat', d, d', f, c, c');
    OnlyFileKeepsFiles(g, fat, fat', d, d', f, c, f', c');
  }

  /** Growing, or failing to grow, an open file: what GrowKeepsFiles says of the open files,
      and the same of all others. */
  lemma GrowthKeeps(g: Geometry, fat: seq<Word>, fat': seq<Word>, d: seq<Byte>, d': seq<Byte>, files: seq<FileEntry>,
          open: set<nat>, chains: seq<seq<nat>>, i: nat, f': FileEntry, grew: bool, taken: seq<nat>, n: nat)
    requires g.Valid() && FilesOk(g, fat, d, files, open, chains) && i in open && |d'| == |d|
    requires FileReplaced(g, fat, fat', d, d', files[i], chains[i], f', grew, taken, n) && !IsDirectory(files[i])
    ensures g.bytesPerCluster > 0 && |fat'| == |fat| == g.clusters + 2
    ensures var c' := if grew then chains[i] + taken else chains[i];
            && FilesOk(g, fat', d', files[i := f'], open, chains[i := c'])
            && OnlyThisFile(g, fat, fat', d, d', files[i], chains[i], f', c')
    ensures forall j :: j in open && j != i ==> SameContents(g, d, d', files[j], chains[j])
  {
    hide FileOk, Apart, HomeOutside, Extended, DiskTouched, Linked, Geometry.Valid, Contents, OnlyFile, OnlyThisFile,
        IsDirectory;
    Sizes(g, fat);
    Sizes(g, fat');
    GrowKeepsFiles(g, fat, fat', d, d', files, open, chains, i, f', grew, taken, n);
    GrowOnlyFile(g, fat, fat', d, d', files[i], chains[i], f', grew, taken, n);
    OnlyFileSuffices(g, fat, fat', d, d', files[i], chains[i], f', if grew then chains[i] + taken else chains[i]);
  }

  // One step after the other.
  lemma OnlyThisFileTrans(g: Geometry, fat: seq<Word>, fat1: seq<Word>, fat2: seq<Word>, d: seq<Byte>, d1: seq<Byte>,
          d2: seq<Byte>, f: FileEntry, c: seq<nat>, f1: FileEntry, c1: seq<nat>, f2: FileEntry, c2: seq<nat>)
    requires g.Valid() && |fat| == |fat1| == |fat2| == g.clusters + 2 && g.bytesPerCluster > 0
    requires |d| == |d1| == |d2| == g.deviceBytes && FileOk(g, fat, d, f, c)
    requires OnlyThisFile(g, fat, fat1, d, d1, f, c, f1, c1) && OnlyThisFile(g, fat1, fat2, d1, d2, f1, c1, f2, c2)
    requires f.direntLbo != 0 && f.direntLbo == f1.direntLbo == f2.direntLbo && !IsDirectory(f) && !IsDirectory(f2)
    ensures OnlyThisFile(g, fat, fat2, d, d2, f, c, f2, c2)
  {
    hide OnlyFile, Geometry.Valid, OtherChainsKept, OtherFilesKept, IsDirectory, FileOk;
    OnlyFileTrans(g, fat, fat1, fat2, d, d1, d2, f.direntLbo, c, c1, c2);
    OnlyFileSuffices(g, fat, fat2, d, d2, f, c, f2, c2);
  }

  lemma OnlyThisFileThenSame(g: Geometry, fat: seq<Word>, d: seq<Byte>, d1: seq<Byte>, d2: seq<Byte>, f: FileEntry,
          c: seq<nat>, f1: FileEntry, c1: seq<nat>)
    requires g.Valid() && |fat| == g.clusters + 2 && g.bytesPerCluster > 0
    requires |d| == |d1| == |d2| == g.deviceBytes && FileOk(g, fat, d, f, c)
    requires OnlyThisFile(g, fat, fat, d, d1, f, c, f1, c1) && SameData(g, d1, d2)
    requires f.direntLbo != 0 && f.direntLbo == f1.direntLbo && !IsDirectory(f) && !IsDirectory(f1)
    ensures OnlyThisFile(g, fat, fat, d, d2, f, c, f1, c1)
  {
    hide OnlyFile, Geometry.Valid, OtherChainsKept, OtherFilesKept, IsDirectory, FileOk, SameData;
    SameOnlyFile(g, fat, d1, d2, f.direntLbo, c1);
    OnlyFileTrans(g, fat, fat, fat, d, d1, d2, f.direntLbo, c, c1, c1);
    OnlyFileSuffices(g, fat, fat, d, d2, f, c, f1, c1);
  }

  // Emptying a file: its clusters are given back and its entry rewritten.
  lemma EmptiedOnlyFile(g: Geometry, fat: seq<Word>, d: seq<Byte>, d': seq<Byte>, f: FileEntry, c: seq<nat>,
          now: seq<Byte>)
    requires g.Valid() && Linked(g, fat) && |d| == |d'| == g.deviceBytes && FileOk(g, fat, d, f, c) && |now| == 4
    requires g.bytesPerCluster > 0 && f.direntLbo != 0 && !IsDirectory(f) && f.position == 0 && HomeOutside(g, f, f, c)
    requires g.IsNext(f.dirent.firstCluster) ==> g.InRange(f.dirent.firstCluster)
    requires var f' := TruncatedEntry(f, 0, now);
             Updated(g, d, d', [], f.direntLbo, if f' == f then [] else Encode(f'.dirent))
    ensures var f', fat' := TruncatedEntry(f, 0, now), Truncated(g, fat, f.dirent.firstCluster, 0);
            && |fat'| == |fat| && OnlyFile(g, fat, fat', d, d', f.direntLbo, c, [])
            && FileOk(g, fat', d', f', []) && !IsDirectory(f') && f'.direntLbo == f.direntLbo
            && f'.dirent.fileSize == 0
  {
    hide Geometry.Valid, ClusterOf, Encode, Truncated, FlagOn;
    ArchiveOnly();
    if c == [] {
      NoChain(g, fat, f.dirent.firstCluster);
      NoClusters(g);
    } else {
      EmptiedChain(g, fat, c);
      NoClusters(g);
    }
    var l, f' := f.direntLbo, TruncatedEntry(f, 0, now);
    if f' == f {
      assert d'[l..l + DIRENT_SIZE] == d[l..l + DIRENT_SIZE];
    } else {
      assert d'[l..l + DIRENT_SIZE] == Encode(f'.dirent);
    }
  }

  lemma ArchiveOnly()
    ensures !FlagOn(FAT_DIRENT_ATTR_ARCHIVE, FAT_DIRENT_ATTR_DIRECTORY)
    ensures !FlagOn(FAT_DIRENT_ATTR_ARCHIVE, FAT_DIRENT_ATTR_READ_ONLY)
  {
  }

  lemma NoChain(g: Geometry, fat: seq<Word>, first: Word)
    requires g.Valid() && Linked(g, fat) && first == FAT_CLUSTER_AVAILABLE
    ensures !g.IsNext(first) && Truncated(g, fat, first, 0) == fat
  {
  }

  lemma EmptiedChain(g: Geometry, fat: seq<Word>, c: seq<nat>)
    requires g.Valid() && Linked(g, fat) && Chain(g, fat, c)
    ensures c[0] < 0x1_0000 && g.IsNext(c[0]) && c[0] != FAT_CLUSTER_AVAILABLE
    ensures var fat' := Truncated(g, fat, c[0], 0);
            |fat'| == |fat| && forall x :: 0 <= x < |fat| && x !in c ==> fat'[x] == fat[x]
  {
    TruncatedEntries(g, fat, c, 0);
    assert c[0..] == c;
  }

  /** Emptying a file that is not open keeps the volume in order and the contents of every
      open file, and the file can then join them. */
  lemma EmptyKeepsFiles(g: Geometry, fat: seq<Word>, fat': seq<Word>, d: seq<Byte>, d': seq<Byte>,
          files: seq<FileEntry>, open: set<nat>, chains: seq<seq<nat>>, f: FileEntry, c: seq<nat>, f': FileEntry)
    requires g.Valid() && FilesOk(g, fat, d, files, open, chains) && g.bytesPerCluster > 0
    requires |fat| == |fat'| == g.clusters + 2 && |d| == |d'| == g.deviceBytes && Linked(g, fat')
    requires FileOk(g, fat, d, f, c) && forall j :: j in open ==> Apart(g, f, c, files[j], chains[j])
    requires f.direntLbo != 0 && !IsDirectory(f) && !IsDirectory(f') && f'.direntLbo == f.direntLbo
    requires OnlyFile(g, fat, fat', d, d', f.direntLbo, c, [])
    ensures OnlyThisFile(g, fat, fat', d, d', f, c, f', [])
    ensures FilesOk(g, fat', d', files, open, chains)
    ensures forall j :: j in open ==> Apart(g, f', [], files[j], chains[j])
    ensures forall j :: j in open ==> SameContents(g, d, d', files[j], chains[j])
  {
    hide FileOk, Apart, HomeOutside, Linked, Geometry.Valid, SameContents, OnlyFile, OtherChainsKept, IsDirectory;
    OnlyFileSuffices(g, fat, fat', d, d', f, c, f', []);
    forall j | j in open
      ensures FileOk(g, fat', d', files[j], chains[j]) && Apart(g, f', [], files[j], chains[j])
      ensures SameContents(g, d, d', files[j], chains[j])
    {
      assert Bystander(g, fat, d, f, c, files[j], chains[j]);
    }
  }
}
