/** Creating a file on a mounted volume: its entry joins a directory, the new file is open
    and empty, and every other file, open or not, stays as it was. */
module VolumeCreate {
  import opened FatFormat
  import opened FatStore
  import opened FatChains
  import opened FatAllocation
  import opened FileTable
  import opened FileAllocation
  import opened FileRuns
  import opened FileData
  import opened VolumeFiles
  import opened FatVolume
  import opened DirectorySlots
  import opened FatDirectory
  import opened DirectoryCreate

  // A file, open or not, that the directory with chain cd is not, and whose entry is one
  // in use that a search can find.
  ghost predicate Elsewhere(g: Geometry, fat: seq<Word>, d: seq<Byte>, cd: seq<nat>, f: FileEntry, c: seq<nat>)
    requires g.Valid() && |fat| == g.clusters + 2 && |d| == g.deviceBytes
  {
    && FileOk(g, fat, d, f, c) && Disjoint(cd, c)
    && (f.direntLbo != 0 ==> OnGrid(g, f.direntLbo) && SearchName(f.dirent.name))
  }

  // An entry lies in one cluster of its directory, or in the root directory.
  lemma {:induction false} SlotHome(g: Geometry, c: seq<nat>, l: nat) returns (e: nat)
    requires g.Valid() && g.bytesPerCluster > 0 && Clusters(g, c) && l in Slots(g, c)
    ensures e in c && forall a: nat | l <= a < l + DIRENT_SIZE :: ClusterOf(g, a) == e
    decreases |c|
  {
    hide Geometry.Valid, ClusterOf, Run;
    if l in ClusterSlots(g, c[0]) {
      ClusterPlaces(g, c[0]);
      var i :| 0 <= i < |ClusterSlots(g, c[0])| && ClusterSlots(g, c[0])[i] == l;
      assert Within(g, ClusterSlots(g, c[0])[i], [c[0]]);
      e := c[0];
    } else {
      e := SlotHome(g, c[1..], l);
    }
  }

  lemma EntryHome(g: Geometry, start: Word, c: seq<nat>, f: FileEntry)
    requires g.Valid() && g.bytesPerCluster > 0 && Clusters(g, c) && (start == FAT_CLUSTER_AVAILABLE <==> c == [])
    requires f.direntLbo in DirSlots(g, start, c)
    ensures OneHome(g, f) && (Home(g, f) == 0 || Home(g, f) in c)
  {
    hide Geometry.Valid;
    var l := f.direntLbo;
    if c == [] {
      RunAt(g.rootLbo, g.rootSize / DIRENT_SIZE);
      RootBelow(g, l);
    } else {
      var e := SlotHome(g, c, l);
    }
  }

  lemma RootBelow(g: Geometry, l: nat)
    requires g.Valid() && g.bytesPerCluster > 0 && l in RootSlots(g)
    ensures forall a: nat | l <= a < l + DIRENT_SIZE :: ClusterOf(g, a) == 0
  {
    RunAt(g.rootLbo, g.rootSize / DIRENT_SIZE);
  }

  // Two entries in different places of the grid do not overlap.
  lemma GridApart(g: Geometry, l: nat, k: nat)
    requires OnGrid(g, l) && OnGrid(g, k) && l != k
    ensures l + DIRENT_SIZE <= k || k + DIRENT_SIZE <= l
  {
  }

  lemma UpdatedTouches(g: Geometry, d: seq<Byte>, d': seq<Byte>, taken: seq<nat>, lbo: nat, b: seq<Byte>)
    requires g.bytesPerCluster > 0 && Updated(g, d, d', taken, lbo, b)
    ensures DiskTouched(g, d, d', taken, lbo, |b|)
  {
  }

  lemma ZeroedTouches(g: Geometry, d: seq<Byte>, d': seq<Byte>, taken: seq<nat>, lbo: nat)
    requires g.bytesPerCluster > 0 && (Zeroed(g, d, d', taken) || (taken == [] && SameData(g, d, d')))
    ensures DiskTouched(g, d, d', taken, lbo, 0)
  {
  }

  // Where a new entry goes is not where a file's entry is.
  lemma EntriesDiffer(g: Geometry, fat: seq<Word>, d: seq<Byte>, cd: seq<nat>, f: FileEntry, c: seq<nat>, l: nat)
    requires g.Valid() && |fat| == g.clusters + 2 && |d| == g.deviceBytes && Elsewhere(g, fat, d, cd, f, c)
    requires f.direntLbo != 0 && l + DIRENT_SIZE <= |d| && OnGrid(g, l) && IsFreeSlot(d, l)
    ensures f.direntLbo + DIRENT_SIZE <= l || l + DIRENT_SIZE <= f.direntLbo
  {
    hide Geometry.Valid, Encode, FileChain;
    EncodedName(f.dirent);
    var k := f.direntLbo;
    assert d[k..k + DIRENT_SIZE][0] == d[k];
    if k != l {
      GridApart(g, k, l);
    }
  }

  // Where a file without clusters has its entry is outside its clusters, and so on.
  lemma PlaceAside(g: Geometry, fat: seq<Word>, d: seq<Byte>, fi: FileEntry, f: FileEntry, c: seq<nat>)
    requires g.Valid() && |fat| == g.clusters + 2 && |d| == g.deviceBytes && g.bytesPerCluster > 0
    requires forall x :: x in c ==> g.InRange(x) && x != Home(g, fi)
    requires f.direntLbo != 0 ==>
               f.direntLbo + DIRENT_SIZE <= fi.direntLbo || fi.direntLbo + DIRENT_SIZE <= f.direntLbo
    ensures Apart(g, fi, [], f, c) && HomeOutside(g, fi, f, c)
  {
  }

  lemma SameHome(g: Geometry, f: FileEntry, a: nat)
    requires g.bytesPerCluster > 0 && OneHome(g, f) && f.direntLbo <= a < f.direntLbo + DIRENT_SIZE
    ensures ClusterOf(g, a) == Home(g, f)
  {
  }

  // A gained cluster was free, so no file has its bytes or its entry there.
  lemma GainedAside(g: Geometry, fat: seq<Word>, d: seq<Byte>, fi: FileEntry, f: FileEntry, c: seq<nat>)
    requires g.Valid() && Linked(g, fat) && |fat| == g.clusters + 2 && |d| == g.deviceBytes && g.bytesPerCluster > 0
    requires FileOk(g, fat, d, f, c) && OneHome(g, fi) && g.InRange(Home(g, fi)) && IsFree(g, fat, Home(g, fi))
    ensures forall x :: x in c ==> g.InRange(x) && x != Home(g, fi)
    ensures f.direntLbo != 0 ==>
              f.direntLbo + DIRENT_SIZE <= fi.direntLbo || fi.direntLbo + DIRENT_SIZE <= f.direntLbo
  {
    hide Geometry.Valid, ClusterOf, FileChain, Encode;
    FileOkClusters(g, fat, d, f, c);
    var k, l := f.direntLbo, fi.direntLbo;
    if k != 0 && !(k + DIRENT_SIZE <= l || l + DIRENT_SIZE <= k) {
      var a := if k < l then l else k;
      assert ClusterOf(g, a) == Home(g, fi);
      SameHome(g, f, a);
    }
  }

  lemma PlaceInUse(g: Geometry, fat: seq<Word>, d: seq<Byte>, cd: seq<nat>, fi: FileEntry, f: FileEntry, c: seq<nat>)
    requires g.Valid() && Linked(g, fat) && |fat| == g.clusters + 2 && |d| == g.deviceBytes && g.bytesPerCluster > 0
    requires FileOk(g, fat, d, f, c) && Disjoint(cd, c) && (Home(g, fi) == 0 || Home(g, fi) in cd)
    ensures forall x :: x in c ==> g.InRange(x) && x != Home(g, fi)
  {
    hide Geometry.Valid, ClusterOf, FileOk;
    FileOkClusters(g, fat, d, f, c);
  }

  lemma ElsewhereOk(g: Geometry, fat: seq<Word>, d: seq<Byte>, cd: seq<nat>, f: FileEntry, c: seq<nat>)
    requires g.Valid() && |fat| == g.clusters + 2 && |d| == g.deviceBytes && Elsewhere(g, fat, d, cd, f, c)
    ensures FileOk(g, fat, d, f, c) && Disjoint(cd, c)
  {
  }

  lemma NoneDisjoint(c: seq<nat>)
    ensures Disjoint([], c)
  {
  }

  // The first free place of a directory is one of its places, and free.
  lemma FreePlace(g: Geometry, d: seq<Byte>, start: Word, cd: seq<nat>)
    requires g.Valid() && |d| == g.deviceBytes && Clusters(g, cd) && Placed(d, DirSlots(g, start, cd))
    requires FirstFree(d, DirSlots(g, start, cd)).Some?
    ensures var l := FirstFree(d, DirSlots(g, start, cd)).value;
            l in DirSlots(g, start, cd) && l + DIRENT_SIZE <= |d| && OnGrid(g, l) && IsFreeSlot(d, l)
  {
    hide Geometry.Valid, Slots, RootSlots, OnGrid, FirstFree;
    DirSlotsPlaced(g, start, cd, d);
    var k := FirstFreeIsFirst(d, DirSlots(g, start, cd));
  }

  // A new entry in a gained cluster.
  lemma GainedHome(g: Geometry, fat: seq<Word>, fat': seq<Word>, cd: seq<nat>, taken: seq<nat>, fi: FileEntry)
    requires g.Valid() && g.bytesPerCluster > 0 && |taken| == 1 && Grown(g, fat, fat', cd, taken)
    requires g.InRange(taken[0]) && fi.direntLbo == g.IndexToLbo(taken[0])
    ensures OneHome(g, fi) && Home(g, fi) == taken[0] && IsFree(g, fat, Home(g, fi))
  {
    hide Geometry.Valid, ClusterOf, Chain;
    ClusterPlaces(g, taken[0]);
    AtLeastOne(g);
    assert ClusterSlots(g, taken[0])[0] == g.IndexToLbo(taken[0]);
    assert Within(g, ClusterSlots(g, taken[0])[0], [taken[0]]);
    assert ClusterOf(g, fi.direntLbo) in [taken[0]];
  }

  lemma AfterRoot(g: Geometry, e: nat)
    requires g.Valid()
    ensures g.rootLbo > 0 && (g.InRange(e) ==> g.IndexToLbo(e) != 0)
  {
  }

  // The three ways an entry may come to a directory, or not, and another file: the first
  // free place is taken, ...
  lemma PutKeepsFile(g: Geometry, fat: seq<Word>, d: seq<Byte>, d': seq<Byte>, start: Word, cd: seq<nat>,
          dirent: Dirent, lbo: nat, f: FileEntry, c: seq<nat>)
    requires g.Valid() && Linked(g, fat) && |fat| == g.clusters + 2 && |d| == |d'| == g.deviceBytes
    requires g.bytesPerCluster > 0 && FileChain(g, fat, start, cd) && Clusters(g, cd)
    requires Placed(d, DirSlots(g, start, cd)) && FirstFree(d, DirSlots(g, start, cd)) == Some(lbo)
    requires Updated(g, d, d', [], lbo, Encode(dirent)) && Elsewhere(g, fat, d, cd, f, c)
    ensures FileOk(g, fat, d', f, c) && SameContents(g, d, d', f, c)
    ensures Apart(g, FileEntry(0, lbo, dirent), [], f, c)
  {
    hide Geometry.Valid, Encode, FirstFree, Slots, RootSlots, ClusterOf, FileChain, OnGrid, FileOk, Updated,
        DiskTouched, Extended, Placed, SearchName, Apart, HomeOutside, OneHome, Elsewhere, IsFree, Contents, Clusters,
        Capacity, Linked, Walkable, Home, IsFreeSlot, Disjoint, Distinct;
    var fi := FileEntry(0, lbo, dirent);
    DirSlotsDistinct(g, fat, start, cd);
    ElsewhereOk(g, fat, d, cd, f, c);
    FreePlace(g, d, start, cd);
    AfterRoot(g, 0);
    AtOrAfterRoot(g, lbo);
    EntryHome(g, start, cd, fi);
    if f.direntLbo != 0 {
      EntriesDiffer(g, fat, d, cd, f, c, lbo);
    }
    PlaceInUse(g, fat, d, cd, fi, f, c);
    PlaceAside(g, fat, d, fi, f, c);
    UpdatedTouches(g, d, d', [], lbo, Encode(dirent));
    NothingExtended(g, fat);
    NoneDisjoint(c);
    OtherFileOk(g, fat, fat, d, d', [], [], fi, DIRENT_SIZE, f, c);
    OtherData(g, fat, d, d', [], fi, DIRENT_SIZE, f, c);
  }

  // ... a cluster is gained, ...
  lemma GainKeepsFile(g: Geometry, fat: seq<Word>, fat': seq<Word>, d: seq<Byte>, d': seq<Byte>, cd: seq<nat>,
          dirent: Dirent, taken: seq<nat>, f: FileEntry, c: seq<nat>)
    requires g.Valid() && Linked(g, fat) && |fat| == g.clusters + 2 && |d| == |d'| == g.deviceBytes
    requires g.bytesPerCluster > 0 && |taken| == 1 && g.InRange(taken[0]) && Grown(g, fat, fat', cd, taken)
    requires Updated(g, d, d', taken, g.IndexToLbo(taken[0]), Encode(dirent)) && Elsewhere(g, fat, d, cd, f, c)
    ensures |fat'| == |fat| && FileOk(g, fat', d', f, c) && SameContents(g, d, d', f, c)
    ensures Apart(g, FileEntry(0, g.IndexToLbo(taken[0]), dirent), [], f, c)
  {
    hide Geometry.Valid, Encode, ClusterOf, FileOk, Updated, DiskTouched, Extended, Apart, HomeOutside, OneHome,
        Elsewhere, IsFree, Contents, Clusters, Capacity, Linked, Home, Disjoint, Chain;
    var lbo := g.IndexToLbo(taken[0]);
    var fi := FileEntry(0, lbo, dirent);
    ElsewhereOk(g, fat, d, cd, f, c);
    AfterRoot(g, taken[0]);
    GainedHome(g, fat, fat', cd, taken, fi);
    GainedAside(g, fat, d, fi, f, c);
    PlaceAside(g, fat, d, fi, f, c);
    UpdatedTouches(g, d, d', taken, lbo, Encode(dirent));
    GrownExtends(g, fat, fat', cd, taken);
    AreTaken(g, fat, taken);
    OtherFileOk(g, fat, fat', d, d', cd, taken, fi, DIRENT_SIZE, f, c);
    OtherData(g, fat, d, d', taken, fi, DIRENT_SIZE, f, c);
  }

  lemma AreTaken(g: Geometry, fat: seq<Word>, taken: seq<nat>)
    requires |fat| == g.clusters + 2 && forall e :: e in taken ==> g.InRange(e) && IsFree(g, fat, e)
    ensures forall e :: e in taken ==> IsTaken(g, fat, e)
  {
  }

  // ... or there is no room.
  lemma FullKeepsFile(g: Geometry, fat: seq<Word>, fat': seq<Word>, d: seq<Byte>, d': seq<Byte>, cd: seq<nat>,
          taken: seq<nat>, f: FileEntry, c: seq<nat>)
    requires g.Valid() && Linked(g, fat) && |fat| == g.clusters + 2 && |d| == |d'| == g.deviceBytes
    requires g.bytesPerCluster > 0 && (Zeroed(g, d, d', taken) || (taken == [] && SameData(g, d, d')))
    requires Allocated(g, fat, fat', taken) && Elsewhere(g, fat, d, cd, f, c)
    ensures |fat'| == |fat| && FileOk(g, fat', d', f, c) && SameContents(g, d, d', f, c)
  {
    hide Geometry.Valid, ClusterOf, FileOk, Zeroed, SameData, DiskTouched, Extended, Elsewhere, IsFree, Contents,
        Clusters, Capacity, Linked, Disjoint, Chain;
    var fi := FileEntry(0, 0, f.dirent);
    ElsewhereOk(g, fat, d, cd, f, c);
    ZeroedTouches(g, d, d', taken, 0);
    AllocatedExtends(g, fat, fat', taken);
    AreTaken(g, fat, taken);
    NoneDisjoint(c);
    OtherFileOk(g, fat, fat', d, d', [], taken, fi, 0, f, c);
    OtherData(g, fat, d, d', taken, fi, 0, f, c);
  }

  lemma NothingExtended(g: Geometry, fat: seq<Word>)
    requires |fat| == g.clusters + 2
    ensures Extended(g, fat, fat, [], [])
  {
  }

  lemma AllocatedExtends(g: Geometry, fat: seq<Word>, fat': seq<Word>, taken: seq<nat>)
    requires Allocated(g, fat, fat', taken)
    ensures Extended(g, fat, fat', [], taken)
  {
  }

  /** Adding an entry to a directory, whatever comes of it, leaves every other file, open or
      not, in order, with its chain and its bytes. */
  lemma CreateKeepsFile(g: Geometry, fat: seq<Word>, fat': seq<Word>, d: seq<Byte>, d': seq<Byte>, start: Word,
          cd: seq<nat>, dirent: Dirent, status: Status, lbo: nat, taken: seq<nat>, f: FileEntry, c: seq<nat>)
    requires g.Valid() && Linked(g, fat) && |fat| == |fat'| == g.clusters + 2 && |d| == |d'| == g.deviceBytes
    requires g.bytesPerCluster > 0 && FileChain(g, fat, start, cd) && Clusters(g, cd)
    requires Placed(d, DirSlots(g, start, cd)) && 2 <= Hint(cd) < 0x1_0000
    requires CreateOutcome(g, fat, fat', d, d', start, cd, dirent, status, lbo, taken)
    requires Elsewhere(g, fat, d, cd, f, c)
    ensures FileOk(g, fat', d', f, c) && SameContents(g, d, d', f, c)
    ensures status == ESUCCESS ==> Apart(g, FileEntry(0, lbo, dirent), [], f, c)
  {
    hide Geometry.Valid, Encode, FirstFree, Slots, RootSlots, FreeInScan, FileChain, FileOk, Updated, Zeroed,
        SameData, Grown, Allocated, Placed, Apart, Elsewhere, SameContents, Linked, Hint;
    if FirstFree(d, DirSlots(g, start, cd)).Some? {
      PutKeepsFile(g, fat, d, d', start, cd, dirent, lbo, f, c);
    } else if status == ESUCCESS {
      GainKeepsFile(g, fat, fat', d, d', cd, dirent, taken, f, c);
    } else {
      NothingAllocated(g, fat);
      FullKeepsFile(g, fat, fat', d, d', cd, taken, f, c);
    }
  }

  lemma NothingAllocated(g: Geometry, fat: seq<Word>)
    requires |fat| == g.clusters + 2
    ensures Allocated(g, fat, fat, [])
  {
  }

  // The entry of a file just made: no clusters and no bytes.
  function NewDirent(name: seq<Byte>, now: seq<Byte>): Dirent
    requires |name| == 11 && |now| == 4
  {
    Dirent(name, FAT_DIRENT_ATTR_ARCHIVE, seq(10, _ => 0), now, FAT_CLUSTER_AVAILABLE, 0)
  }

  // Its place is in a cluster of the directory, or in the root directory.
  lemma CreatedHome(g: Geometry, fat: seq<Word>, fat': seq<Word>, d: seq<Byte>, d': seq<Byte>, start: Word,
          cd: seq<nat>, dirent: Dirent, lbo: nat, taken: seq<nat>)
    requires g.Valid() && |fat| == |fat'| == g.clusters + 2 && |d| == |d'| == g.deviceBytes && g.bytesPerCluster > 0
    requires FileChain(g, fat, start, cd) && Clusters(g, cd)
    requires Placed(d, DirSlots(g, start, cd)) && 2 <= Hint(cd) < 0x1_0000
    requires CreateOutcome(g, fat, fat', d, d', start, cd, dirent, ESUCCESS, lbo, taken)
    ensures var fi := FileEntry(0, lbo, dirent);
            OneHome(g, fi) && (Home(g, fi) == 0 || (g.InRange(Home(g, fi)) && !IsFree(g, fat', Home(g, fi))))
    ensures g.rootLbo <= lbo && lbo + DIRENT_SIZE <= |d'| && lbo != 0 && Updated(g, d, d', taken, lbo, Encode(dirent))
  {
    hide Geometry.Valid, Encode, FirstFree, Slots, RootSlots, ClusterOf, FreeInScan, OnGrid, Updated, Placed,
        OneHome, Zeroed, SameData, Distinct, IsFree, IsFreeSlot;
    var fi := FileEntry(0, lbo, dirent);
    DirSlotsDistinct(g, fat, start, cd);
    AfterRoot(g, 0);
    if FirstFree(d, DirSlots(g, start, cd)).Some? {
      FreePlace(g, d, start, cd);
      AtOrAfterRoot(g, lbo);
      EntryHome(g, start, cd, fi);
      if cd != [] {
        ChainNotFree(g, fat, cd);
      }
    } else {
      AfterRoot(g, taken[0]);
      GainedHome(g, fat, fat', cd, taken, fi);
      ChainNotFree(g, fat', cd + taken);
      assert taken[0] in cd + taken;
      RunInCluster(g, taken[0], d);
      AtOrAfterRoot(g, lbo);
    }
  }

  /** The new file is in order, empty, and has no cluster to meet its own entry. */
  lemma CreatedOk(g: Geometry, fat: seq<Word>, fat': seq<Word>, d: seq<Byte>, d': seq<Byte>, start: Word, cd: seq<nat>,
          name: seq<Byte>, now: seq<Byte>, lbo: nat, taken: seq<nat>)
    requires g.Valid() && |fat| == |fat'| == g.clusters + 2 && |d| == |d'| == g.deviceBytes && g.bytesPerCluster > 0
    requires FileChain(g, fat, start, cd) && Clusters(g, cd) && |name| == 11 && |now| == 4
    requires Placed(d, DirSlots(g, start, cd)) && 2 <= Hint(cd) < 0x1_0000
    requires CreateOutcome(g, fat, fat', d, d', start, cd, NewDirent(name, now), ESUCCESS, lbo, taken)
    ensures FileOk(g, fat', d', FileEntry(0, lbo, NewDirent(name, now)), [])
    ensures HomeOutside(g, FileEntry(0, lbo, NewDirent(name, now)), FileEntry(0, lbo, NewDirent(name, now)), [])
  {
    hide Geometry.Valid, Encode, ClusterOf, CreateOutcome, Placed, Slots, RootSlots, FlagOn, Hint;
    var dirent := NewDirent(name, now);
    CreatedHome(g, fat, fat', d, d', start, cd, dirent, lbo, taken);
    ArchiveOnly();
    NoClusters(g);
    assert d'[lbo..lbo + DIRENT_SIZE] == Encode(dirent);
  }

  // The open files and the new one.
  lemma CreateKeepsFiles(g: Geometry, fat: seq<Word>, fat': seq<Word>, d: seq<Byte>, d': seq<Byte>, start: Word,
          cd: seq<nat>, dirent: Dirent, status: Status, lbo: nat, taken: seq<nat>, files: seq<FileEntry>,
          open: set<nat>, chains: seq<seq<nat>>)
    requires g.Valid() && |fat| == |fat'| == g.clusters + 2 && |d| == |d'| == g.deviceBytes
    requires g.bytesPerCluster > 0 && FileChain(g, fat, start, cd) && Clusters(g, cd) && Linked(g, fat')
    requires Placed(d, DirSlots(g, start, cd)) && 2 <= Hint(cd) < 0x1_0000
    requires CreateOutcome(g, fat, fat', d, d', start, cd, dirent, status, lbo, taken)
    requires FilesOk(g, fat, d, files, open, chains)
    requires forall j :: j in open ==> Elsewhere(g, fat, d, cd, files[j], chains[j])
    ensures FilesOk(g, fat', d', files, open, chains)
    ensures forall j :: j in open ==> FileOk(g, fat', d', files[j], chains[j])
    ensures forall j :: j in open ==> SameContents(g, d, d', files[j], chains[j])
    ensures forall j :: j in open && status == ESUCCESS ==>
              Apart(g, FileEntry(0, lbo, dirent), [], files[j], chains[j])
  {
    hide Geometry.Valid, CreateOutcome, FileChain, FileOk, Apart, HomeOutside, Elsewhere, SameContents, Linked, Hint,
        Placed, Clusters;
    forall j | j in open
      ensures FileOk(g, fat', d', files[j], chains[j]) && SameContents(g, d, d', files[j], chains[j])
      ensures status == ESUCCESS ==> Apart(g, FileEntry(0, lbo, dirent), [], files[j], chains[j])
    {
      CreateKeepsFile(g, fat, fat', d, d', start, cd, dirent, status, lbo, taken, files[j], chains[j]);
    }
  }

  // The directory afterwards: a cluster longer if it gained one.
  ghost function NextChain(cd: seq<nat>, status: Status, taken: seq<nat>): seq<nat> {
    if status == ESUCCESS then cd + taken else cd
  }

  lemma NextDirectory(g: Geometry, fat: seq<Word>, fat': seq<Word>, d: seq<Byte>, d': seq<Byte>, start: Word,
          cd: seq<nat>, dirent: Dirent, status: Status, lbo: nat, taken: seq<nat>)
    requires g.Valid() && |fat| == |fat'| == g.clusters + 2 && |d| == |d'| == g.deviceBytes
    requires g.bytesPerCluster > 0 && FileChain(g, fat, start, cd) && Clusters(g, cd)
    requires Placed(d, DirSlots(g, start, cd)) && 2 <= Hint(cd) < 0x1_0000
    requires CreateOutcome(g, fat, fat', d, d', start, cd, dirent, status, lbo, taken)
    ensures FileChain(g, fat', start, NextChain(cd, status, taken))
    ensures forall e :: e in NextChain(cd, status, taken) ==> e in cd || (g.InRange(e) && IsFree(g, fat, e))
  {
    hide Geometry.Valid, Encode, FirstFree, Slots, RootSlots, ClusterOf, FreeInScan, Updated, Placed, Zeroed,
        SameData, Distinct, IsFree, IsFreeSlot, Hint, Chain;
    DirSlotsDistinct(g, fat, start, cd);
    if FirstFree(d, DirSlots(g, start, cd)).Some? {
      assert cd + taken == cd;
    } else if status == ESUCCESS {
      GrownChain(g, fat, fat', cd, taken);
    } else if cd != [] {
      ChainNotFree(g, fat, cd);
      ChainFrame(g, fat, fat', cd);
    }
  }

  lemma StillElsewhere(g: Geometry, fat: seq<Word>, fat': seq<Word>, d: seq<Byte>, d': seq<Byte>, cd: seq<nat>,
          cd': seq<nat>, f: FileEntry, c: seq<nat>)
    requires g.Valid() && Linked(g, fat) && |fat| == |fat'| == g.clusters + 2 && |d| == |d'| == g.deviceBytes
    requires Elsewhere(g, fat, d, cd, f, c) && FileOk(g, fat', d', f, c)
    requires forall e :: e in cd' ==> e in cd || (g.InRange(e) && IsFree(g, fat, e))
    ensures Elsewhere(g, fat', d', cd', f, c)
  {
    hide Geometry.Valid, FileOk, OnGrid, SearchName, Linked, IsFree;
    FileOkClusters(g, fat, d, f, c);
    forall i, j | 0 <= i < |cd'| && 0 <= j < |c|
      ensures cd'[i] != c[j]
    {
      assert cd'[i] in cd' && c[j] in c;
    }
  }

  /** Every file outside the directory, open or not, stays there, keeps its chain and its
      bytes, and is apart from the new file if there is one. */
  ghost predicate OthersKept(g: Geometry, fat: seq<Word>, fat': seq<Word>, d: seq<Byte>, d': seq<Byte>, cd: seq<nat>,
          cd': seq<nat>, made: Option<FileEntry>)
    requires g.Valid() && |fat| == |fat'| == g.clusters + 2 && |d| == |d'| == g.deviceBytes && g.bytesPerCluster > 0
  {
    forall f: FileEntry, c: seq<nat> | Elsewhere(g, fat, d, cd, f, c) ::
      && Elsewhere(g, fat', d', cd', f, c) && SameContents(g, d, d', f, c)
      && (made.Some? ==> Apart(g, made.value, [], f, c))
  }

  lemma CreateKeepsOthers(g: Geometry, fat: seq<Word>, fat': seq<Word>, d: seq<Byte>, d': seq<Byte>, start: Word,
          cd: seq<nat>, dirent: Dirent, status: Status, lbo: nat, taken: seq<nat>)
    requires g.Valid() && Linked(g, fat) && |fat| == |fat'| == g.clusters + 2 && |d| == |d'| == g.deviceBytes
    requires g.bytesPerCluster > 0 && FileChain(g, fat, start, cd) && Clusters(g, cd)
    requires Placed(d, DirSlots(g, start, cd)) && 2 <= Hint(cd) < 0x1_0000
    requires CreateOutcome(g, fat, fat', d, d', start, cd, dirent, status, lbo, taken)
    ensures OthersKept(g, fat, fat', d, d', cd, NextChain(cd, status, taken),
                       if status == ESUCCESS then Some(FileEntry(0, lbo, dirent)) else None)
  {
    hide Geometry.Valid, CreateOutcome, FileChain, FileOk, Apart, Elsewhere, SameContents, Linked, Hint, Placed,
        Clusters, NextChain, IsFree;
    NextDirectory(g, fat, fat', d, d', start, cd, dirent, status, lbo, taken);
    forall f: FileEntry, c: seq<nat> | Elsewhere(g, fat, d, cd, f, c)
      ensures Elsewhere(g, fat', d', NextChain(cd, status, taken), f, c) && SameContents(g, d, d', f, c)
      ensures status == ESUCCESS ==> Apart(g, FileEntry(0, lbo, dirent), [], f, c)
    {
      CreateKeepsFile(g, fat, fat', d, d', start, cd, dirent, status, lbo, taken, f, c);
      StillElsewhere(g, fat, fat', d, d', cd, NextChain(cd, status, taken), f, c);
    }
  }

  // What a name that no entry has comes to in a mode that makes files.
  predicate Creates(mode: OpenMode) {
    mode.CreateWriteOnly? || mode.CreateReadWrite? || Supersedes(mode)
  }

  function CreateFlags(mode: OpenMode): Flags {
    Flags(mode.CreateReadWrite? || mode.SupersedeReadWrite?, true)
  }

  lemma MadeBytes(v: Volume, d0: seq<Byte>, files: seq<FileEntry>, j: nat)
    requires v.Valid() && j in v.open && v.s.g.Valid() && |v.s.disk| == |d0| == v.s.g.deviceBytes
    requires j < |files| == v.fileTable.Length == |v.chains| && v.fileTable[j] == files[j]
    requires SameContents(v.s.g, d0, v.s.disk, files[j], v.chains[j])
    ensures v.Bytes(j) == Contents(v.s.g, d0, files[j], v.chains[j])
  {
    v.KeptBytes(d0, files, j);
  }

  /** What adding a file comes to: the directory's outcome, the new entry, and every other
      file kept, also when there is no room. */
  ghost predicate Made(g: Geometry, fat: seq<Word>, fat': seq<Word>, d: seq<Byte>, d': seq<Byte>, start: Word,
          cd: seq<nat>, name: seq<Byte>, now: seq<Byte>, status: Status, f: FileEntry, taken: seq<nat>)
  {
    && g.Valid() && |fat| == |fat'| == g.clusters + 2 && |d| == |d'| == g.deviceBytes && g.bytesPerCluster > 0
    && FileChain(g, fat, start, cd) && Clusters(g, cd) && |name| == 11 && |now| == 4
    && Placed(d, DirSlots(g, start, cd)) && 2 <= Hint(cd) < 0x1_0000
    && f.dirent == NewDirent(name, now) && f.position == 0
    && CreateOutcome(g, fat, fat', d, d', start, cd, f.dirent, status, f.direntLbo, taken)
    && OthersKept(g, fat, fat', d, d', cd, NextChain(cd, status, taken), if status == ESUCCESS then Some(f) else None)
  }

  /** A search finds the new file under its name, and every other name as before. */
  lemma MadeIsFound(g: Geometry, fat: seq<Word>, fat': seq<Word>, d: seq<Byte>, d': seq<Byte>, start: Word,
          cd: seq<nat>, name: seq<Byte>, now: seq<Byte>, f: FileEntry, taken: seq<nat>, other: seq<Byte>)
    requires Made(g, fat, fat', d, d', start, cd, name, now, ESUCCESS, f, taken)
    requires SearchName(name) && SearchName(other)
    requires Find(d, DirSlots(g, start, cd), name, cd == []).None?
    ensures Clusters(g, cd + taken) && Placed(d', DirSlots(g, start, cd + taken))
    ensures Find(d', DirSlots(g, start, cd + taken), name, cd == []) == Some(f.direntLbo)
    ensures Clean(d, DirSlots(g, start, cd)) && other != name ==>
              Find(d', DirSlots(g, start, cd + taken), other, cd == [])
                == Find(d, DirSlots(g, start, cd), other, cd == [])
  {
    hide Geometry.Valid, CreateOutcome, FileChain, Find, Slots, RootSlots, Placed, Clean, OthersKept, Hint, SearchName,
        Hidden, Clusters;
    NoLabel();
    AddedIsFound(g, fat, fat', d, d', start, cd, f.dirent, f.direntLbo, taken, name);
    AddedIsFound(g, fat, fat', d, d', start, cd, f.dirent, f.direntLbo, taken, other);
  }

  lemma NoLabel()
    ensures !FlagOn(FAT_DIRENT_ATTR_ARCHIVE, FAT_DIRENT_ATTR_VOLUME_ID)
  {
  }

  // The open files are none of them the directory, and all have entries that can be found.
  ghost predicate AllElsewhere(v: Volume, cd: seq<nat>)
    reads v, v.s, v.fileTable
  {
    && v.s.g.Valid() && |v.s.disk| == v.s.g.deviceBytes && |v.s.Fat| == v.s.g.clusters + 2
    && forall j :: j in v.open ==>
        && j < v.fileTable.Length && j < |v.chains|
        && Elsewhere(v.s.g, v.s.Fat, v.s.disk, cd, v.fileTable[j], v.chains[j])
  }

  /** Opening a name that a search did not find. A mode that makes files adds an entry to
      the directory, in a free place or in a cluster the directory gains, and the new file
      is open and empty; any other mode is refused. */
  method OpenMissing(v: Volume, fileId: nat, start: Word, name: seq<Byte>, mode: OpenMode, now: seq<Byte>,
          ghost cd: seq<nat>)
    returns (status: Status, flags: Flags, ghost taken: seq<nat>)
    requires v.Valid() && fileId < v.fileTable.Length && fileId !in v.open && !mode.CreateDirectory?
    requires SearchName(name) && |now| == 4 && DirChain(v.s, start, cd) && AllElsewhere(v, cd)
    modifies v`open, v`chains, v.fileTable, v.s, v.s.cachedFat
    ensures v.Valid()
    ensures match mode
            case OpenReadOnly | OpenWriteOnly | OpenReadWrite | OpenDirectory =>
              status == ENOENT && v.s.Fat == old(v.s.Fat) && v.s.disk == old(v.s.disk)
            case _ =>
              Made(v.s.g, old(v.s.Fat), v.s.Fat, old(v.s.disk), v.s.disk, start, cd, name, now, status,
                   v.fileTable[fileId], taken)
    // The new entry is on the device: the name, the archive flag, the time, and no cluster
    // and no byte.
    ensures status == ESUCCESS ==>
              var e := v.fileTable[fileId].dirent;
              && EntryAt(v.s.disk, v.fileTable[fileId].direntLbo, e)
              && e.name == name && e.attributes == 0x20 && e.lastWrite == now
              && e.firstCluster == 0 && e.fileSize == 0 && forall b :: b in e.middle ==> b == 0
    ensures DirChain(v.s, start, NextChain(cd, status, taken)) && AllElsewhere(v, NextChain(cd, status, taken))
    ensures v.open == if status == ESUCCESS then old(v.open) + {fileId} else old(v.open)
    ensures status == ESUCCESS ==>
              v.Bytes(fileId) == [] && flags == Flags(mode.CreateReadWrite? || mode.SupersedeReadWrite?, true)
    ensures forall j :: 0 <= j < v.fileTable.Length && j != fileId ==> v.fileTable[j] == old(v.fileTable[j])
    ensures forall j :: j in old(v.open) ==> v.Bytes(j) == old(v.Bytes(j))
  {
    hide Volume.Valid, FatStore.Valid, Geometry.Valid, Made, AllElsewhere, DirChain, Volume.Bytes, SearchName,
        NextChain, EntryAt;
    flags, taken := CreateFlags(mode), [];
    if !Creates(mode) {
      NothingNext(cd);
      return ENOENT, flags, taken;
    }
    status, taken := Make(v, fileId, start, name, now, cd);
    if status == ESUCCESS {
      JoinMade(v, fileId, start, name, now, cd, old(v.s.Fat), old(v.s.disk), taken,
               NextChain(cd, status, taken));
    }
  }

  lemma NothingNext(cd: seq<nat>)
    ensures NextChain(cd, ENOENT, []) == cd
  {
  }

  // Add the entry of a new file and put it in the table.
  method Make(v: Volume, fileId: nat, start: Word, name: seq<Byte>, now: seq<Byte>, ghost cd: seq<nat>)
    returns (status: Status, ghost taken: seq<nat>)
    requires v.Valid() && fileId < v.fileTable.Length && fileId !in v.open
    requires SearchName(name) && |now| == 4 && DirChain(v.s, start, cd) && AllElsewhere(v, cd)
    modifies v.fileTable, v.s, v.s.cachedFat
    ensures v.Valid()
    ensures Made(v.s.g, old(v.s.Fat), v.s.Fat, old(v.s.disk), v.s.disk, start, cd, name, now, status,
                 v.fileTable[fileId], taken)
    ensures status == ESUCCESS ==>
              && v.fileTable[fileId].dirent == NewDirent(name, now)
              && EntryAt(v.s.disk, v.fileTable[fileId].direntLbo, v.fileTable[fileId].dirent)
    ensures v.open == old(v.open) && |v.chains| == v.fileTable.Length
    ensures DirChain(v.s, start, NextChain(cd, status, taken)) && AllElsewhere(v, NextChain(cd, status, taken))
    ensures status == ESUCCESS ==> forall j :: j in v.open ==>
              && v.s.g.bytesPerCluster > 0 && j < v.fileTable.Length
              && Apart(v.s.g, v.fileTable[fileId], [], v.fileTable[j], v.chains[j])
    ensures forall j :: 0 <= j < v.fileTable.Length && j != fileId ==> v.fileTable[j] == old(v.fileTable[j])
    ensures forall j :: j in v.open ==> v.Bytes(j) == old(v.Bytes(j))
  {
    hide Volume.Valid, FatStore.Valid, Geometry.Valid, FileOk, HomeOutside, RunsOk, Walkable, FlagOn, Apart, FilesOk,
        Capacity, Clusters, CreateOutcome, OthersKept, Elsewhere, SameContents, Contents, Linked, FileChain, Placed,
        Clusters, Hint, NewDirent, SearchName, Slots, RootSlots, AllElsewhere, NextChain, EntryAt;
    MakeFacts(v, start, name, cd);
    ghost var files, fat0, d0 := v.fileTable[..], v.s.Fat, v.s.disk;
    var dirent := NewDirent(name, now);
    var lbo;
    status, lbo, taken := CreateDirent(v.s, start, dirent, cd);
    v.fileTable[fileId] := FileEntry(0, lbo, dirent);
    StoreFacts(v.s);
    CreateKeepsFiles(v.s.g, fat0, v.s.Fat, d0, v.s.disk, start, cd, dirent, status, lbo, taken, files, v.open,
                     v.chains);
    CreateKeepsOthers(v.s.g, fat0, v.s.Fat, d0, v.s.disk, start, cd, dirent, status, lbo, taken);
    if v.m.inUse > 0 {
      var k := v.m.fileId;
      assert v.chains[k] + [] == v.chains[k];
      RunsKept(v.s.g, fat0, v.s.Fat, d0, v.s.disk, files[k], files[k], v.chains[k], [], v.m.vbo[..], v.m.lbo[..],
               v.m.inUse);
    }
    v.EntrySet(files, fileId, FileEntry(0, lbo, dirent));
    NextDirectory(v.s.g, fat0, v.s.Fat, d0, v.s.disk, start, cd, dirent, status, lbo, taken);
    OthersStayElsewhere(v, files, fat0, d0, cd, NextChain(cd, status, taken),
                        if status == ESUCCESS then Some(FileEntry(0, lbo, dirent)) else None);
    forall j | j in v.open
      ensures v.Bytes(j) == old(v.Bytes(j))
    {
      MadeBytes(v, d0, files, j);
    }
  }

  lemma MakeFacts(v: Volume, start: Word, name: seq<Byte>, cd: seq<nat>)
    requires v.Valid() && SearchName(name) && DirChain(v.s, start, cd) && AllElsewhere(v, cd)
    ensures v.s.Valid() && v.m.Shaped() && v.s.g.Valid() && |v.s.disk| == v.s.g.deviceBytes && |name| == 11
    ensures Linked(v.s.g, v.s.Fat) && |v.s.Fat| == v.s.g.clusters + 2 && v.s.g.bytesPerCluster > 0
    ensures FilesOk(v.s.g, v.s.Fat, v.s.disk, v.fileTable[..], v.open, v.chains) && |v.chains| == v.fileTable.Length
    ensures FileChain(v.s.g, v.s.Fat, start, cd) && Clusters(v.s.g, cd)
    ensures Placed(v.s.disk, DirSlots(v.s.g, start, cd)) && 2 <= Hint(cd) < 0x1_0000
    ensures forall j :: j in v.open ==>
              && j < v.fileTable.Length
              && Elsewhere(v.s.g, v.s.Fat, v.s.disk, cd, v.fileTable[..][j], v.chains[j])
    ensures v.m.inUse > 0 ==>
              && v.m.fileId in v.open && v.m.fileId < v.fileTable.Length
              && Walkable(v.s.g, v.s.Fat, v.fileTable[..][v.m.fileId])
              && RunsOk(v.s.g, v.s.Fat, v.fileTable[..][v.m.fileId], v.m.vbo[..], v.m.lbo[..], v.m.inUse)
              && FileOk(v.s.g, v.s.Fat, v.s.disk, v.fileTable[..][v.m.fileId], v.chains[v.m.fileId])
  {
    hide FileOk, Elsewhere, RunsOk, Walkable, Placed, Apart, HomeOutside;
    StoreFacts(v.s);
    DirectoryFacts(v.s, start, cd);
  }

  lemma OthersStayElsewhere(v: Volume, files: seq<FileEntry>, fat: seq<Word>, d: seq<Byte>, cd: seq<nat>, cd': seq<nat>,
          made: Option<FileEntry>)
    requires v.s.g.Valid() && |fat| == |v.s.Fat| == v.s.g.clusters + 2 && |d| == |v.s.disk| == v.s.g.deviceBytes
    requires v.s.g.bytesPerCluster > 0 && OthersKept(v.s.g, fat, v.s.Fat, d, v.s.disk, cd, cd', made)
    requires |files| == v.fileTable.Length == |v.chains|
    requires forall j :: j in v.open ==>
               && j < |files| && v.fileTable[j] == files[j] && Elsewhere(v.s.g, fat, d, cd, files[j], v.chains[j])
    ensures AllElsewhere(v, cd')
  {
    hide Geometry.Valid, Elsewhere, SameContents, Apart;
  }

  // The new file counts as open.
  ghost method JoinMade(v: Volume, i: nat, start: Word, name: seq<Byte>, now: seq<Byte>, cd: seq<nat>, fat: seq<Word>,
          d: seq<Byte>, taken: seq<nat>, cd': seq<nat>)
    requires SearchName(name) && AllElsewhere(v, cd')
    requires v.Valid() && i < v.fileTable.Length && i !in v.open && |v.chains| == v.fileTable.Length
    requires Made(v.s.g, fat, v.s.Fat, d, v.s.disk, start, cd, name, now, ESUCCESS, v.fileTable[i], taken)
    requires forall j :: j in v.open ==>
               && v.s.g.bytesPerCluster > 0 && j < v.fileTable.Length
               && Apart(v.s.g, v.fileTable[i], [], v.fileTable[j], v.chains[j])
    modifies v`open, v`chains
    ensures v.Valid() && v.open == old(v.open) + {i} && v.Bytes(i) == []
    ensures AllElsewhere(v, cd')
    ensures forall j :: j in old(v.open) ==> v.Bytes(j) == old(v.Bytes(j))
  {
    hide Volume.Valid, FatStore.Valid, Geometry.Valid, FileOk, HomeOutside, Apart, CreateOutcome, OthersKept,
        FileChain, Placed, Clusters, Hint, Volume.Bytes;
    CreatedOk(v.s.g, fat, v.s.Fat, d, v.s.disk, start, cd, name, now, v.fileTable[i].direntLbo, taken);
    NewElsewhere(v.s.g, fat, v.s.Fat, d, v.s.disk, start, cd, name, now, v.fileTable[i], taken, cd');
    v.Join(i, []);
  }

  // The new file is outside its directory, too.
  lemma NewElsewhere(g: Geometry, fat: seq<Word>, fat': seq<Word>, d: seq<Byte>, d': seq<Byte>, start: Word,
          cd: seq<nat>, name: seq<Byte>, now: seq<Byte>, f: FileEntry, taken: seq<nat>, cd': seq<nat>)
    requires Made(g, fat, fat', d, d', start, cd, name, now, ESUCCESS, f, taken) && SearchName(name)
    requires FileOk(g, fat', d', f, [])
    ensures Elsewhere(g, fat', d', cd', f, [])
  {
    hide Geometry.Valid, FileOk, FileChain, OnGrid, SearchName, FirstFree, Slots, RootSlots, OthersKept, Updated,
        Placed, Encode;
    DirSlotsDistinct(g, fat, start, cd);
    if FirstFree(d, DirSlots(g, start, cd)).Some? {
      FreePlace(g, d, start, cd);
    } else {
      RunInCluster(g, taken[0], d);
    }
  }

  lemma DirectoryFacts(s: FatStore, start: Word, c: seq<nat>)
    requires s.Valid() && DirChain(s, start, c) && s.g.Valid() && |s.disk| == s.g.deviceBytes
    ensures FileChain(s.g, s.Fat, start, c) && Clusters(s.g, c) && Placed(s.disk, DirSlots(s.g, start, c))
    ensures 2 <= Hint(c) < 0x1_0000
  {
    DirFacts(s, start, c);
    ChainStart(s, start, c);
  }
}
