/** A mounted volume with its open files: read, write, seek and close as operations on
    plain byte sequences. */
module FatVolume {
  import opened FatFormat
  import opened FatStore
  import opened FatChains
  import opened FatAllocation
  import opened FileTable
  import opened FileAllocation
  import opened FileRuns
  import opened FileData
  import opened FileTransfer
  import opened VolumeFiles
  import Arith

  const BL_FILE_TABLE_SIZE := 32

  // The run list of a file stays right when its chain is continued.
  lemma RunsOkGrown(g: Geometry, fat: seq<Word>, fat': seq<Word>, f: FileEntry, f': FileEntry, c: seq<nat>,
          more: seq<nat>, vs: seq<nat>, ls: seq<nat>, n: nat)
    requires Walkable(g, fat, f) && RunsOk(g, fat, f, vs, ls, n) && Linked(g, fat')
    requires f.direntLbo == f'.direntLbo
    requires f.direntLbo == 0 ==> f'.dirent.firstCluster == f.dirent.firstCluster == FAT_CLUSTER_AVAILABLE
    requires f.direntLbo != 0 ==>
               FileChain(g, fat, f.dirent.firstCluster, c) && FileChain(g, fat', f'.dirent.firstCluster, c + more)
    ensures Walkable(g, fat', f') && RunsOk(g, fat', f', vs, ls, n)
  {
    if f.direntLbo != 0 {
      LboAtIsChainWalk(g, fat', f', c + more, 0);
    }
    forall i: nat | i < n
      ensures RunOk(g, fat', f', vs, ls, i)
    {
      assert RunOk(g, fat, f, vs, ls, i);
      forall u: nat | vs[i] <= u < vs[i] + (vs[i + 1] - vs[i])
        ensures LboAt(g, fat', f', u) == Some(ls[i] + (u - vs[i]))
      {
        assert LboAt(g, fat, f, u) == Some(ls[i] + (u - vs[i]));
        SamePlace(g, fat, fat', f, f', c, more, u);
      }
    }
  }

  lemma SamePlace(g: Geometry, fat: seq<Word>, fat': seq<Word>, f: FileEntry, f': FileEntry, c: seq<nat>,
          more: seq<nat>, u: nat)
    requires Walkable(g, fat, f) && Walkable(g, fat', f') && f.direntLbo == f'.direntLbo
    requires f.direntLbo != 0 ==>
               FileChain(g, fat, f.dirent.firstCluster, c) && FileChain(g, fat', f'.dirent.firstCluster, c + more)
    requires LboAt(g, fat, f, u).Some?
    ensures LboAt(g, fat', f', u) == LboAt(g, fat, f, u)
  {
    if f.direntLbo != 0 {
      LboAtIsChainWalk(g, fat, f, c, u);
      LboAtIsChainWalk(g, fat', f', c + more, u);
      ChainWalkPlace(g, c, u);
      assert forall k :: 0 <= k < |more| ==> (c + more)[|c| + k] == more[k];
      ChainWalkPrefix(g, c, more, u);
    }
  }

  lemma RunsKept(g: Geometry, fat: seq<Word>, fat': seq<Word>, d: seq<Byte>, d': seq<Byte>, f: FileEntry, f': FileEntry,
          c: seq<nat>, more: seq<nat>, vs: seq<nat>, ls: seq<nat>, n: nat)
    requires g.Valid() && Linked(g, fat) && Linked(g, fat') && |d| == |d'| == g.deviceBytes
    requires FileOk(g, fat, d, f, c) && FileOk(g, fat', d', f', c + more) && f.direntLbo == f'.direntLbo
    requires Walkable(g, fat, f) && RunsOk(g, fat, f, vs, ls, n)
    ensures Walkable(g, fat', f') && RunsOk(g, fat', f', vs, ls, n)
  {
    RunsOkGrown(g, fat, fat', f, f', c, more, vs, ls, n);
  }

  // What growing a file does to the device, its entry being rewritten last.
  lemma GrownDisk(g: Geometry, d0: seq<Byte>, d1: seq<Byte>, taken: seq<nat>, lbo: nat, x: seq<Byte>, entry: seq<Byte>)
    requires g.bytesPerCluster > 0 && |x| in {0, DIRENT_SIZE} && |entry| == DIRENT_SIZE && lbo + DIRENT_SIZE <= |d1|
    requires Updated(g, d0, d1, taken, lbo, x)
    ensures DiskTouched(g, d0, Splice(d1, lbo, entry), taken, lbo, DIRENT_SIZE)
    ensures Splice(d1, lbo, entry)[lbo..lbo + DIRENT_SIZE] == entry
  {
  }

  lemma LeakedDisk(g: Geometry, d0: seq<Byte>, d1: seq<Byte>, taken: seq<nat>, lbo: nat)
    requires g.bytesPerCluster > 0 && Zeroed(g, d0, d1, taken)
    ensures DiskTouched(g, d0, d1, taken, lbo, 0)
  {
  }

  lemma SizeFits(g: Geometry, byteSize: nat, c: seq<nat>)
    requires g.bytesPerCluster > 0 && |c| >= ClustersNeeded(g, byteSize)
    ensures byteSize <= Capacity(g, c)
  {
    ClustersNeededFit(g, byteSize);
    Arith.TimesMono(ClustersNeeded(g, byteSize), |c|, g.bytesPerCluster);
  }

  // A file that grew: IncreaseFileAllocation, then the entry with its new size.
  lemma GrowSucceeded(g: Geometry, fat: seq<Word>, fat': seq<Word>, d0: seq<Byte>, d1: seq<Byte>, f: FileEntry,
          f1: FileEntry, c: seq<nat>, taken: seq<nat>, byteSize: nat)
    requires g.Valid() && Linked(g, fat) && Linked(g, fat') && |d0| == |d1| == g.deviceBytes && 2 <= Hint(c) < 0x1_0000
    requires FileOk(g, fat, d0, f, c) && f.direntLbo != 0 && !IsDirectory(f) && HomeOutside(g, f, f, c)
    requires IncreaseOutcome(g, fat, fat', d0, d1, f, f1, byteSize, c, taken, ESUCCESS)
    requires f.dirent.fileSize < byteSize < 0x1_0000_0000
    ensures var f2 := f1.(dirent := f1.dirent.(fileSize := byteSize));
            var d2 := Splice(d1, f.direntLbo, Encode(f2.dirent));
            && FileReplaced(g, fat, fat', d0, d2, f, c, f2, true, taken, DIRENT_SIZE)
            && Clusters(g, c + taken) && byteSize <= Capacity(g, c + taken) && Clusters(g, c)
                && f.dirent.fileSize <= Capacity(g, c)
            && Data(g, d2, c + taken, f.dirent.fileSize) == Contents(g, d0, f, c)
            && Lengthened(g, fat, c, c + taken, byteSize) && SameBut(f, f2, byteSize)
  {
    hide Geometry.Valid, FreeInScan, ClustersNeeded, Updated, DiskTouched, Encode, Capacity, Chain;
    var f2 := f1.(dirent := f1.dirent.(fileSize := byteSize));
    Sizes(g, fat);
    GrownDisk(g, d0, d1, taken, f.direntLbo, if c == [] && taken != [] then Encode(f1.dirent) else [],
        Encode(f2.dirent));
    GrownExtends(g, fat, fat', c, taken);
    SizeFits(g, byteSize, c + taken);
    var d2 := Splice(d1, f.direntLbo, Encode(f2.dirent));
    GrownData(g, fat, d0, d2, f, c, taken, DIRENT_SIZE);
    GrownFileOk(g, fat, fat', d0, d2, f, c, taken, f2);
    FileOkClusters(g, fat', d2, f2, c + taken);
    assert (c + taken)[|c|..] == taken;
  }

  lemma GrowFailed(g: Geometry, fat: seq<Word>, fat': seq<Word>, d0: seq<Byte>, d1: seq<Byte>, f: FileEntry,
          f1: FileEntry, c: seq<nat>, taken: seq<nat>, byteSize: nat)
    requires g.Valid() && Linked(g, fat) && Linked(g, fat') && |d0| == |d1| == g.deviceBytes && 2 <= Hint(c) < 0x1_0000
    requires FileOk(g, fat, d0, f, c) && f.direntLbo != 0 && !IsDirectory(f) && HomeOutside(g, f, f, c)
    requires IncreaseOutcome(g, fat, fat', d0, d1, f, f1, byteSize, c, taken, ENOSPC)
    ensures f1 == f && FileReplaced(g, fat, fat', d0, d1, f, c, f, false, taken, 0)
    ensures SameContents(g, d0, d1, f, c)
  {
    hide FreeInScan, ClustersNeeded;
    LeakedDisk(g, d0, d1, taken, f.direntLbo);
    LeakedFileOk(g, fat, fat', d0, d1, f, c, taken);
  }

  lemma LeakedFileOk(g: Geometry, fat: seq<Word>, fat': seq<Word>, d0: seq<Byte>, d1: seq<Byte>, f: FileEntry,
          c: seq<nat>, taken: seq<nat>)
    requires g.Valid() && Linked(g, fat) && |d0| == |d1| == g.deviceBytes
    requires FileOk(g, fat, d0, f, c) && f.direntLbo != 0
    requires Extended(g, fat, fat', [], taken) && DiskTouched(g, d0, d1, taken, f.direntLbo, 0)
    ensures FileOk(g, fat', d1, f, c) && SameContents(g, d0, d1, f, c)
  {
    OtherFileOk(g, fat, fat', d0, d1, [], taken, f, 0, f, c);
    OtherData(g, fat, d0, d1, taken, f, 0, f, c);
  }

  lemma DataTake(g: Geometry, d: seq<Byte>, c: seq<nat>, n: nat, k: nat)
    requires g.Valid() && |d| == g.deviceBytes && Clusters(g, c) && k <= n <= Capacity(g, c)
    ensures Data(g, d, c, n)[..k] == Data(g, d, c, k)
  {
  }

  lemma MovedContents(g: Geometry, d: seq<Byte>, f: FileEntry, f': FileEntry, c: seq<nat>)
    requires g.Valid() && |d| == g.deviceBytes && Clusters(g, c) && f.dirent.fileSize <= Capacity(g, c)
    requires f'.dirent.fileSize == f.dirent.fileSize
    ensures Contents(g, d, f', c) == Contents(g, d, f, c)
  {
  }

  // The run list, whichever file it is for, survives file i being replaced.
  lemma RunsSurvive(g: Geometry, fat: seq<Word>, fat': seq<Word>, d: seq<Byte>, d': seq<Byte>, files: seq<FileEntry>,
          open: set<nat>, chains: seq<seq<nat>>, i: nat, f': FileEntry, more: seq<nat>, k: nat, vs: seq<nat>,
          ls: seq<nat>, n: nat)
    requires g.Valid() && FilesOk(g, fat, d, files, open, chains) && i in open && k in open
    requires FilesOk(g, fat', d', files[i := f'], open, chains[i := chains[i] + more])
        && f'.direntLbo == files[i].direntLbo
    requires Walkable(g, fat, files[k]) && RunsOk(g, fat, files[k], vs, ls, n)
    ensures var f := files[i := f'][k]; Walkable(g, fat', f) && RunsOk(g, fat', f, vs, ls, n)
  {
    hide FileOk, Apart, HomeOutside, RunsOk, Walkable;
    var chains' := chains[i := chains[i] + more];
    assert chains[k] + [] == chains[k];
    RunsKept(g, fat, fat', d, d', files[k], files[i := f'][k], chains[k], if k == i then more else [], vs, ls, n);
  }

  lemma OutcomeStatus(g: Geometry, fat: seq<Word>, fat': seq<Word>, d: seq<Byte>, d': seq<Byte>, f: FileEntry,
          f': FileEntry, byteSize: nat, c: seq<nat>, taken: seq<nat>, status: Status)
    requires g.Valid() && |fat| == |fat'| == g.clusters + 2 && 2 <= Hint(c) < 0x1_0000
    requires IncreaseOutcome(g, fat, fat', d, d', f, f', byteSize, c, taken, status)
    ensures status == if GrowFits(g, fat, c, byteSize) then ESUCCESS else ENOSPC
    ensures |d'| == |d|
  {
  }

  lemma StaysWithin(g: Geometry, fat: seq<Word>, d: seq<Byte>, files: seq<FileEntry>, open: set<nat>,
          chains: seq<seq<nat>>, i: nat, length: nat)
    requires g.Valid() && FilesOk(g, fat, d, files, open, chains) && i in open
    ensures var f := files[i];
            f.direntLbo != 0 && !IsDirectory(f) ==>
              f.position + ReadCount(f.dirent.fileSize, f.position, length) <= f.dirent.fileSize
  {
  }

  /** Whether growing a file to byteSize bytes succeeds, in terms a caller can check:
      its chain c is long enough, or the allocator's scan finds the rest. */
  ghost predicate GrowFits(g: Geometry, fat: seq<Word>, c: seq<nat>, byteSize: nat)
    requires g.Valid() && |fat| == g.clusters + 2 && 2 <= Hint(c) < 0x1_0000
  {
    ClustersNeeded(g, byteSize) <= |c| + |FreeInScan(g, fat, Hint(c))|
  }

  /** The same by counting: with more clusters free than are missing it succeeds, with fewer
      it does not. */
  lemma GrowFitsByCount(g: Geometry, fat: seq<Word>, c: seq<nat>, byteSize: nat)
    requires g.Valid() && |fat| == g.clusters + 2 && g.InRange(Hint(c)) && Hint(c) < 0x1_0000
    ensures ClustersNeeded(g, byteSize) <= |c| ==> GrowFits(g, fat, c, byteSize)
    ensures ClustersNeeded(g, byteSize) - |c| < FreeCount(g, fat) ==> GrowFits(g, fat, c, byteSize)
    ensures GrowFits(g, fat, c, byteSize) ==> ClustersNeeded(g, byteSize) - |c| <= FreeCount(g, fat)
  {
    hide ClustersNeeded, FreeCount, FreeInScan;
    var missing := ClustersNeeded(g, byteSize) - |c|;
    if missing > 0 {
      FitsByCount(g, fat, missing, Hint(c));
    }
  }

  /** How many clusters are free after a growth by `more` clusters, or after one that was
      refused. */
  ghost predicate Counted(g: Geometry, fat: seq<Word>, fat': seq<Word>, accepted: bool, more: int)
    requires |fat| == |fat'| == g.clusters + 2
  {
    if accepted then 0 <= more <= FreeCount(g, fat) && FreeCount(g, fat') == FreeCount(g, fat) - more
    else FreeCount(g, fat') == 0
  }

  lemma OutcomeCounted(g: Geometry, fat: seq<Word>, fat': seq<Word>, d: seq<Byte>, d': seq<Byte>, f: FileEntry,
          f': FileEntry, byteSize: nat, c: seq<nat>, taken: seq<nat>, status: Status)
    requires g.Valid() && |fat| == |fat'| == g.clusters + 2 && 2 <= Hint(c) < 0x1_0000 && g.clusters >= 1
    requires FileChain(g, fat, f.dirent.firstCluster, c)
    requires IncreaseOutcome(g, fat, fat', d, d', f, f', byteSize, c, taken, status)
    ensures Counted(g, fat, fat', status == ESUCCESS, if status == ESUCCESS then |taken| else 0)
  {
    hide Geometry.Valid, ClustersNeeded, FreeInScan, AllFree, Chain, FreeCount, Updated, Zeroed, Encode;
    if status == ESUCCESS {
      ScanDistinct(g, fat, Hint(c));
      CountAfterTaking(g, fat, fat', c, taken);
    } else {
      NoneLeft(g, fat, fat', Hint(c));
    }
  }

  /** Emptying a file gives its clusters back. */
  lemma EmptiedCount(g: Geometry, fat: seq<Word>, first: Word, c: seq<nat>)
    requires g.Valid() && Linked(g, fat) && FileChain(g, fat, first, c) && |fat| == g.clusters + 2
    ensures g.IsNext(first) ==> g.InRange(first)
    ensures var fat' := Truncated(g, fat, first, 0);
            |fat'| == |fat| && FreeCount(g, fat') == FreeCount(g, fat) + |c|
  {
    hide Geometry.Valid, Truncated, Chain, FreeSet, Distinct, CutAt;
    if c == [] {
      NoChain(g, fat, first);
    } else {
      EndOfChain(g, fat, c);
      TruncatedChain(g, fat, c, 0);
      EmptiedChain(g, fat, c);
      ChainDistinct(g, fat, c);
      DistinctCount(c);
      assert c[0..] == c;
      UsedApart(g, fat, c);
    }
  }

  lemma UsedApart(g: Geometry, fat: seq<Word>, c: seq<nat>)
    requires g.Valid() && |fat| == g.clusters + 2 && Chain(g, fat, c)
    ensures FreeSet(g, fat) !! ToSet(c)
  {
    ChainNotFree(g, fat, c);
  }

  /** c' continues c, to what byteSize bytes need, by distinct clusters that were free. */
  ghost predicate Lengthened(g: Geometry, fat: seq<Word>, c: seq<nat>, c': seq<nat>, byteSize: nat)
    requires g.bytesPerCluster > 0
  {
    && c <= c' && Distinct(c')
    && |c'| == (if ClustersNeeded(g, byteSize) > |c| then ClustersNeeded(g, byteSize) else |c|)
    && forall e :: e in c'[|c|..] ==> IsTaken(g, fat, e) && g.InRange(e)
  }

  // Only the size and, for a first cluster, the first cluster of the entry changed.
  predicate SameBut(f: FileEntry, f': FileEntry, byteSize: nat)
    requires byteSize < 0x1_0000_0000
  {
    f' == f.(dirent := f.dirent.(fileSize := byteSize, firstCluster := f'.dirent.firstCluster))
  }

  lemma AddFile(g: Geometry, fat: seq<Word>, d: seq<Byte>, files: seq<FileEntry>, open: set<nat>, chains: seq<seq<nat>>,
          i: nat, f: FileEntry, c: seq<nat>)
    requires g.Valid() && FilesOk(g, fat, d, files, open, chains) && i < |files| && i !in open
        && |fat| == g.clusters + 2
    requires FileOk(g, fat, d, f, c) && HomeOutside(g, f, f, c) && forall j :: j in open ==>
        Apart(g, f, c, files[j], chains[j])
    ensures FilesOk(g, fat, d, files[i := f], open + {i}, chains[i := c])
  {
    hide FileOk, HomeOutside, Geometry.Valid, Linked;
    Sizes(g, fat);
    forall j | j in open
      ensures Apart(g, files[j], chains[j], f, c)
    {
      assert Apart(g, f, c, files[j], chains[j]);
    }
  }

  // A write changes only the position, the size and, for a first cluster, where the
  // chain starts.
  predicate OnlyWritten(f: FileEntry, f': FileEntry) {
    f' == f.(position := f'.position,
             dirent := f.dirent.(fileSize := f'.dirent.fileSize, firstCluster := f'.dirent.firstCluster))
  }

  datatype OpenMode =
    | OpenReadOnly | OpenWriteOnly | OpenReadWrite | CreateWriteOnly | CreateReadWrite
    | SupersedeWriteOnly | SupersedeReadWrite | OpenDirectory | CreateDirectory

  datatype Flags = Flags(read: bool, write: bool)

  predicate Supersedes(mode: OpenMode) {
    mode.SupersedeWriteOnly? || mode.SupersedeReadWrite?
  }

  // What opening an existing file or directory comes to.
  function OpenStatus(directory: bool, readOnly: bool, mode: OpenMode): Status {
    if directory then
      if mode.OpenDirectory? then ESUCCESS else if mode.CreateDirectory? then EACCES else EISDIR
    else if mode.OpenReadOnly? then ESUCCESS
    else if mode.CreateWriteOnly? || mode.CreateReadWrite? then EACCES
    else if mode.OpenDirectory? || mode.CreateDirectory? then ENOTDIR
    else if readOnly then EROFS else ESUCCESS
  }

  // The accesses it allows.
  function OpenFlags(mode: OpenMode): Flags {
    Flags(!mode.OpenWriteOnly?, mode.OpenWriteOnly? || mode.OpenReadWrite? || Supersedes(mode))
  }

  /** The answer mode by mode. A directory opens only as one, and a file only as a file that
      is there; reading is never refused, and writing just when the attributes say so. */
  predicate OpenAnswer(attributes: Byte, mode: OpenMode, status: Status, flags: Flags) {
    var readOnly, directory := attributes % 2 == 1, attributes / 0x10 % 2 == 1;
    match mode
    case OpenReadOnly =>
      if directory then status == EISDIR else status == ESUCCESS && flags == Flags(true, false)
    case OpenWriteOnly =>
      if directory then status == EISDIR
      else if readOnly then status == EROFS else status == ESUCCESS && flags == Flags(false, true)
    case OpenReadWrite | SupersedeWriteOnly | SupersedeReadWrite =>
      if directory then status == EISDIR
      else if readOnly then status == EROFS else status == ESUCCESS && flags == Flags(true, true)
    case CreateWriteOnly | CreateReadWrite => status == if directory then EISDIR else EACCES
    case OpenDirectory => if directory then status == ESUCCESS && flags == Flags(true, false) else status == ENOTDIR
    case CreateDirectory => status == if directory then EACCES else ENOTDIR
  }

  lemma OpenModes(f: FileEntry, mode: OpenMode)
    ensures OpenAnswer(f.dirent.attributes, mode,
                       OpenStatus(IsDirectory(f), FlagOn(f.dirent.attributes, FAT_DIRENT_ATTR_READ_ONLY), mode),
                       OpenFlags(mode))
  {
    match mode
    case OpenReadOnly =>
    case _ =>
  }

  class Volume {
    const s: FatStore
    const m: RunMap
    const fileTable: array<FileEntry>
    ghost var open: set<nat>
    ghost var chains: seq<seq<nat>>

    ghost predicate Valid()
      reads this, s, s.cachedFat, m, m.vbo, m.lbo, fileTable
    {
      && s.Valid() && McbOk(s, m, fileTable)
      && (m.inUse > 0 ==> m.fileId in open)
      && FilesOk(s.g, s.Fat, s.disk, fileTable[..], open, chains)
    }

    // A mounted volume on which no file is open yet.
    constructor (s: FatStore, m: RunMap, fileTable: array<FileEntry>)
      requires s.Valid() && Linked(s.g, s.Fat) && m.Shaped() && m.inUse == 0
      ensures Valid() && open == {} && this.s == s && this.m == m && this.fileTable == fileTable
    {
      this.s, this.m, this.fileTable := s, m, fileTable;
      open, chains := {}, seq(fileTable.Length, _ => []);
    }

    /** The bytes of open file i. */
    ghost function Bytes(i: nat): (r: seq<Byte>)
      requires Valid() && i in open
      reads this, s, s.cachedFat, m, m.vbo, m.lbo, fileTable
      ensures |r| == fileTable[i].dirent.fileSize
    {
      FileOkClusters(s.g, s.Fat, s.disk, fileTable[i], chains[i]);
      Contents(s.g, s.disk, fileTable[i], chains[i])
    }

    lemma ReadStart(i: nat)
      requires Valid() && i in open
      ensures i < fileTable.Length == |chains| && Holds(s, fileTable[i], chains[i], Bytes(i))
      ensures s.g.Valid() && FilesOk(s.g, s.Fat, s.disk, fileTable[..], open, chains) && McbOk(s, m, fileTable)
    {
      FileOkClusters(s.g, s.Fat, s.disk, fileTable[i], chains[i]);
    }

    /** Reading delivers exactly the bytes from the position on, as many as asked for
        and there are, and moves the position past them. */
    method Read(fileId: nat, length: nat) returns (transfer: nat, buffer: seq<Byte>)
      requires Valid() && fileId in open
      modifies s`disk, s`cached, s`cachedFatVbo, s`cachedFatDirty, s.cachedFat, m, m.vbo, m.lbo, fileTable
      ensures Valid() && SameData(s.g, old(s.disk), s.disk)
      ensures var p := old(fileTable[fileId]).position;
              && transfer == |buffer| == ReadCount(|old(Bytes(fileId))|, p, length)
              && (buffer != [] ==> buffer == old(Bytes(fileId))[p..p + transfer])
              && fileTable[..] == old(fileTable[..])[fileId := old(fileTable[fileId]).(position := p + transfer)]
      ensures forall j :: j in open ==> Bytes(j) == old(Bytes(j))
    {
      hide FatStore.Valid, Geometry.Valid, McbOk, FilesOk, SameData, FileOk, Contents, Holds, IsDirectory;
      ghost var d0, files := s.disk, fileTable[..];
      ReadStart(fileId);
      transfer, buffer := ReadRuns(s, m, fileTable, fileId, length, chains[fileId], Bytes(fileId));
      SameKeepsFiles(s.g, s.Fat, d0, s.disk, files, open, chains);
      StaysWithin(s.g, s.Fat, d0, files, open, chains, fileId, length);
      MoveKeepsFiles(s.g, s.Fat, s.disk, files, open, chains, fileId, fileTable[fileId].position);
      assert fileTable[..] == files[fileId := files[fileId].(position := fileTable[fileId].position)];
      forall j | j in open
        ensures Bytes(j) == old(Bytes(j))
      {
        KeptBytes(d0, files, j);
      }
    }

    // The bytes of file j are those it had when the device held d0.
    lemma KeptBytes(d0: seq<Byte>, files: seq<FileEntry>, j: nat)
      requires Valid() && j in open && |d0| == s.g.deviceBytes && j < |files|
      requires SameContents(s.g, d0, s.disk, files[j], chains[j])
      requires files[j].dirent.fileSize == fileTable[j].dirent.fileSize
      ensures Bytes(j) == Contents(s.g, d0, files[j], chains[j])
    {
    }

    // What the growth of a file needs to know about it.
    lemma GrowStart(i: nat)
      requires Valid() && i in open && fileTable[i].direntLbo != 0
      ensures i < fileTable.Length == |chains| && s.g.Valid() && Linked(s.g, s.Fat) && |s.disk| == s.g.deviceBytes
      ensures |s.Fat| == s.g.clusters + 2 && s.g.bytesPerCluster > 0
      ensures var f := fileTable[i];
              && FileOk(s.g, s.Fat, s.disk, f, chains[i]) && HomeOutside(s.g, f, f, chains[i])
              && FileChain(s.g, s.Fat, f.dirent.firstCluster, chains[i])
              && s.g.rootLbo <= f.direntLbo && f.direntLbo + DIRENT_SIZE <= |s.disk|
              && (m.inUse > 0 ==> m.fileId in open && m.fileId < fileTable.Length)
      ensures McbOk(s, m, fileTable) && FilesOk(s.g, s.Fat, s.disk, fileTable[..], open, chains)
    {
      assert HomeOutside(s.g, fileTable[i], fileTable[i], chains[i]);
    }

    // What growing a file leaves, the chains not yet being told.
    ghost predicate Grew(fat: seq<Word>, d: seq<Byte>, files: seq<FileEntry>, i: nat, c: seq<nat>, more: seq<nat>)
      reads this, s, s.cachedFat, m, m.vbo, m.lbo, fileTable
    {
      && s.Valid() && s.g.Valid() && McbOk(s, m, fileTable) && (m.inUse > 0 ==> m.fileId in open)
      && |fat| == |s.Fat| == s.g.clusters + 2 && |d| == |s.disk| == s.g.deviceBytes && s.g.bytesPerCluster > 0
      && i < |files| == fileTable.Length == |chains| && chains[i] == c
      && fileTable[..] == files[i := fileTable[i]]
      && FilesOk(s.g, s.Fat, s.disk, fileTable[..], open, chains[i := c + more])
      && OnlyThisFile(s.g, fat, s.Fat, d, s.disk, files[i], c, fileTable[i], c + more)
      && forall j :: j in open && j != i ==> j < |files| && SameContents(s.g, d, s.disk, files[j], chains[j])
    }

    lemma OpenInTable()
      requires Valid()
      ensures forall j :: j in open ==> j < fileTable.Length
    {
    }

    method GrowAllocation(fileId: nat, byteSize: nat) returns (status: Status, ghost more: seq<nat>)
      requires Valid() && fileId in open && fileTable[fileId].direntLbo != 0 && !IsDirectory(fileTable[fileId])
      requires fileTable[fileId].dirent.fileSize < byteSize < 0x1_0000_0000
      modifies s, s.cachedFat, fileTable
      ensures fileId < fileTable.Length == |chains| && s.g.Valid() && |old(s.disk)| == s.g.deviceBytes
      ensures Grew(old(s.Fat), old(s.disk), old(fileTable[..]), fileId, chains[fileId], more)
      ensures status == if GrowFits(s.g, old(s.Fat), chains[fileId], byteSize) then ESUCCESS else ENOSPC
      ensures var f, f', c := old(fileTable[fileId]), fileTable[fileId], chains[fileId];
              && Clusters(s.g, c) && f.dirent.fileSize <= Capacity(s.g, c)
              && (status == ESUCCESS ==>
                    && Clusters(s.g, c + more) && f.dirent.fileSize <= Capacity(s.g, c + more)
                    && Data(s.g, s.disk, c + more, f.dirent.fileSize) == Contents(s.g, old(s.disk), f, c)
                    && Lengthened(s.g, old(s.Fat), c, c + more, byteSize) && SameBut(f, f', byteSize))
              && (status != ESUCCESS ==> more == [] && f' == f && SameContents(s.g, old(s.disk), s.disk, f, c))
      ensures Counted(s.g, old(s.Fat), s.Fat, status == ESUCCESS, |more|)
    {
      hide FatStore.Valid, Geometry.Valid, FilesOk, FileOk, Contents, IsDirectory, HomeOutside, Apart, IncreaseOutcome,
           FileReplaced, RunsOk, Walkable, Linked, FileChain, Encode, GrowFits, Lengthened, Data, Capacity, Clusters,
           OnlyFile, OnlyThisFile, SameContents, Counted;
      GrowStart(fileId);
      OpenInTable();
      ghost var files, fat0, d0, c := fileTable[..], s.Fat, s.disk, chains[fileId];
      var f := fileTable[fileId];
      FileOkClusters(s.g, s.Fat, s.disk, f, c);
      ghost var taken;
      status, taken := IncreaseProper(s, fileTable, fileId, byteSize, c);
      ghost var d1, f1 := s.disk, fileTable[fileId];
      StoreFacts(s);
      OutcomeStatus(s.g, fat0, s.Fat, d0, d1, f, f1, byteSize, c, taken, status);
      OutcomeCounted(s.g, fat0, s.Fat, d0, d1, f, f1, byteSize, c, taken, status);
      more := if status == ESUCCESS then taken else [];
      if status == ESUCCESS {
        GrowSucceeded(s.g, fat0, s.Fat, d0, d1, f, f1, c, taken, byteSize);
        fileTable[fileId] := fileTable[fileId].(dirent := fileTable[fileId].dirent.(fileSize := byteSize));
        s.DiskWrite(f.direntLbo, Encode(fileTable[fileId].dirent));
        GrowthKeeps(s.g, fat0, s.Fat, d0, s.disk, files, open, chains, fileId, fileTable[fileId], true, taken,
                    DIRENT_SIZE);
      } else {
        GrowFailed(s.g, fat0, s.Fat, d0, d1, f, f1, c, taken, byteSize);
        GrowthKeeps(s.g, fat0, s.Fat, d0, s.disk, files, open, chains, fileId, f, false, taken, 0);
        assert c + more == c;
      }
      if m.inUse > 0 {
        RunsSurvive(s.g, fat0, s.Fat, d0, s.disk, files, open, chains, fileId, fileTable[fileId], more,
                    m.fileId, m.vbo[..], m.lbo[..], m.inUse);
      }
      StoreFacts(s);
      assert fileTable[..] == files[fileId := fileTable[fileId]];
    }

    /** Make a file hold byteSize bytes and record that size, or leave every file as
        it is. */
    method Grow(fileId: nat, byteSize: nat) returns (status: Status)
      requires Valid() && fileId in open && fileTable[fileId].direntLbo != 0 && !IsDirectory(fileTable[fileId])
      requires fileTable[fileId].dirent.fileSize < byteSize < 0x1_0000_0000
      modifies this`chains, s, s.cachedFat, fileTable
      ensures Valid()
      ensures status == if GrowFits(s.g, old(s.Fat), old(chains)[fileId], byteSize) then ESUCCESS else ENOSPC
      ensures forall j :: j in open && j != fileId ==>
                chains[j] == old(chains)[j] && fileTable[j] == old(fileTable[j]) && Bytes(j) == old(Bytes(j))
      ensures status == ESUCCESS ==>
                && |Bytes(fileId)| == byteSize && Bytes(fileId)[..|old(Bytes(fileId))|] == old(Bytes(fileId))
                && Lengthened(s.g, old(s.Fat), old(chains)[fileId], chains[fileId], byteSize)
                && SameBut(old(fileTable[fileId]), fileTable[fileId], byteSize)
      ensures status != ESUCCESS ==>
                chains == old(chains) && fileTable[..] == old(fileTable[..]) && Bytes(fileId) == old(Bytes(fileId))
      ensures Counted(s.g, old(s.Fat), s.Fat, status == ESUCCESS, |chains[fileId]| - |old(chains)[fileId]|)
      ensures OnlyThisFile(s.g, old(s.Fat), s.Fat, old(s.disk), s.disk, old(fileTable[fileId]), old(chains)[fileId],
                           fileTable[fileId], chains[fileId])
    {
      hide FatStore.Valid, Geometry.Valid, FilesOk, FileOk, Contents, IsDirectory, HomeOutside, Apart, McbOk,
           RunsOk, Walkable, Linked, GrowFits, Lengthened, Data, Capacity, Clusters, OnlyThisFile, Counted;
      GrowStart(fileId);
      ghost var files, d0, c, size := fileTable[..], s.disk, chains[fileId], fileTable[fileId].dirent.fileSize;
      ghost var more;
      status, more := GrowAllocation(fileId, byteSize);
      chains := chains[fileId := c + more];
      OthersKept(d0, files, fileId);
      if status == ESUCCESS {
        BytesTake(fileId, size);
      } else {
        assert c + [] == c && files[fileId := files[fileId]] == files;
        KeptBytes(d0, files, fileId);
      }
    }

    lemma StillRegular(f: FileEntry, f': FileEntry)
      requires f'.direntLbo == f.direntLbo && f'.dirent.attributes == f.dirent.attributes
      ensures IsDirectory(f') <==> IsDirectory(f)
    {
    }

    lemma BytesTake(i: nat, k: nat)
      requires Valid() && i in open && k <= |Bytes(i)|
      ensures s.g.Valid() && |s.disk| == s.g.deviceBytes && Clusters(s.g, chains[i]) && k <= Capacity(s.g, chains[i])
      ensures Bytes(i)[..k] == Data(s.g, s.disk, chains[i], k)
    {
      FileOkClusters(s.g, s.Fat, s.disk, fileTable[i], chains[i]);
      DataTake(s.g, s.disk, chains[i], |Bytes(i)|, k);
    }

    lemma OthersKept(d0: seq<Byte>, files: seq<FileEntry>, i: nat)
      requires Valid() && i in open && |d0| == s.g.deviceBytes && |files| == fileTable.Length
      requires i < |files| && fileTable[..] == files[i := fileTable[i]]
      requires forall j :: j in open && j != i ==> SameContents(s.g, d0, s.disk, files[j], chains[j])
      ensures forall j :: j in open && j != i ==>
                fileTable[j] == files[j] && Bytes(j) == Contents(s.g, d0, files[j], chains[j])
    {
      hide FatStore.Valid, Geometry.Valid, Contents;
      StoreFacts(s);
      forall j | j in open && j != i
        ensures fileTable[j] == files[j] && Bytes(j) == Contents(s.g, d0, files[j], chains[j])
      {
        assert fileTable[j] == fileTable[..][j];
        KeptBytes(d0, files, j);
      }
    }

    lemma WriteStart(i: nat, n: nat)
      requires Valid() && i in open && fileTable[i].direntLbo != 0 && !IsDirectory(fileTable[i])
      requires fileTable[i].position + n <= fileTable[i].dirent.fileSize
      ensures i < fileTable.Length == |chains| && s.g.Valid() && |s.disk| == s.g.deviceBytes
      ensures Reaches(s, fileTable[i], chains[i], fileTable[i].position + n) && McbOk(s, m, fileTable)
      ensures FilesOk(s.g, s.Fat, s.disk, fileTable[..], open, chains)
    {
    }

    // Write within the size of a file.
    method WriteWithin(fileId: nat, buffer: seq<Byte>) returns (status: Status, transfer: nat)
      requires Valid() && fileId in open && fileTable[fileId].direntLbo != 0 && !IsDirectory(fileTable[fileId])
      requires fileTable[fileId].position + |buffer| <= fileTable[fileId].dirent.fileSize
      modifies s`disk, s`cached, s`cachedFatVbo, s`cachedFatDirty, s.cachedFat, m, m.vbo, m.lbo, fileTable
      ensures Valid() && status == ESUCCESS && transfer == |buffer|
      ensures var f := old(fileTable[fileId]);
              && fileTable[..] == old(fileTable[..])[fileId := f.(position := f.position + |buffer|)]
              && Bytes(fileId) == Patched(old(Bytes(fileId)), f.position, buffer)
      ensures forall j :: j in open && j != fileId ==> fileTable[j] == old(fileTable[j]) && Bytes(j) == old(Bytes(j))
      ensures OnlyThisFile(s.g, s.Fat, s.Fat, old(s.disk), s.disk, old(fileTable[fileId]), chains[fileId],
                           fileTable[fileId], chains[fileId])
    {
      hide FatStore.Valid, Geometry.Valid, McbOk, FilesOk, FileOk, Contents, IsDirectory, Reaches, Poured, OnlyFile,
          OnlyThisFile;
      WriteStart(fileId, |buffer|);
      WriteRoom(fileId);
      ghost var files, d0 := fileTable[..], s.disk;
      ghost var p := fileTable[fileId].position;
      status, transfer := WriteRuns(s, m, fileTable, fileId, buffer, chains[fileId]);
      PourKeepsFiles(s.g, s.Fat, d0, s.disk, files, open, chains, fileId, p, buffer);
      MoveKeepsFiles(s.g, s.Fat, s.disk, files, open, chains, fileId, p + |buffer|);
      assert fileTable[..] == files[fileId := fileTable[fileId]];
      assert fileTable[fileId] == fileTable[..][fileId];
      OthersKept(d0, files, fileId);
      PourOnlyFile(s.g, s.Fat, d0, s.disk, files[fileId].direntLbo, chains[fileId], p, buffer);
      StillRegular(files[fileId], fileTable[fileId]);
      WriteRoom(fileId);
      OnlyFileSuffices(s.g, s.Fat, s.Fat, d0, s.disk, files[fileId], chains[fileId], fileTable[fileId],
                       chains[fileId]);
      MovedContents(s.g, s.disk, files[fileId], fileTable[fileId], chains[fileId]);
    }

    // Write back the FAT window if it holds anything new.
    method FlushIfDirty()
      requires Valid()
      modifies s`disk, s`cachedFatDirty
      ensures Valid() && !s.cachedFatDirty && SameData(s.g, old(s.disk), s.disk)
      ensures forall j :: j in open ==> Bytes(j) == old(Bytes(j))
    {
      if s.cachedFatDirty {
        hide Geometry.Valid, FileOk, Contents;
        ghost var files, d0 := fileTable[..], s.disk;
        StoreFacts(s);
        s.FlushFatEntries();
        SameKeepsFiles(s.g, s.Fat, d0, s.disk, files, open, chains);
        forall j | j in open
          ensures Bytes(j) == old(Bytes(j))
        {
          KeptBytes(d0, files, j);
        }
      }
    }

    // Write within the size of a file, and the FAT window after it.
    method WriteOut(fileId: nat, buffer: seq<Byte>) returns (status: Status, transfer: nat)
      requires Valid() && fileId in open && fileTable[fileId].direntLbo != 0 && !IsDirectory(fileTable[fileId])
      requires fileTable[fileId].position + |buffer| <= fileTable[fileId].dirent.fileSize
      modifies s`disk, s`cached, s`cachedFatVbo, s`cachedFatDirty, s.cachedFat, m, m.vbo, m.lbo, fileTable
      ensures Valid() && status == ESUCCESS && transfer == |buffer| && !s.cachedFatDirty
      ensures var f := old(fileTable[fileId]);
              && fileTable[..] == old(fileTable[..])[fileId := f.(position := f.position + |buffer|)]
              && Bytes(fileId) == Patched(old(Bytes(fileId)), f.position, buffer)
      ensures forall j :: j in open && j != fileId ==> fileTable[j] == old(fileTable[j]) && Bytes(j) == old(Bytes(j))
      ensures OnlyThisFile(s.g, s.Fat, s.Fat, old(s.disk), s.disk, old(fileTable[fileId]), chains[fileId],
                           fileTable[fileId], chains[fileId])
    {
      hide Valid, Bytes, Geometry.Valid, OnlyThisFile, FileOk, SameData, Patched, IsDirectory;
      WriteRoom(fileId);
      ghost var d0, f0 := s.disk, fileTable[fileId];
      status, transfer := WriteWithin(fileId, buffer);
      ghost var d1, files := s.disk, fileTable[..];
      assert fileTable[fileId] == files[fileId];
      StillRegular(f0, fileTable[fileId]);
      WriteRoom(fileId);
      FlushIfDirty();
      WriteRoom(fileId);
      OnlyThisFileThenSame(s.g, s.Fat, d0, d1, s.disk, f0, chains[fileId], fileTable[fileId], chains[fileId]);
    }

    // The entry of an open file is on the device as the table has it.
    lemma EntryOnDevice(i: nat)
      requires Valid() && i in open && i < fileTable.Length && fileTable[i].direntLbo != 0
      ensures EntryAt(s.disk, fileTable[i].direntLbo, fileTable[i].dirent)
    {
      assert FileOk(s.g, s.Fat, s.disk, fileTable[i], chains[i]);
      EncodedAt(s.disk, fileTable[i].direntLbo, fileTable[i].dirent);
    }

    /** Writing b at the position p: the contents become the old ones with p .. p + |b|
        replaced, the file growing if need be by clusters that were free; every other
        file keeps its chain and its bytes. When the file cannot grow, nothing changes
        for any file. */
    method Write(fileId: nat, buffer: seq<Byte>) returns (status: Status, transfer: nat)
      requires Valid() && fileId in open && fileTable[fileId].direntLbo != 0 && !IsDirectory(fileTable[fileId])
      requires fileTable[fileId].position + |buffer| < 0x1_0000_0000
      modifies this`chains, s, s.cachedFat, m, m.vbo, m.lbo, fileTable
      ensures Valid()
      ensures var f := old(fileTable[fileId]);
              var end := f.position + |buffer|;
              var fits := end <= f.dirent.fileSize || GrowFits(s.g, old(s.Fat), old(chains)[fileId], end);
              && status == (if fits then ESUCCESS else ENOSPC)
              && f.position <= |old(Bytes(fileId))|
              && Bytes(fileId) == (if fits then Patched(old(Bytes(fileId)), f.position, buffer) else old(Bytes(fileId)))
              && fileTable[fileId].position == (if fits then end else f.position)
              && (fits ==> transfer == |buffer| && !s.cachedFatDirty)
              && (if fits && end > f.dirent.fileSize
                  then Lengthened(s.g, old(s.Fat), old(chains)[fileId], chains[fileId], end)
                  else chains[fileId] == old(chains)[fileId])
              && OnlyWritten(f, fileTable[fileId])
              && Counted(s.g, old(s.Fat), s.Fat, fits, |chains[fileId]| - |old(chains)[fileId]|)
      ensures forall j :: j in open && j != fileId ==>
                chains[j] == old(chains)[j] && fileTable[j] == old(fileTable[j]) && Bytes(j) == old(Bytes(j))
      ensures OnlyThisFile(s.g, old(s.Fat), s.Fat, old(s.disk), s.disk, old(fileTable[fileId]), old(chains)[fileId],
                           fileTable[fileId], chains[fileId])
      // The entry, with the new size, is on the device.
      ensures EntryAt(s.disk, fileTable[fileId].direntLbo, fileTable[fileId].dirent)
    {
      hide Valid, EntryAt, Bytes, Geometry.Valid, GrowFits, Lengthened, OnlyThisFile, FileOk, Patched, IsDirectory,
          FreeCount;
      WriteRoom(fileId);
      var f := fileTable[fileId];
      ghost var fat0, d0, c0 := s.Fat, s.disk, chains[fileId];
      var offsetBeyondWrite := f.position + |buffer|;
      if offsetBeyondWrite > f.dirent.fileSize {
        status := Grow(fileId, offsetBeyondWrite);
        if status != ESUCCESS {
          EntryOnDevice(fileId);
          return status, 0;
        }
        StillRegular(f, fileTable[fileId]);
        WriteRoom(fileId);
        ghost var fat1, d1, f1, c1 := s.Fat, s.disk, fileTable[fileId], chains[fileId];
        status, transfer := WriteOut(fileId, buffer);
        ghost var files := fileTable[..];
        assert fileTable[fileId] == files[fileId];
        StillRegular(f, fileTable[fileId]);
        WriteRoom(fileId);
        OnlyThisFileTrans(s.g, fat0, fat1, fat1, d0, d1, s.disk, f, c0, f1, c1, fileTable[fileId], c1);
      } else {
        status, transfer := WriteOut(fileId, buffer);
      }
      EntryOnDevice(fileId);
    }

    lemma WriteRoom(i: nat)
      requires Valid() && i in open && fileTable[i].direntLbo != 0 && !IsDirectory(fileTable[i])
      ensures i < fileTable.Length == |chains| && fileTable[i].position <= |Bytes(i)|
      ensures s.g.Valid() && |s.Fat| == s.g.clusters + 2 && 2 <= Hint(chains[i]) < 0x1_0000
      ensures s.g.bytesPerCluster > 0 && |s.disk| == s.g.deviceBytes
      ensures FileOk(s.g, s.Fat, s.disk, fileTable[i], chains[i])
    {
    }

    /** Move the position; offsets and positions are 32 bits wide, so a relative seek
        backwards is one that wraps. Past the end of the file is refused. */
    method Seek(fileId: nat, offset: nat, absolute: bool) returns (status: Status)
      requires Valid() && fileId in open && fileId < fileTable.Length && offset < 0x1_0000_0000
      modifies fileTable
      ensures Valid()
      ensures var f := old(fileTable[fileId]);
              var target := if absolute then offset else (f.position + offset) % 0x1_0000_0000;
              && (status == ESUCCESS <==> target <= |old(Bytes(fileId))|) && (status != ESUCCESS ==> status == EINVAL)
              && fileTable[..] == old(fileTable[..])[fileId := f.(position := if status == ESUCCESS then target
                  else f.position)]
      ensures forall j :: j in open ==> Bytes(j) == old(Bytes(j))
    {
      hide FatStore.Valid, Geometry.Valid, McbOk, FilesOk, FileOk, Contents, IsDirectory;
      var f := fileTable[fileId];
      var newPosition := if absolute then offset else (f.position + offset) % 0x1_0000_0000;
      if newPosition > f.dirent.fileSize {
        return EINVAL;
      }
      ghost var files := fileTable[..];
      ReadStart(fileId);
      MoveKeepsFiles(s.g, s.Fat, s.disk, files, open, chains, fileId, newPosition);
      SetPosition(s, m, fileTable, fileId, newPosition);
      forall j | j in open
        ensures Bytes(j) == old(Bytes(j))
      {
        MovedBytes(files, j);
      }
      return ESUCCESS;
    }

    lemma MovedBytes(files: seq<FileEntry>, j: nat)
      requires Valid() && j in open && j < |files| && files[j].dirent == fileTable[j].dirent
      ensures s.g.Valid() && |s.disk| == s.g.deviceBytes && Clusters(s.g, chains[j])
      ensures files[j].dirent.fileSize <= Capacity(s.g, chains[j])
      ensures Bytes(j) == Contents(s.g, s.disk, files[j], chains[j])
    {
      FileOkClusters(s.g, s.Fat, s.disk, fileTable[j], chains[j]);
    }

    /** Opening what a directory search found: a file in order, apart from every file
        already open. The mode decides whether that is refused and whether the file is
        emptied first; otherwise its bytes are what its chain holds. */
    method OpenFound(fileId: nat, direntLbo: nat, dirent: Dirent, mode: OpenMode, now: seq<Byte>, ghost c: seq<nat>)
      returns (status: Status, flags: Flags)
      requires Valid() && fileId < fileTable.Length && fileId !in open && |now| == 4
      requires s.g.Valid() && |s.disk| == s.g.deviceBytes && |s.Fat| == s.g.clusters + 2 && s.g.bytesPerCluster > 0
      requires var f := FileEntry(0, direntLbo, dirent);
               && FileOk(s.g, s.Fat, s.disk, f, c) && HomeOutside(s.g, f, f, c)
               && forall j :: j in open ==>
                   j < |chains| == fileTable.Length && Apart(s.g, f, c, fileTable[j], chains[j])
      modifies this`open, this`chains, fileTable, s, s.cachedFat
      ensures Valid()
      ensures var f := FileEntry(0, direntLbo, dirent);
              && status == OpenStatus(IsDirectory(f), FlagOn(dirent.attributes, FAT_DIRENT_ATTR_READ_ONLY), mode)
              && (status == ESUCCESS ==> flags == OpenFlags(mode))
              && OpenAnswer(dirent.attributes, mode, status, flags)
              && open == (if status == ESUCCESS then old(open) + {fileId} else old(open))
              && forall j :: 0 <= j < fileTable.Length && j != fileId ==>
                  fileTable[j] == old(fileTable[j]) && j < |chains| && chains[j] == old(chains)[j]
      ensures forall j :: j in old(open) ==> Bytes(j) == old(Bytes(j))
      ensures if status == ESUCCESS && Supersedes(mode) then
                && chains[fileId] == [] && Bytes(fileId) == []
                && fileTable[fileId] == TruncatedEntry(FileEntry(0, direntLbo, dirent), 0, now)
                && OnlyThisFile(s.g, old(s.Fat), s.Fat, old(s.disk), s.disk, FileEntry(0, direntLbo, dirent), c,
                                fileTable[fileId], [])
                && FreeCount(s.g, s.Fat) == FreeCount(s.g, old(s.Fat)) + |c|
              else
                && s.Fat == old(s.Fat) && s.disk == old(s.disk)
                && fileTable[fileId] == FileEntry(0, direntLbo, dirent)
                && (status == ESUCCESS ==>
                      && chains[fileId] == c && Clusters(s.g, c) && dirent.fileSize <= Capacity(s.g, c)
                      && Bytes(fileId) == Data(s.g, s.disk, c, dirent.fileSize))
      ensures status == ESUCCESS && direntLbo != 0 ==> EntryAt(s.disk, direntLbo, fileTable[fileId].dirent)
    {
      hide EntryAt, OpenAnswer, FatStore.Valid, Geometry.Valid, FileOk, HomeOutside, RunsOk, Walkable, FlagOn,
          OnlyThisFile, Apart, FilesOk, Capacity, Clusters, FreeCount;
      ghost var f, files := FileEntry(0, direntLbo, dirent), fileTable[..];
      OpenFacts();
      FileOkClusters(s.g, s.Fat, s.disk, f, c);
      NotRoot(s.g, s.Fat, s.disk, f, c);
      fileTable[fileId] := FileEntry(0, direntLbo, dirent);
      EntrySet(files, fileId, f);
      OpenModes(f, mode);
      flags := OpenFlags(mode);
      status := OpenStatus(IsDirectory(fileTable[fileId]), FlagOn(dirent.attributes, FAT_DIRENT_ATTR_READ_ONLY), mode);
      if status != ESUCCESS {
        return;
      }
      if Supersedes(mode) {
        Empty(fileId, now, c);
        NothingToMeet(s.g, fileTable[fileId]);
        Join(fileId, []);
      } else {
        Join(fileId, c);
      }
    }

    // Only the root directory has no entry.
    lemma NotRoot(g: Geometry, fat: seq<Word>, d: seq<Byte>, f: FileEntry, c: seq<nat>)
      requires g.Valid() && |fat| == g.clusters + 2 && |d| == g.deviceBytes && FileOk(g, fat, d, f, c)
      ensures !IsDirectory(f) ==> f.direntLbo != 0
    {
    }

    lemma NothingToMeet(g: Geometry, f: FileEntry)
      requires g.bytesPerCluster > 0
      ensures HomeOutside(g, f, f, [])
    {
    }

    // File i, entered in the table, counts as open from now on.
    ghost method Join(i: nat, c: seq<nat>)
      requires Valid() && i < fileTable.Length && i !in open
      requires s.g.Valid() && |s.disk| == s.g.deviceBytes && |s.Fat| == s.g.clusters + 2 && s.g.bytesPerCluster > 0
      requires var f := fileTable[i];
               && FileOk(s.g, s.Fat, s.disk, f, c) && HomeOutside(s.g, f, f, c)
               && forall j :: j in open ==>
                   j < |chains| == fileTable.Length && Apart(s.g, f, c, fileTable[j], chains[j])
      modifies this`open, this`chains
      ensures Valid() && open == old(open) + {i} && |old(chains)| == fileTable.Length && chains == old(chains)[i := c]
      ensures Clusters(s.g, c) && fileTable[i].dirent.fileSize <= Capacity(s.g, c)
      ensures Bytes(i) == Data(s.g, s.disk, c, fileTable[i].dirent.fileSize)
      ensures fileTable[i].direntLbo != 0 ==> EntryAt(s.disk, fileTable[i].direntLbo, fileTable[i].dirent)
      ensures forall j :: j in old(open) ==> Bytes(j) == old(Bytes(j))
    {
      hide FatStore.Valid, Geometry.Valid, FileOk, HomeOutside, Data, RunsOk, Walkable, Apart, EntryAt;
      ghost var f := fileTable[i];
      OpenFacts();
      FileOkClusters(s.g, s.Fat, s.disk, f, c);
      AddFile(s.g, s.Fat, s.disk, fileTable[..], open, chains, i, f, c);
      open, chains := open + {i}, chains[i := c];
      assert fileTable[..][i := f] == fileTable[..];
      if f.direntLbo != 0 {
        EntryOnDevice(i);
      }
    }

    // The entry of a file that is not open changes nothing for those that are.
    lemma EntrySet(files: seq<FileEntry>, i: nat, f: FileEntry)
      requires s.Valid() && m.Shaped() && i < |files| == fileTable.Length && i !in open
      requires fileTable[..] == files[i := f]
      requires FilesOk(s.g, s.Fat, s.disk, files, open, chains) && (m.inUse > 0 ==> m.fileId in open)
      requires m.inUse > 0 ==>
                 && m.fileId < |files| && Walkable(s.g, s.Fat, files[m.fileId])
                 && RunsOk(s.g, s.Fat, files[m.fileId], m.vbo[..], m.lbo[..], m.inUse)
      ensures Valid()
    {
      hide FileOk, Apart, HomeOutside, Walkable, RunsOk, FatStore.Valid, Geometry.Valid;
      assert forall j :: j in open ==> fileTable[..][j] == files[j];
    }

    // Empty a file that is entered in the table but not open.
    method Empty(fileId: nat, now: seq<Byte>, ghost c: seq<nat>)
      requires Valid() && fileId < fileTable.Length && fileId !in open && |now| == 4
      requires s.g.Valid() && |s.disk| == s.g.deviceBytes && |s.Fat| == s.g.clusters + 2 && s.g.bytesPerCluster > 0
      requires var f := fileTable[fileId];
               && FileOk(s.g, s.Fat, s.disk, f, c) && HomeOutside(s.g, f, f, c) && f.position == 0
               && !IsDirectory(f) && f.direntLbo != 0
               && forall j :: j in open ==>
                   j < |chains| == fileTable.Length && Apart(s.g, f, c, fileTable[j], chains[j])
      modifies fileTable, s, s.cachedFat
      ensures Valid() && |s.Fat| == s.g.clusters + 2 && |s.disk| == s.g.deviceBytes
      ensures fileTable[..] == old(fileTable[..])[fileId := TruncatedEntry(old(fileTable[fileId]), 0, now)]
      ensures FileOk(s.g, s.Fat, s.disk, fileTable[fileId], []) && fileTable[fileId].dirent.fileSize == 0
      ensures forall j :: j in open ==> Apart(s.g, fileTable[fileId], [], fileTable[j], chains[j])
      ensures OnlyThisFile(s.g, old(s.Fat), s.Fat, old(s.disk), s.disk, old(fileTable[fileId]), c,
                           fileTable[fileId], [])
      ensures FreeCount(s.g, s.Fat) == FreeCount(s.g, old(s.Fat)) + |c|
      ensures forall j :: j in open ==> Bytes(j) == old(Bytes(j))
    {
      hide FatStore.Valid, Geometry.Valid, FileOk, HomeOutside, Data, RunsOk, Walkable, FlagOn, OnlyThisFile, Apart,
          Truncated, OnlyFile, Linked, Updated, SameContents, Contents, FreeCount;
      OpenFacts();
      EmptyFacts(fileId, c);
      ghost var f, files, fat0, d0 := fileTable[fileId], fileTable[..], s.Fat, s.disk;
      var status := TruncateFileAllocation(s, fileTable, fileId, 0, now);
      StoreFacts(s);
      NothingNeeded(s.g);
      EmptiedCount(s.g, fat0, f.dirent.firstCluster, c);
      ghost var f' := fileTable[fileId];
      EmptiedOnlyFile(s.g, fat0, d0, s.disk, f, c, now);
      EmptyKeepsFiles(s.g, fat0, s.Fat, d0, s.disk, files, open, chains, f, c, f');
      assert fileTable[..] == files[fileId := f'];
      if m.inUse > 0 {
        var k := m.fileId;
        assert chains[k] + [] == chains[k];
        RunsKept(s.g, fat0, s.Fat, d0, s.disk, files[k], files[k], chains[k], [], m.vbo[..], m.lbo[..], m.inUse);
      }
      EntrySet(files, fileId, f');
      forall j | j in open
        ensures Bytes(j) == old(Bytes(j))
      {
        assert fileTable[j] == fileTable[..][j] == files[j];
        KeptBytes(d0, files, j);
      }
    }

    lemma NothingNeeded(g: Geometry)
      requires g.bytesPerCluster > 0
      ensures ClustersNeeded(g, 0) == 0
    {
      Arith.DivIsQuotient(0, g.bytesPerCluster, g.bytesPerCluster - 1);
    }

    lemma EmptyFacts(i: nat, c: seq<nat>)
      requires Valid() && i < fileTable.Length && s.g.Valid() && |s.disk| == s.g.deviceBytes
      requires |s.Fat| == s.g.clusters + 2 && fileTable[i].direntLbo != 0
      requires FileOk(s.g, s.Fat, s.disk, fileTable[i], c)
      ensures s.Valid() && m.Shaped() && Linked(s.g, s.Fat)
      ensures FileChain(s.g, s.Fat, fileTable[i].dirent.firstCluster, c)
      ensures var f := fileTable[i];
              && (s.g.IsNext(f.dirent.firstCluster) ==> s.g.InRange(f.dirent.firstCluster))
              && s.g.rootLbo <= f.direntLbo && f.direntLbo + DIRENT_SIZE <= |s.disk|
      ensures m.inUse > 0 ==>
                && m.fileId in open && m.fileId < fileTable.Length && Walkable(s.g, s.Fat, fileTable[m.fileId])
                && RunsOk(s.g, s.Fat, fileTable[m.fileId], m.vbo[..], m.lbo[..], m.inUse)
                && FileOk(s.g, s.Fat, s.disk, fileTable[m.fileId], chains[m.fileId])
    {
      FileOkClusters(s.g, s.Fat, s.disk, fileTable[i], c);
    }

    lemma OpenFacts()
      requires Valid()
      ensures FilesOk(s.g, s.Fat, s.disk, fileTable[..], open, chains) && Linked(s.g, s.Fat)
          && |chains| == fileTable.Length
    {
    }

    /** Closing a file writes the FAT back, so that every copy holds the map (when the
        copies agreed to begin with), and gives up a run list that was this file's. */
    method Close(fileId: nat) returns (status: Status)
      requires Valid() && fileId in open && fileTable.Length <= BL_FILE_TABLE_SIZE
      modifies this`open, s`disk, s`cachedFatDirty, m`fileId, m`inUse
      ensures Valid() && status == ESUCCESS && open == old(open) - {fileId}
      ensures SameData(s.g, old(s.disk), s.disk)
      ensures s.mirrored ==> forall k: nat, p: nat | k < s.g.fats && p < s.g.bytesPerFat ::
                CopyByte(s.g, s.disk, k, p) == s.bytes[p]
      ensures forall j :: j in open ==> Bytes(j) == old(Bytes(j))
    {
      hide Geometry.Valid, FileOk, Apart, HomeOutside, Contents;
      FlushIfDirty();
      if m.fileId == fileId {
        m.fileId, m.inUse := BL_FILE_TABLE_SIZE, 0;
      }
      open := open - {fileId};
      return ESUCCESS;
    }
  }
}
