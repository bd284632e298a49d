/** Growing and shrinking a file's chain of clusters. */
module FileAllocation {
  import opened FatFormat
  import opened FatStore
  import opened FatChains
  import opened FatAllocation
  import opened FileTable
  import Arith

  // Clusters of `size` bytes that hold byteSize bytes.
  function Needed(size: nat, byteSize: nat): nat
    requires size > 0
  {
    (byteSize + size - 1) / size
  }

  function ClustersNeeded(g: Geometry, byteSize: nat): nat
    requires g.bytesPerCluster > 0
  {
    Needed(g.bytesPerCluster, byteSize)
  }

  lemma ClustersNeededFit(g: Geometry, byteSize: nat)
    requires g.bytesPerCluster > 0
    ensures var n := ClustersNeeded(g, byteSize);
            && byteSize <= Arith.Times(n, g.bytesPerCluster)
            && (n > 0 ==> Arith.Times(n - 1, g.bytesPerCluster) < byteSize)
  {
    var b := g.bytesPerCluster;
    var n := ClustersNeeded(g, byteSize);
    Arith.DivMul(byteSize + b - 1, b);
    Arith.TimesIsProduct(n, b);
  }

  // Outside the FAT copies, d' is d with the clusters of `taken` zeroed and b put at lbo.
  ghost predicate Updated(g: Geometry, d: seq<Byte>, d': seq<Byte>, taken: seq<nat>, lbo: nat, b: seq<Byte>)
    requires g.bytesPerCluster > 0
  {
    && |d| == |d'|
    && forall a :: 0 <= a < |d| && !(g.firstFat <= a < g.rootLbo) ==>
        d'[a] == if lbo <= a < lbo + |b| then b[a - lbo] else if ClusterOf(g, a) in taken then 0 else d[a]
  }

  // An entry written outside the FAT copies is on the device.
  lemma UpdatedAt(g: Geometry, d: seq<Byte>, d': seq<Byte>, taken: seq<nat>, lbo: nat, e: Dirent)
    requires g.bytesPerCluster > 0 && Updated(g, d, d', taken, lbo, Encode(e))
    requires g.rootLbo <= lbo && lbo + DIRENT_SIZE <= |d'|
    ensures EntryAt(d', lbo, e)
  {
    hide Encode, EntryAt, ClusterOf;
    assert d'[lbo..lbo + DIRENT_SIZE] == Encode(e);
    EncodedAt(d', lbo, e);
  }

  // The entry reached from e after n links, or the entry that ended the walk sooner.
  ghost function Follow(g: Geometry, fat: seq<Word>, e: Word, n: nat): (r: Word)
    requires Linked(g, fat) && (g.IsNext(e) ==> g.InRange(e))
    ensures g.IsNext(r) ==> g.InRange(r)
    decreases n
  {
    if n == 0 || !g.IsNext(e) then e else Follow(g, fat, fat[e], n - 1)
  }

  lemma {:induction false} FollowStep(g: Geometry, fat: seq<Word>, e: Word, n: nat)
    requires Linked(g, fat) && (g.IsNext(e) ==> g.InRange(e))
    ensures var r := Follow(g, fat, e, n);
            Follow(g, fat, e, n + 1) == if g.IsNext(r) then fat[r] else r
    decreases n
  {
    if n > 0 && g.IsNext(e) {
      FollowStep(g, fat, fat[e], n - 1);
    }
  }

  lemma {:induction false} FollowChain(g: Geometry, fat: seq<Word>, c: seq<nat>, n: nat)
    requires g.Valid() && Linked(g, fat) && Chain(g, fat, c)
    ensures c[0] < 0x1_0000 && g.IsNext(c[0])
    ensures Follow(g, fat, c[0], n) == if n < |c| then c[n] else fat[c[|c| - 1]]
    decreases n
  {
    hide Geometry.Valid;
    InRangeIsNext(g, c[0]);
    if n > 0 {
      FollowChain(g, fat, c, n - 1);
      FollowStep(g, fat, c[0], n - 1);
      if n - 1 < |c| {
        InRangeIsNext(g, c[n - 1]);
      }
      if n < |c| {
        LinkStep(g, fat, c, n - 1);
      }
    }
  }

  /** fat' is fat with the chain c extended by `taken`, free clusters of fat. */
  ghost predicate Grown(g: Geometry, fat: seq<Word>, fat': seq<Word>, c: seq<nat>, taken: seq<nat>) {
    && |fat| == |fat'| == g.clusters + 2
    && (forall e :: e in taken ==> g.InRange(e) && IsFree(g, fat, e))
    && (forall i :: 0 <= i < |fat| && i !in taken && !(c != [] && i == c[|c| - 1]) ==> fat'[i] == fat[i])
    && (c + taken != [] ==> Chain(g, fat', c + taken))
  }

  lemma GrownByLink(g: Geometry, fat: seq<Word>, mid: seq<Word>, c: seq<nat>, taken: seq<nat>)
    requires g.Valid() && |fat| == g.clusters + 2 && Chain(g, fat, c)
    requires taken != [] && Allocated(g, fat, mid, taken)
    ensures Grown(g, fat, mid[c[|c| - 1] := taken[0]], c, taken)
    ensures 0 <= taken[0] < 0x1_0000 && Stored(g.bits, taken[0]) == taken[0]
  {
    ChainNotFree(g, fat, c);
    ChainFrame(g, fat, mid, c);
    ChainJoin(g, mid, c, taken);
    InRangeIsNext(g, taken[0]);
  }

  lemma GrownLinked(g: Geometry, fat: seq<Word>, fat': seq<Word>, c: seq<nat>, taken: seq<nat>)
    requires g.Valid() && Linked(g, fat) && Grown(g, fat, fat', c, taken)
    ensures Linked(g, fat') && forall e :: e in taken ==> g.InRange(e)
  {
    hide Geometry.Valid;
    var all := c + taken;
    forall i | 2 <= i < |fat'| && g.IsNext(fat'[i])
      ensures g.InRange(fat'[i])
    {
      if i in all {
        var k :| 0 <= k < |all| && all[k] == i;
        if k + 1 < |all| {
          LinkStep(g, fat', all, k);
        }
      }
    }
  }

  // The last cluster of the chain, where the allocator starts looking.
  function Hint(c: seq<nat>): nat {
    if c == [] then 2 else c[|c| - 1]
  }

  // How many links a walk from e follows, n at most.
  ghost function Walked(g: Geometry, fat: seq<Word>, e: Word, n: nat): (i: nat)
    requires Linked(g, fat) && (g.IsNext(e) ==> g.InRange(e))
    ensures i <= n
    decreases n
  {
    if n == 0 || !g.IsNext(e) then 0 else 1 + Walked(g, fat, fat[e], n - 1)
  }

  // The last cluster passed on such a walk; cluster 2 if there is none.
  ghost function LastPassed(g: Geometry, fat: seq<Word>, e: Word, n: nat): (r: Word)
    requires Linked(g, fat) && (g.IsNext(e) ==> g.InRange(e))
    ensures r == 2 || g.InRange(r)
  {
    var i := Walked(g, fat, e, n);
    if i == 0 then 2
    else
      WalkedLinks(g, fat, e, n, i - 1);
      Follow(g, fat, e, i - 1)
  }

  lemma {:induction false} WalkedLinks(g: Geometry, fat: seq<Word>, e: Word, n: nat, k: nat)
    requires Linked(g, fat) && (g.IsNext(e) ==> g.InRange(e)) && k < Walked(g, fat, e, n)
    ensures g.IsNext(Follow(g, fat, e, k))
    decreases k
  {
    if k > 0 {
      WalkedLinks(g, fat, fat[e], n - 1, k - 1);
    }
  }

  lemma {:induction false} WalkedCount(g: Geometry, fat: seq<Word>, e: Word, n: nat, i: nat)
    requires Linked(g, fat) && (g.IsNext(e) ==> g.InRange(e))
    requires i <= n && (forall k :: 0 <= k < i ==> g.IsNext(Follow(g, fat, e, k)))
    requires i < n ==> !g.IsNext(Follow(g, fat, e, i))
    ensures Walked(g, fat, e, n) == i
    decreases n
  {
    FollowFirst(g, fat, e);
    if n > 0 && g.IsNext(e) {
      forall k | 0 <= k < i - 1
        ensures g.IsNext(Follow(g, fat, fat[e], k))
      {
        assert Follow(g, fat, e, k + 1) == Follow(g, fat, fat[e], k);
      }
      assert Follow(g, fat, e, i) == Follow(g, fat, fat[e], i - 1);
      WalkedCount(g, fat, fat[e], n - 1, i - 1);
    }
  }

  lemma FollowFirst(g: Geometry, fat: seq<Word>, e: Word)
    requires Linked(g, fat) && (g.IsNext(e) ==> g.InRange(e))
    ensures Follow(g, fat, e, 0) == e
  {
  }

  // On a proper chain c: its clusters are passed, as far as the walk may go.
  lemma WalkedChain(g: Geometry, fat: seq<Word>, first: Word, c: seq<nat>, n: nat)
    requires g.Valid() && Linked(g, fat) && FileChain(g, fat, first, c)
    ensures g.IsNext(first) ==> g.InRange(first)
    ensures Walked(g, fat, first, n) == (if n <= |c| then n else |c|)
    ensures LastPassed(g, fat, first, n) == Hint(if n <= |c| then c[..n] else c)
  {
    hide Geometry.Valid, Chain, Walked;
    if c == [] {
      AvailableIsNoLink(g, first);
      WalkedCount(g, fat, first, n, 0);
    } else {
      EndOfChain(g, fat, c);
      var i := if n <= |c| then n else |c|;
      forall k | 0 <= k <= i
        ensures Follow(g, fat, first, k) == if k < |c| then c[k] else fat[c[|c| - 1]]
      {
        FollowChain(g, fat, c, k);
      }
      WalkedCount(g, fat, first, n, i);
    }
  }

  lemma AvailableIsNoLink(g: Geometry, e: Word)
    requires e == FAT_CLUSTER_AVAILABLE
    ensures !g.IsNext(e)
  {
  }

  // Walk down the links from `first` for at most `limit` clusters, wherever they lead.
  method FindEnd(s: FatStore, first: Word, limit: nat) returns (i: nat, previousEntry: Word)
    requires s.Valid() && Linked(s.g, s.Fat) && (s.g.IsNext(first) ==> s.g.InRange(first))
    modifies s`disk, s`cached, s`cachedFatVbo, s`cachedFatDirty, s.cachedFat
    ensures s.Valid() && SameData(s.g, old(s.disk), s.disk)
    ensures i == Walked(s.g, s.Fat, first, limit) && previousEntry == LastPassed(s.g, s.Fat, first, limit)
  {
    hide FatStore.Valid, Geometry.Valid, Follow, Walked, Linked;
    StoreFacts(s);
    var fatEntry := first;
    previousEntry, i := 2, 0;
    FollowStart(s.g, s.Fat, first);
    while i < limit && s.g.IsNext(fatEntry)
      invariant i <= limit && s.Valid() && SameData(s.g, old(s.disk), s.disk)
      invariant fatEntry == Follow(s.g, s.Fat, first, i)
      invariant forall k :: 0 <= k < i ==> s.g.IsNext(Follow(s.g, s.Fat, first, k))
      invariant previousEntry == if i == 0 then 2 else Follow(s.g, s.Fat, first, i - 1)
    {
      previousEntry := fatEntry;
      FollowStep(s.g, s.Fat, first, i);
      fatEntry := s.LookupFatEntry(previousEntry);
      i := i + 1;
    }
    WalkedCount(s.g, s.Fat, first, limit, i);
  }

  // What a walk of the chain finds after i links.
  lemma ChainEntry(s: FatStore, first: Word, c: seq<nat>, i: nat)
    requires s.Valid() && Linked(s.g, s.Fat) && FileChain(s.g, s.Fat, first, c) && i <= |c|
    ensures |s.Fat| == s.g.clusters + 2
    ensures i > 0 ==> s.g.InRange(c[i - 1])
    ensures var e := if i == 0 then first else s.Fat[c[i - 1]];
            if i < |c| then e == c[i] && s.g.InRange(e) && s.g.IsNext(e) else !s.g.IsNext(e)
  {
    if 0 < i < |c| {
      LinkStep(s.g, s.Fat, c, i - 1);
    } else if i < |c| {
      InRangeIsNext(s.g, c[0]);
    }
  }

  /** What growing a file to hold byteSize bytes does: nothing when its chain c is
      long enough; else the chain is continued by the first free clusters found, the
      directory entry being written when it gains a first cluster; else, when too few
      are found, what was taken is left as a chain of its own. */
  ghost predicate IncreaseOutcome(g: Geometry, fat: seq<Word>, fat': seq<Word>, d: seq<Byte>, d': seq<Byte>,
          f: FileEntry, f': FileEntry, byteSize: nat, c: seq<nat>, taken: seq<nat>, status: Status)
    requires g.Valid() && |fat| == |fat'| == g.clusters + 2 && Hint(c) < 0x1_0000 && Hint(c) >= 2
  {
    var need := ClustersNeeded(g, byteSize);
    var scan := FreeInScan(g, fat, Hint(c));
    if |c| >= need || need - |c| <= |scan| then
      && status == ESUCCESS
      && taken == (if |c| >= need then [] else scan[..need - |c|])
      && Grown(g, fat, fat', c, taken)
      && FileChain(g, fat', f'.dirent.firstCluster, c + taken)
      && f' == f.(dirent := f.dirent.(firstCluster := f'.dirent.firstCluster))
      && Updated(g, d, d', taken, f.direntLbo, if c == [] && taken != [] then Encode(f'.dirent) else [])
    else
      && status == ENOSPC && f' == f
      && taken == AllFree(g, fat, Hint(c)) && Allocated(g, fat, fat', taken)
      && Zeroed(g, d, d', taken)
  }

  lemma AlreadyLongEnough(g: Geometry, fat: seq<Word>, d: seq<Byte>, d': seq<Byte>, f: FileEntry, byteSize: nat,
          c: seq<nat>)
    requires g.Valid() && |fat| == g.clusters + 2 && Hint(c) < 0x1_0000 && Hint(c) >= 2
    requires FileChain(g, fat, f.dirent.firstCluster, c) && SameData(g, d, d')
    requires |c| >= ClustersNeeded(g, byteSize)
    ensures IncreaseOutcome(g, fat, fat, d, d', f, f, byteSize, c, [], ESUCCESS)
  {
    assert c + [] == c;
  }

  lemma AllocationFailed(g: Geometry, fat: seq<Word>, fat': seq<Word>, d: seq<Byte>, d': seq<Byte>, f: FileEntry,
          byteSize: nat, c: seq<nat>, taken: seq<nat>)
    requires g.Valid() && Linked(g, fat) && 2 <= Hint(c) < 0x1_0000
    requires ClustersNeeded(g, byteSize) - |c| > |FreeInScan(g, fat, Hint(c))|
    requires Allocated(g, fat, fat', taken) && Zeroed(g, d, d', taken) && taken == AllFree(g, fat, Hint(c))
    ensures |fat'| == g.clusters + 2 && IncreaseOutcome(g, fat, fat', d, d', f, f, byteSize, c, taken, ENOSPC)
  {
  }

  lemma ZeroedThenWritten(g: Geometry, d: seq<Byte>, mid: seq<Byte>, taken: seq<nat>, lbo: nat, b: seq<Byte>)
    requires g.bytesPerCluster > 0 && Zeroed(g, d, mid, taken) && lbo + |b| <= |mid|
    ensures Updated(g, d, Splice(mid, lbo, b), taken, lbo, b)
  {
  }

  lemma FirstChain(g: Geometry, fat: seq<Word>, fat': seq<Word>, taken: seq<nat>)
    requires taken != [] && Allocated(g, fat, fat', taken)
    ensures Grown(g, fat, fat', [], taken) && |fat'| == g.clusters + 2 && Chain(g, fat', taken)
  {
    assert [] + taken == taken;
  }

  lemma NewChain(g: Geometry, fat: seq<Word>, fat': seq<Word>, d: seq<Byte>, d': seq<Byte>, f: FileEntry, f': FileEntry,
          byteSize: nat, taken: seq<nat>)
    requires g.Valid() && g.bytesPerCluster > 0 && Linked(g, fat)
    requires 0 < ClustersNeeded(g, byteSize) <= |FreeInScan(g, fat, 2)|
    requires taken == FreeInScan(g, fat, 2)[..ClustersNeeded(g, byteSize)]
    requires Allocated(g, fat, fat', taken) && Updated(g, d, d', taken, f.direntLbo, Encode(f'.dirent))
    requires f'.dirent.firstCluster == taken[0]
    requires f' == f.(dirent := f.dirent.(firstCluster := f'.dirent.firstCluster))
    ensures |fat'| == g.clusters + 2
    ensures IncreaseOutcome(g, fat, fat', d, d', f, f', byteSize, [], taken, ESUCCESS)
  {
    hide FreeInScan, ClustersNeeded, Encode, Updated, Geometry.Valid, Linked, AllFree, Zeroed, Chain, IsFree;
    assert [] + taken == taken;
    FirstChain(g, fat, fat', taken);
  }

  lemma LongerChain(g: Geometry, fat: seq<Word>, mid: seq<Word>, d: seq<Byte>, d': seq<Byte>, f: FileEntry,
          byteSize: nat, c: seq<nat>, taken: seq<nat>)
    requires g.Valid() && Linked(g, fat) && c != [] && FileChain(g, fat, f.dirent.firstCluster, c)
    requires Hint(c) < 0x1_0000
    requires |c| < ClustersNeeded(g, byteSize) <= |c| + |FreeInScan(g, fat, Hint(c))|
    requires taken == FreeInScan(g, fat, Hint(c))[..ClustersNeeded(g, byteSize) - |c|]
    requires Allocated(g, fat, mid, taken) && Zeroed(g, d, d', taken)
    ensures 0 <= taken[0] < 0x1_0000 && Stored(g.bits, taken[0]) == taken[0]
    ensures IncreaseOutcome(g, fat, mid[c[|c| - 1] := taken[0]], d, d', f, f, byteSize, c, taken, ESUCCESS)
  {
    GrownByLink(g, fat, mid, c, taken);
  }

  lemma ZeroedSince(g: Geometry, d0: seq<Byte>, d1: seq<Byte>, d2: seq<Byte>, taken: seq<nat>)
    requires g.bytesPerCluster > 0 && SameData(g, d0, d1) && Zeroed(g, d1, d2, taken)
    ensures Zeroed(g, d0, d2, taken)
  {
  }

  /** What growing does to a file whatever its links lead to, a loop or a bad mark
      included: it walks at most as many links as there are clusters needed; if it finds
      fewer, the clusters it then takes are put after the last one passed. */
  ghost predicate Increased(g: Geometry, fat: seq<Word>, mid: seq<Word>, fat': seq<Word>, d: seq<Byte>, d': seq<Byte>,
          f: FileEntry, f': FileEntry, byteSize: nat, taken: seq<nat>, status: Status)
    requires g.Valid() && g.bytesPerCluster > 0 && |mid| == |fat| && Linked(g, fat)
    requires g.IsNext(f.dirent.firstCluster) ==> g.InRange(f.dirent.firstCluster)
  {
    var need, first := ClustersNeeded(g, byteSize), f.dirent.firstCluster;
    var i, previous := Walked(g, fat, first, need), LastPassed(g, fat, first, need);
    var scan := FreeInScan(g, fat, previous);
    if i >= need then
      status == ESUCCESS && taken == [] && fat' == fat && f' == f && SameData(g, d, d')
    else if need - i <= |scan| then
      && status == ESUCCESS && taken == scan[..need - i] && Allocated(g, fat, mid, taken) && taken[0] < 0x1_0000
      && if first == FAT_CLUSTER_AVAILABLE then
           && fat' == mid && f' == f.(dirent := f.dirent.(firstCluster := taken[0]))
           && Updated(g, d, d', taken, f.direntLbo, Encode(f'.dirent))
         else
           previous < |mid| && fat' == mid[previous := Stored(g.bits, taken[0])] && f' == f && Zeroed(g, d, d', taken)
    else
      && status == ENOSPC && f' == f && fat' == mid
      && taken == AllFree(g, fat, previous) && Allocated(g, fat, fat', taken) && Zeroed(g, d, d', taken)
  }

  // The file before growth.
  lemma IncreaseStart(s: FatStore, f: FileEntry)
    requires s.Valid() && Linked(s.g, s.Fat)
    ensures s.g.Valid() && s.g.bytesPerCluster > 0 && |s.Fat| == s.g.clusters + 2 && s.g.clusters >= 1
    ensures SameData(s.g, s.disk, s.disk)
  {
  }

  // Putting a cluster after the last one passed keeps links in range.
  lemma LinkedOn(g: Geometry, fat: seq<Word>, mid: seq<Word>, taken: seq<nat>, previous: Word)
    requires g.Valid() && Linked(g, fat) && Allocated(g, fat, mid, taken) && taken != [] && g.InRange(previous)
    ensures 0 <= taken[0] < 0x1_0000 && Stored(g.bits, taken[0]) == taken[0] && |mid| == g.clusters + 2
    ensures Linked(g, mid) && Linked(g, mid[previous := taken[0]])
  {
    AllocatedLinked(g, fat, mid, taken);
    InRangeIsNext(g, taken[0]);
  }

  lemma ZeroedThenSame(g: Geometry, d0: seq<Byte>, d1: seq<Byte>, d2: seq<Byte>, taken: seq<nat>)
    requires g.bytesPerCluster > 0 && Zeroed(g, d0, d1, taken) && SameData(g, d1, d2)
    ensures Zeroed(g, d0, d2, taken)
  {
  }

  method IncreaseFileAllocation(s: FatStore, fileTable: array<FileEntry>, fileId: nat, byteSize: nat)
    returns (status: Status, ghost taken: seq<nat>, ghost mid: seq<Word>)
    requires s.Valid() && Linked(s.g, s.Fat) && fileId < fileTable.Length
    requires var f := fileTable[fileId];
             f.direntLbo != 0 ==>
               && (s.g.IsNext(f.dirent.firstCluster) ==> s.g.InRange(f.dirent.firstCluster))
               && s.g.rootLbo <= f.direntLbo && f.direntLbo + DIRENT_SIZE <= |s.disk|
    modifies s, s.cachedFat, fileTable
    ensures s.Valid() && Linked(s.g, s.Fat)
    ensures forall i :: 0 <= i < fileTable.Length && i != fileId ==> fileTable[i] == old(fileTable[i])
    ensures old(fileTable[fileId]).direntLbo == 0 ==>
              && (status == ESUCCESS <==> byteSize <= s.g.rootSize) && (status != ESUCCESS ==> status == ENOSPC)
              && fileTable[fileId] == old(fileTable[fileId])
              && s.Fat == old(s.Fat) && SameData(s.g, old(s.disk), s.disk)
    ensures old(fileTable[fileId]).direntLbo != 0 ==>
              && s.g.Valid() && s.g.bytesPerCluster > 0 && |mid| == |old(s.Fat)|
              && Increased(s.g, old(s.Fat), mid, s.Fat, old(s.disk), s.disk, old(fileTable[fileId]), fileTable[fileId],
                           byteSize, taken, status)
  {
    hide FatStore.Valid, Linked, Allocated, Zeroed, SameData, Geometry.Valid, FreeInScan, ClustersNeeded, Walked,
        LastPassed, Encode, Updated, LaidOut;
    var f := fileTable[fileId];
    taken, mid := [], s.Fat;
    IncreaseStart(s, f);
    if f.direntLbo == 0 {
      return if s.g.rootSize >= byteSize then ESUCCESS else ENOSPC, [], s.Fat;
    }
    ghost var fat0, disk0 := s.Fat, s.disk;
    var numberOfClustersNeeded := ClustersNeeded(s.g, byteSize);
    var i, previousEntry := FindEnd(s, f.dirent.firstCluster, numberOfClustersNeeded);
    if i >= numberOfClustersNeeded {
      return ESUCCESS, [], s.Fat;
    }
    var fatEntry;
    ghost var disk1 := s.disk;
    status, fatEntry, taken := AllocateClusters(s, numberOfClustersNeeded - i, previousEntry);
    ZeroedSince(s.g, disk0, disk1, s.disk, taken);
    AllocatedSizes(s.g, fat0, s.Fat, taken);
    mid := s.Fat;
    if status != ESUCCESS {
      return;
    }
    ghost var disk2 := s.disk;
    LinkedOn(s.g, fat0, mid, taken, previousEntry);
    if f.dirent.firstCluster == FAT_CLUSTER_AVAILABLE {
      fileTable[fileId] := f.(dirent := f.dirent.(firstCluster := fatEntry));
      s.DiskWrite(f.direntLbo, Encode(fileTable[fileId].dirent));
      ZeroedThenWritten(s.g, disk0, disk2, taken, f.direntLbo, Encode(fileTable[fileId].dirent));
    } else {
      s.SetFatEntry(previousEntry, fatEntry);
      ZeroedThenSame(s.g, disk0, disk2, s.disk, taken);
    }
  }

  lemma AllocatedSizes(g: Geometry, fat: seq<Word>, fat': seq<Word>, taken: seq<nat>)
    requires g.Valid() && Linked(g, fat) && Allocated(g, fat, fat', taken)
    ensures |fat'| == |fat| && Linked(g, fat')
  {
    AllocatedLinked(g, fat, fat', taken);
  }

  /** On a proper chain c, the old chain is kept as a prefix and continued, or, with too few
      clusters found, the file is left as it was. */
  lemma IncreasedChain(g: Geometry, fat: seq<Word>, mid: seq<Word>, fat': seq<Word>, d: seq<Byte>, d': seq<Byte>,
          f: FileEntry, f': FileEntry, byteSize: nat, c: seq<nat>, taken: seq<nat>, status: Status)
    requires g.Valid() && g.bytesPerCluster > 0 && |mid| == |fat| == |fat'| && Linked(g, fat) && |d| == |d'|
    requires FileChain(g, fat, f.dirent.firstCluster, c)
    requires g.IsNext(f.dirent.firstCluster) ==> g.InRange(f.dirent.firstCluster)
    requires Increased(g, fat, mid, fat', d, d', f, f', byteSize, taken, status)
    ensures 2 <= Hint(c) < 0x1_0000 && IncreaseOutcome(g, fat, fat', d, d', f, f', byteSize, c, taken, status)
  {
    hide Geometry.Valid, FreeInScan, ClustersNeeded, Walked, LastPassed, Encode, Chain, Allocated, SameData, Updated,
        Zeroed;
    var need := ClustersNeeded(g, byteSize);
    WalkedChain(g, fat, f.dirent.firstCluster, c, need);
    HintInRange(g, fat, f, c);
    if |c| >= need {
      AlreadyLongEnough(g, fat, d, d', f, byteSize, c);
    } else if need - |c| > |FreeInScan(g, fat, Hint(c))| {
      AllocationFailed(g, fat, fat', d, d', f, byteSize, c, taken);
    } else if c == [] {
      NewChain(g, fat, fat', d, d', f, f', byteSize, taken);
    } else {
      LongerChain(g, fat, mid, d, d', f, byteSize, c, taken);
    }
  }

  lemma HintInRange(g: Geometry, fat: seq<Word>, f: FileEntry, c: seq<nat>)
    requires g.Valid() && Linked(g, fat) && FileChain(g, fat, f.dirent.firstCluster, c)
    ensures 2 <= Hint(c) < 0x1_0000 && (c == [] <==> f.dirent.firstCluster == FAT_CLUSTER_AVAILABLE)
    ensures g.clusters >= 1
  {
    if c != [] {
      EndOfChain(g, fat, c);
    }
  }

  /** A file whose entry holds neither a link nor zero gains nothing from growing, although
      that succeeds: the clusters taken are put after cluster 2, whosever that is. */
  lemma GrowthOfBadEntry(g: Geometry, fat: seq<Word>, mid: seq<Word>, fat': seq<Word>, d: seq<Byte>, d': seq<Byte>,
          f: FileEntry, f': FileEntry, byteSize: nat, taken: seq<nat>, status: Status)
    requires g.Valid() && g.bytesPerCluster > 0 && |mid| == |fat| && Linked(g, fat) && byteSize > 0
    requires !g.IsNext(f.dirent.firstCluster) && f.dirent.firstCluster != FAT_CLUSTER_AVAILABLE
    requires Increased(g, fat, mid, fat', d, d', f, f', byteSize, taken, status)
    ensures status == ESUCCESS <==> ClustersNeeded(g, byteSize) <= |FreeInScan(g, fat, 2)|
    ensures f' == f
    ensures status == ESUCCESS ==>
              && |taken| == ClustersNeeded(g, byteSize) > 0 && |fat'| == |fat| && fat'[2] == taken[0]
              && forall x :: 3 <= x < |fat| && x !in taken ==> fat'[x] == fat[x]
  {
    hide FreeInScan, Geometry.IsNext;
    var need := ClustersNeeded(g, byteSize);
    SomeNeeded(g, byteSize);
    if status == ESUCCESS {
      InRangeIsNext(g, taken[0]);
    }
  }

  lemma SomeNeeded(g: Geometry, byteSize: nat)
    requires g.bytesPerCluster > 0 && byteSize > 0
    ensures ClustersNeeded(g, byteSize) > 0
  {
    ClustersNeededFit(g, byteSize);
  }

  // The same call on a file whose chain c is proper.
  method IncreaseProper(s: FatStore, fileTable: array<FileEntry>, fileId: nat, byteSize: nat, ghost c: seq<nat>)
    returns (status: Status, ghost taken: seq<nat>)
    requires s.Valid() && Linked(s.g, s.Fat) && fileId < fileTable.Length && fileTable[fileId].direntLbo != 0
    requires var f := fileTable[fileId];
             && FileChain(s.g, s.Fat, f.dirent.firstCluster, c)
             && s.g.rootLbo <= f.direntLbo && f.direntLbo + DIRENT_SIZE <= |s.disk|
    modifies s, s.cachedFat, fileTable
    ensures s.Valid() && Linked(s.g, s.Fat) && 2 <= Hint(c) < 0x1_0000
    ensures forall i :: 0 <= i < fileTable.Length && i != fileId ==> fileTable[i] == old(fileTable[i])
    ensures IncreaseOutcome(s.g, old(s.Fat), s.Fat, old(s.disk), s.disk, old(fileTable[fileId]), fileTable[fileId],
                            byteSize, c, taken, status)
  {
    hide FatStore.Valid, Geometry.Valid, FileChain, Increased, IncreaseOutcome;
    ghost var fat0, d0, f0 := s.Fat, s.disk, fileTable[fileId];
    StoreFacts(s);
    WalkedChain(s.g, s.Fat, f0.dirent.firstCluster, c, 0);
    ghost var mid;
    status, taken, mid := IncreaseFileAllocation(s, fileTable, fileId, byteSize);
    StoreFacts(s);
    IncreasedChain(s.g, fat0, mid, s.Fat, d0, s.disk, f0, fileTable[fileId], byteSize, c, taken, status);
  }

  // Clusters whose entry is a link.
  ghost function Links(g: Geometry, fat: seq<Word>): set<nat>
    requires |fat| == g.clusters + 2
  {
    set i: nat | 2 <= i < g.clusters + 2 && g.IsNext(fat[i])
  }

  /** The FAT once the clusters reached from e have been freed one after the other.
      Each step turns a link into a free entry, so this ends on any FAT whose links
      are in range, cyclic chains included. */
  ghost function FreeFrom(g: Geometry, fat: seq<Word>, e: Word): seq<Word>
    requires g.Valid() && Linked(g, fat) && (g.IsNext(e) ==> g.InRange(e))
    decreases Links(g, fat), g.IsNext(e)
  {
    if !g.IsNext(e) then fat
    else
      FreeingShrinks(g, fat, e);
      FreeFrom(g, fat[e := FAT_CLUSTER_AVAILABLE], fat[e])
  }

  lemma FreeingShrinks(g: Geometry, fat: seq<Word>, e: nat)
    requires g.Valid() && Linked(g, fat) && g.InRange(e)
    ensures Linked(g, fat[e := FAT_CLUSTER_AVAILABLE])
    ensures Links(g, fat[e := FAT_CLUSTER_AVAILABLE]) == Links(g, fat) - {e}
  {
  }

  /** The FAT after truncating the chain at `first` to n clusters. */
  ghost function Truncated(g: Geometry, fat: seq<Word>, first: Word, n: nat): seq<Word>
    requires g.Valid() && Linked(g, fat) && (g.IsNext(first) ==> g.InRange(first))
  {
    if n == 0 then FreeFrom(g, fat, first)
    else
      var last := Follow(g, fat, first, n - 1);
      if !g.IsNext(last) then fat                // the chain is shorter already
      else
        var e := fat[last];
        FreeFrom(g, if g.InterpretClusterType(e).Last? then fat else Marked(g, fat, last), e)
  }

  ghost function Marked(g: Geometry, fat: seq<Word>, last: nat): (r: seq<Word>)
    requires g.Valid() && Linked(g, fat) && g.InRange(last)
    ensures Linked(g, r)
  {
    fat[last := Stored(g.bits, FAT_CLUSTER_LAST)]
  }

  lemma {:induction false} FreeFromChain(g: Geometry, fat: seq<Word>, c: seq<nat>)
    requires g.Valid() && Linked(g, fat) && Chain(g, fat, c)
    ensures c[0] < 0x1_0000 && g.IsNext(c[0])
    ensures var r := FreeFrom(g, fat, c[0]);
            |r| == |fat| && forall i :: 0 <= i < |r| ==> r[i] == if i in c then FAT_CLUSTER_AVAILABLE else fat[i]
    decreases |c|
  {
    InRangeIsNext(g, c[0]);
    FreeingShrinks(g, fat, c[0]);
    if |c| > 1 {
      var d, fat' := c[1..], fat[c[0] := FAT_CLUSTER_AVAILABLE];
      LinkStep(g, fat, c, 0);
      ChainSuffix(g, fat, c, 1);
      ChainDistinct(g, fat, c);
      ChainFrame(g, fat, fat', d);
      FreeFromChain(g, fat', d);
      assert c == [c[0]] + d;
    }
  }

  // r is fat with the chain c cut down to its first `keep` clusters.
  ghost predicate CutAt(g: Geometry, fat: seq<Word>, r: seq<Word>, c: seq<nat>, keep: nat)
    requires keep <= |c|
  {
    && |r| == |fat| == g.clusters + 2
    && forall i :: 0 <= i < |r| ==>
        r[i] == if i in c[keep..] then FAT_CLUSTER_AVAILABLE
                else if 0 < keep < |c| && i == c[keep - 1] then Stored(g.bits, FAT_CLUSTER_LAST)
                else fat[i]
  }

  lemma TruncatedForm(g: Geometry, fat: seq<Word>, c: seq<nat>, n: nat)
    requires g.Valid() && Linked(g, fat) && Chain(g, fat, c)
    ensures c[0] < 0x1_0000 && g.IsNext(c[0])
    ensures n < |c| ==> c[n] < 0x1_0000 && g.IsNext(c[n])
    ensures Truncated(g, fat, c[0], n) ==
            if n == 0 then FreeFrom(g, fat, c[0])
            else if n < |c| then FreeFrom(g, Marked(g, fat, c[n - 1]), c[n])
            else fat
  {
    hide Geometry.Valid, Follow, Chain;
    EndOfChain(g, fat, c);
    if n > 0 {
      FollowChain(g, fat, c, n - 1);
      if n < |c| {
        LinkStep(g, fat, c, n - 1);
      }
    }
  }

  lemma EndOfChain(g: Geometry, fat: seq<Word>, c: seq<nat>)
    requires g.Valid() && |fat| == g.clusters + 2 && Chain(g, fat, c)
    ensures c != [] && forall k :: 0 <= k < |c| ==> g.InRange(c[k]) && c[k] < 0x1_0000 && g.IsNext(c[k])
    ensures g.InterpretClusterType(fat[c[|c| - 1]]).Last?
  {
  }

  lemma TruncatedEntries(g: Geometry, fat: seq<Word>, c: seq<nat>, n: nat)
    requires g.Valid() && Linked(g, fat) && Chain(g, fat, c)
    ensures c[0] < 0x1_0000 && g.IsNext(c[0])
    ensures CutAt(g, fat, Truncated(g, fat, c[0], n), c, if n < |c| then n else |c|)
  {
    hide Geometry.Valid, Truncated, FreeFrom;
    TruncatedForm(g, fat, c, n);
    if n == 0 {
      FreeFromChain(g, fat, c);
      assert c[0..] == c;
    } else if n < |c| {
      CutEntries(g, fat, c, n);
    } else {
      assert c[|c|..] == [];
    }
  }

  lemma CutEntries(g: Geometry, fat: seq<Word>, c: seq<nat>, n: nat)
    requires g.Valid() && Linked(g, fat) && Chain(g, fat, c) && 0 < n < |c|
    ensures c[n] < 0x1_0000 && g.IsNext(c[n])
    ensures CutAt(g, fat, FreeFrom(g, Marked(g, fat, c[n - 1]), c[n]), c, n)
  {
    hide Geometry.Valid, FreeFrom;
    var d, marked := c[n..], Marked(g, fat, c[n - 1]);
    InRangeIsNext(g, c[n]);
    ChainDistinct(g, fat, c);
    ChainSuffix(g, fat, c, n);
    ChainFrame(g, fat, marked, d);
    FreeFromChain(g, marked, d);
    assert c[n - 1] !in d;
  }

  /** On a proper chain, truncating to n clusters keeps the first n, marks the last
      of them, and frees exactly the rest; nothing else changes. */
  lemma TruncatedChain(g: Geometry, fat: seq<Word>, c: seq<nat>, n: nat)
    requires g.Valid() && Linked(g, fat) && Chain(g, fat, c)
    ensures c[0] < 0x1_0000 && g.IsNext(c[0])
    ensures var r, keep := Truncated(g, fat, c[0], n), if n < |c| then n else |c|;
            && CutAt(g, fat, r, c, keep) && Linked(g, r)
            && (keep > 0 ==> Chain(g, r, c[..keep]))
            && FreeSet(g, r) == FreeSet(g, fat) + ToSet(c[keep..])
  {
    TruncatedEntries(g, fat, c, n);
    CutChain(g, fat, Truncated(g, fat, c[0], n), c, if n < |c| then n else |c|);
  }

  lemma LastIsLast(g: Geometry)
    requires g.Valid()
    ensures g.InterpretClusterType(Stored(g.bits, FAT_CLUSTER_LAST)).Last?
    ensures g.InterpretClusterType(FAT_CLUSTER_AVAILABLE).Available?
  {
  }

  // What each entry holds after a cut.
  lemma CutEntry(g: Geometry, fat: seq<Word>, r: seq<Word>, c: seq<nat>, keep: nat)
    requires g.Valid() && Linked(g, fat) && Chain(g, fat, c) && keep <= |c| && CutAt(g, fat, r, c, keep)
    ensures |r| == |fat| == g.clusters + 2
    ensures forall i :: 0 <= i < |r| ==> r[i] == fat[i] || !g.IsNext(r[i])
    ensures forall i :: 0 <= i < |r| ==> (IsFree(g, r, i) <==> IsFree(g, fat, i) || i in c[keep..])
    ensures forall k :: 0 <= k < keep - 1 ==> r[c[k]] == fat[c[k]]
    ensures keep > 0 ==> 0 <= c[keep - 1] < |r| && g.InterpretClusterType(r[c[keep - 1]]).Last?
  {
    hide Geometry.Valid;
    ChainDistinct(g, fat, c);
    ChainNotFree(g, fat, c);
    EndOfChain(g, fat, c);
    LastIsLast(g);
    assert forall k :: 0 <= k < keep ==> c[k] !in c[keep..];
  }

  lemma CutChain(g: Geometry, fat: seq<Word>, r: seq<Word>, c: seq<nat>, keep: nat)
    requires g.Valid() && Linked(g, fat) && Chain(g, fat, c) && keep <= |c| && CutAt(g, fat, r, c, keep)
    ensures Linked(g, r)
    ensures keep > 0 ==> Chain(g, r, c[..keep])
    ensures FreeSet(g, r) == FreeSet(g, fat) + ToSet(c[keep..])
  {
    hide Geometry.Valid, CutAt;
    CutEntry(g, fat, r, c, keep);
    forall k | 0 <= k < keep - 1
      ensures LinksOn(g, r, c[..keep], k)
    {
      assert LinksOn(g, fat, c, k);
    }
    forall i | i in c[keep..]
      ensures g.InRange(i)
    {
      var k :| 0 <= k < |c[keep..]| && c[keep..][k] == i;
      assert c[keep + k] == i;
    }
  }

  // Free the clusters reached from `first`, one after the other.
  method FreeChain(s: FatStore, first: Word)
    requires s.Valid() && Linked(s.g, s.Fat) && (s.g.IsNext(first) ==> s.g.InRange(first))
    modifies s, s.cachedFat
    ensures s.Valid() && Linked(s.g, s.Fat) && SameData(s.g, old(s.disk), s.disk)
    ensures s.Fat == FreeFrom(s.g, old(s.Fat), first)
  {
    hide FatStore.Valid, Geometry.Valid;
    StoreFacts(s);
    var fatEntry := first;
    while s.g.IsNext(fatEntry)
      invariant s.Valid() && s.g.Valid() && Linked(s.g, s.Fat) && SameData(s.g, old(s.disk), s.disk)
      invariant s.g.IsNext(fatEntry) ==> s.g.InRange(fatEntry)
      invariant FreeFrom(s.g, s.Fat, fatEntry) == FreeFrom(s.g, old(s.Fat), first)
      decreases Links(s.g, s.Fat), s.g.IsNext(fatEntry)
    {
      var currentIndex := fatEntry;
      fatEntry := s.LookupFatEntry(currentIndex);
      FreeingShrinks(s.g, s.Fat, currentIndex);
      s.SetFatEntry(currentIndex, FAT_CLUSTER_AVAILABLE);
    }
  }

  lemma StoreFacts(s: FatStore)
    requires s.Valid()
    ensures s.g.Valid() && |s.Fat| == s.g.clusters + 2 && Stored(s.g.bits, FAT_CLUSTER_AVAILABLE)
        == FAT_CLUSTER_AVAILABLE
    ensures s.g.bytesPerCluster > 0 && |s.disk| == s.g.deviceBytes
  {
  }

  // Walk n clusters down from `first`, noting the last one passed and what it holds.
  method WalkTo(s: FatStore, first: Word, n: nat) returns (reached: bool, currentIndex: Word, fatEntry: Word)
    requires s.Valid() && Linked(s.g, s.Fat) && (s.g.IsNext(first) ==> s.g.InRange(first))
    modifies s`disk, s`cached, s`cachedFatVbo, s`cachedFatDirty, s.cachedFat
    ensures s.Valid() && SameData(s.g, old(s.disk), s.disk)
    ensures reached <==> n == 0 || s.g.IsNext(Follow(s.g, s.Fat, first, n - 1))
    ensures reached ==>
              if n == 0 then currentIndex == FAT_CLUSTER_AVAILABLE && fatEntry == first
              else currentIndex == Follow(s.g, s.Fat, first, n - 1) && s.g.InRange(currentIndex)
                   && fatEntry == s.Fat[currentIndex]
  {
    hide FatStore.Valid, Geometry.Valid, Follow;
    StoreFacts(s);
    fatEntry, currentIndex := first, FAT_CLUSTER_AVAILABLE;
    FollowStart(s.g, s.Fat, first);
    for i := 0 to n
      invariant s.Valid() && SameData(s.g, old(s.disk), s.disk)
      invariant fatEntry == Follow(s.g, s.Fat, first, i)
      invariant if i == 0 then currentIndex == FAT_CLUSTER_AVAILABLE && fatEntry == first
                else s.g.InRange(currentIndex) && currentIndex == Follow(s.g, s.Fat, first, i - 1)
                     && s.g.IsNext(currentIndex) && fatEntry == s.Fat[currentIndex]
    {
      if !s.g.IsNext(fatEntry) {
        FollowStays(s.g, s.Fat, first, i, n - 1);
        return false, currentIndex, fatEntry;
      }
      currentIndex := fatEntry;
      FollowStep(s.g, s.Fat, first, i);
      fatEntry := s.LookupFatEntry(currentIndex);
    }
    return true, currentIndex, fatEntry;
  }

  lemma FollowStart(g: Geometry, fat: seq<Word>, e: Word)
    requires Linked(g, fat) && (g.IsNext(e) ==> g.InRange(e))
    ensures Follow(g, fat, e, 0) == e
  {
  }

  lemma {:induction false} FollowStays(g: Geometry, fat: seq<Word>, e: Word, i: nat, j: nat)
    requires Linked(g, fat) && (g.IsNext(e) ==> g.InRange(e))
    requires i <= j && !g.IsNext(Follow(g, fat, e, i))
    ensures Follow(g, fat, e, j) == Follow(g, fat, e, i)
    decreases j
  {
    if i < j {
      FollowStays(g, fat, e, i, j - 1);
      FollowStep(g, fat, e, j - 1);
    }
  }

  /** The in-memory entry after truncation: emptied, and stamped anew, when nothing
      is kept of an allocation. */
  function TruncatedEntry(f: FileEntry, need: nat, now: seq<Byte>): FileEntry
    requires |now| == 4
  {
    if need == 0 && f.dirent.firstCluster != FAT_CLUSTER_AVAILABLE then
      f.(dirent := f.dirent.(attributes := FAT_DIRENT_ATTR_ARCHIVE, lastWrite := now, firstCluster := 0, fileSize := 0))
    else
      f
  }

  // `now` is the time stamp that the clock gives.
  method TruncateFileAllocation(s: FatStore, fileTable: array<FileEntry>, fileId: nat, byteSize: nat, now: seq<Byte>)
    returns (status: Status)
    requires s.Valid() && Linked(s.g, s.Fat) && fileId < fileTable.Length && |now| == 4
    requires var f := fileTable[fileId];
             f.direntLbo != 0 ==>
               && (s.g.IsNext(f.dirent.firstCluster) ==> s.g.InRange(f.dirent.firstCluster))
               && s.g.rootLbo <= f.direntLbo && f.direntLbo + DIRENT_SIZE <= |s.disk|
    modifies s, s.cachedFat, fileTable
    ensures s.Valid() && Linked(s.g, s.Fat) && status == ESUCCESS
    ensures forall i :: 0 <= i < fileTable.Length && i != fileId ==> fileTable[i] == old(fileTable[i])
    ensures var f, f' := old(fileTable[fileId]), fileTable[fileId];
            if f.direntLbo == 0 then
              f' == f && s.Fat == old(s.Fat) && SameData(s.g, old(s.disk), s.disk)
            else
              var need := ClustersNeeded(s.g, byteSize);
              && f' == TruncatedEntry(f, need, now)
              && s.Fat == Truncated(s.g, old(s.Fat), f.dirent.firstCluster, need)
              && Updated(s.g, old(s.disk), s.disk, [], f.direntLbo, if f' == f then [] else Encode(f'.dirent))
    // An allocation that is cut to nothing leaves an empty file of that name, here and on
    // the device; otherwise the entry stays.
    ensures var f, f' := old(fileTable[fileId]), fileTable[fileId];
            if f.direntLbo != 0 && byteSize == 0 && f.dirent.firstCluster != 0 then
              && f'.position == f.position && f'.direntLbo == f.direntLbo
              && f'.dirent == Dirent(f.dirent.name, FAT_DIRENT_ATTR_ARCHIVE, f.dirent.middle, now, 0, 0)
              && EntryAt(s.disk, f.direntLbo, f'.dirent)
            else f' == f
  {
    hide FatStore.Valid, Geometry.Valid, Follow, FreeFrom, ClustersNeeded, Encode, SameData, Updated, Linked, EntryAt;
    StoreFacts(s);
    NoneForNothing(s.g, byteSize);
    var f := fileTable[fileId];
    ghost var disk0, b := s.disk, [];
    EntryUpdated(s.g, disk0, disk0, disk0, disk0, f.direntLbo, b);
    if f.direntLbo == 0 {
      return ESUCCESS;
    }
    var reached, currentIndex, fatEntry := WalkTo(s, f.dirent.firstCluster, ClustersNeeded(s.g, byteSize));
    ghost var disk1 := s.disk;
    StoreFacts(s);
    if reached {
      if currentIndex == FAT_CLUSTER_AVAILABLE {
        if f.dirent.firstCluster != FAT_CLUSTER_AVAILABLE {
          fileTable[fileId] := TruncatedEntry(f, 0, now);
          b := Encode(fileTable[fileId].dirent);
          s.DiskWrite(f.direntLbo, Encode(fileTable[fileId].dirent));
        }
      } else {
        EntryInRange(s, currentIndex);
        if !s.g.InterpretClusterType(fatEntry).Last? {
          s.SetFatEntry(currentIndex, FAT_CLUSTER_LAST);
        }
      }
      ghost var disk2 := s.disk;
      FreeChain(s, fatEntry);
      EntryUpdated(s.g, disk0, disk1, disk2, s.disk, f.direntLbo, b);
      if b != [] {
        UpdatedAt(s.g, disk0, s.disk, [], f.direntLbo, fileTable[fileId].dirent);
      }
    } else {
      EntryUpdated(s.g, disk0, disk1, disk1, disk1, f.direntLbo, b);
    }
    return ESUCCESS;
  }

  // Only for nothing is no cluster needed.
  lemma NoneForNothing(g: Geometry, byteSize: nat)
    requires g.bytesPerCluster > 0
    ensures ClustersNeeded(g, byteSize) == 0 <==> byteSize == 0
  {
    ClustersNeededFit(g, byteSize);
    if byteSize == 0 {
      Arith.DivIsQuotient(0, g.bytesPerCluster, g.bytesPerCluster - 1);
    }
  }

  lemma EntryInRange(s: FatStore, i: nat)
    requires s.Valid() && Linked(s.g, s.Fat) && s.g.InRange(i)
    ensures s.g.IsNext(s.Fat[i]) ==> s.g.InRange(s.Fat[i])
    ensures Linked(s.g, s.Fat[i := Stored(s.g.bits, FAT_CLUSTER_LAST)])
  {
  }

  // At most the directory entry at lbo was written between d0 and d3.
  lemma EntryUpdated(g: Geometry, d0: seq<Byte>, d1: seq<Byte>, d2: seq<Byte>, d3: seq<Byte>, lbo: nat, b: seq<Byte>)
    requires g.bytesPerCluster > 0 && (d0 != d1 ==> SameData(g, d0, d1)) && (d2 != d3 ==> SameData(g, d2, d3))
    requires (b == [] && (d1 != d2 ==> SameData(g, d1, d2))) || (lbo + |b| <= |d1| && d2 == Splice(d1, lbo, b))
    ensures Updated(g, d0, d3, [], lbo, b) && (b == [] ==> SameData(g, d0, d3))
  {
  }
}
