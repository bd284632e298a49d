/** The extent map: a bounded list of runs for one file at a time, refilled by walking
    the chain, that must agree with walking the chain. */
module FileRuns {
  import opened FatFormat
  import opened FatStore
  import opened FatChains
  import opened FileTable
  import opened FileAllocation
  import Arith

  const FAT_MAXIMUM_MCB := 41

  // Run i maps file offsets vbo[i] .. vbo[i + 1] to device offsets from lbo[i] on.
  class RunMap {
    var fileId: nat
    var inUse: nat
    const vbo: array<nat>
    const lbo: array<nat>

    predicate Shaped()
      reads this
    {
      vbo.Length == lbo.Length == FAT_MAXIMUM_MCB && vbo != lbo && inUse < FAT_MAXIMUM_MCB
    }

    // The state after mounting.
    constructor ()
      ensures Shaped() && inUse == 0 && fileId == 0
    {
      vbo := new nat[FAT_MAXIMUM_MCB](_ => 0);
      lbo := new nat[FAT_MAXIMUM_MCB](_ => 0);
      fileId, inUse := 0, 0;
    }
  }

  ghost predicate Walkable(g: Geometry, fat: seq<Word>, f: FileEntry) {
    g.Valid() && Linked(g, fat) && (g.IsNext(f.dirent.firstCluster) ==> g.InRange(f.dirent.firstCluster))
  }

  /** The reference: where byte v of a file lies on the device, if anywhere. */
  ghost function LboAt(g: Geometry, fat: seq<Word>, f: FileEntry, v: nat): Option<nat>
    requires Walkable(g, fat, f)
  {
    if f.direntLbo == 0 then if v < g.rootSize then Some(g.rootLbo + v) else None
    else Walk(g, fat, f.dirent.firstCluster, v)
  }

  // Bytes v .. v + n of the file lie at lbo .. lbo + n.
  ghost predicate Contiguous(g: Geometry, fat: seq<Word>, f: FileEntry, v: nat, n: nat, lbo: nat)
    requires Walkable(g, fat, f)
  {
    forall u: nat | v <= u < v + n :: LboAt(g, fat, f, u) == Some(lbo + (u - v))
  }

  ghost predicate RunOk(g: Geometry, fat: seq<Word>, f: FileEntry, vs: seq<nat>, ls: seq<nat>, i: nat)
    requires Walkable(g, fat, f) && i + 1 < |vs| == |ls|
  {
    vs[i] < vs[i + 1] && vs[i + 1] % DIRENT_SIZE == 0 && Contiguous(g, fat, f, vs[i], vs[i + 1] - vs[i], ls[i])
  }

  // The first n runs agree with walking the chain of f.
  ghost predicate RunsOk(g: Geometry, fat: seq<Word>, f: FileEntry, vs: seq<nat>, ls: seq<nat>, n: nat)
    requires Walkable(g, fat, f)
  {
    n < |vs| == |ls| && forall i: nat | i < n :: RunOk(g, fat, f, vs, ls, i)
  }

  lemma {:induction false} WalkFollow(g: Geometry, fat: seq<Word>, e: Word, k: nat, o: nat)
    requires g.Valid() && Linked(g, fat) && (g.IsNext(e) ==> g.InRange(e))
    ensures Walk(g, fat, e, Arith.Times(k, g.bytesPerCluster) + o) == Walk(g, fat, Follow(g, fat, e, k), o)
    decreases k
  {
    if k > 0 && g.IsNext(e) {
      WalkFollow(g, fat, fat[e], k - 1, o);
    }
  }

  // Cluster k of the chain is a contiguous piece of the file.
  lemma ClusterContiguous(g: Geometry, fat: seq<Word>, f: FileEntry, k: nat)
    requires Walkable(g, fat, f) && f.direntLbo != 0
    requires g.IsNext(Follow(g, fat, f.dirent.firstCluster, k))
    ensures Contiguous(g, fat, f, Arith.Times(k, g.bytesPerCluster), g.bytesPerCluster,
                       g.IndexToLbo(Follow(g, fat, f.dirent.firstCluster, k)))
  {
    hide Geometry.Valid, Follow;
    var v := Arith.Times(k, g.bytesPerCluster);
    forall u: nat | v <= u < v + g.bytesPerCluster
      ensures LboAt(g, fat, f, u) == Some(g.IndexToLbo(Follow(g, fat, f.dirent.firstCluster, k)) + (u - v))
    {
      WalkFollow(g, fat, f.dirent.firstCluster, k, u - v);
    }
  }

  lemma RunNotEmpty(g: Geometry, fat: seq<Word>, f: FileEntry, vs: seq<nat>, ls: seq<nat>, i: nat)
    requires Walkable(g, fat, f) && i + 1 < |vs| == |ls| && RunOk(g, fat, f, vs, ls, i)
    ensures vs[i] < vs[i + 1]
  {
  }

  // Runs end at cluster boundaries, or at the end of the root directory.
  lemma WholeDirents(g: Geometry, k: nat)
    requires g.Valid()
    ensures g.bytesPerCluster % DIRENT_SIZE == 0 && g.rootSize % DIRENT_SIZE == 0
    ensures Arith.Times(k, g.bytesPerCluster) % DIRENT_SIZE == 0
  {
    Arith.Mod512(g.bytesPerCluster);
    Arith.Mod512(g.rootSize);
    Arith.TimesWhole(k, g.bytesPerCluster);
  }

  lemma ContiguousJoin(g: Geometry, fat: seq<Word>, f: FileEntry, v: nat, n: nat, n': nat, lbo: nat)
    requires Walkable(g, fat, f)
    requires Contiguous(g, fat, f, v, n, lbo) && Contiguous(g, fat, f, v + n, n', lbo + n)
    ensures Contiguous(g, fat, f, v, n + n', lbo)
  {
  }

  // Growing the last run by the next cluster.
  lemma RunExtended(g: Geometry, fat: seq<Word>, f: FileEntry, vs: seq<nat>, vs': seq<nat>, ls: seq<nat>, n: nat,
          more: nat)
    requires Walkable(g, fat, f) && n > 0 && RunsOk(g, fat, f, vs, ls, n) && RunOk(g, fat, f, vs, ls, n - 1)
    requires Contiguous(g, fat, f, vs[n], more, ls[n - 1] + (vs[n] - vs[n - 1]))
    requires vs' == vs[n := vs[n] + more] && more % DIRENT_SIZE == 0
    ensures RunsOk(g, fat, f, vs', ls, n) && RunOk(g, fat, f, vs', ls, n - 1)
  {
    hide Contiguous, Walkable;
    ContiguousJoin(g, fat, f, vs[n - 1], vs[n] - vs[n - 1], more, ls[n - 1]);
    forall i: nat | i < n
      ensures RunOk(g, fat, f, vs', ls, i)
    {
      assert RunOk(g, fat, f, vs, ls, i);
    }
  }

  // Adding a run for the next cluster.
  lemma RunAdded(g: Geometry, fat: seq<Word>, f: FileEntry, vs: seq<nat>, vs': seq<nat>, ls: seq<nat>, ls': seq<nat>,
          n: nat, more: nat)
    requires Walkable(g, fat, f) && RunsOk(g, fat, f, vs, ls, n) && n + 1 < |vs| && more > 0 && |ls'| == |ls|
    requires Contiguous(g, fat, f, vs[n], more, ls'[n])
    requires vs' == vs[n + 1 := vs[n] + more] && ls' == ls[n := ls'[n]] && vs'[n + 1] % DIRENT_SIZE == 0
    ensures RunsOk(g, fat, f, vs', ls', n + 1) && RunOk(g, fat, f, vs', ls', n)
  {
    hide Contiguous, Walkable;
    forall i: nat | i < n
      ensures RunOk(g, fat, f, vs', ls', i)
    {
      assert RunOk(g, fat, f, vs, ls, i);
    }
  }

  // Past the end of the chain there is nothing.
  lemma WalkEnds(g: Geometry, fat: seq<Word>, f: FileEntry, k: nat, v: nat)
    requires Walkable(g, fat, f) && f.direntLbo != 0 && Arith.Times(k, g.bytesPerCluster) <= v
    requires !g.IsNext(Follow(g, fat, f.dirent.firstCluster, k))
    ensures LboAt(g, fat, f, v).None?
  {
    WalkFollow(g, fat, f.dirent.firstCluster, k, v - Arith.Times(k, g.bytesPerCluster));
  }

  // Go down the chain to the cluster before, or holding, startingVbo.
  method SkipTo(s: FatStore, f: FileEntry, startingVbo: nat)
    returns (found: bool, vbo: nat, fatEntry: Word, ghost k: nat)
    requires s.Valid() && Walkable(s.g, s.Fat, f) && f.direntLbo != 0
    modifies s`disk, s`cached, s`cachedFatVbo, s`cachedFatDirty, s.cachedFat
    ensures s.Valid() && SameData(s.g, old(s.disk), s.disk)
    ensures fatEntry == Follow(s.g, s.Fat, f.dirent.firstCluster, k) && found == s.g.IsNext(fatEntry)
    ensures Arith.Times(k, s.g.bytesPerCluster) <= startingVbo
    ensures found ==> vbo == Arith.Times(k + 1, s.g.bytesPerCluster) && startingVbo <= vbo
  {
    hide FatStore.Valid, Geometry.Valid, Follow, SameData;
    StoreFacts(s);
    fatEntry, vbo, k := f.dirent.firstCluster, s.g.bytesPerCluster, 0;
    FollowStart(s.g, s.Fat, fatEntry);
    SameDataStart(s);
    while vbo < startingVbo
      invariant s.Valid() && SameData(s.g, old(s.disk), s.disk)
      invariant fatEntry == Follow(s.g, s.Fat, f.dirent.firstCluster, k)
      invariant vbo == Arith.Times(k + 1, s.g.bytesPerCluster) && Arith.Times(k, s.g.bytesPerCluster) <= startingVbo
    {
      if !s.g.IsNext(fatEntry) {
        return false, vbo, fatEntry, k;
      }
      FollowStep(s.g, s.Fat, f.dirent.firstCluster, k);
      ghost var disk1 := s.disk;
      fatEntry := s.LookupFatEntry(fatEntry);
      SameDataTrans(s.g, old(s.disk), disk1, s.disk);
      vbo, k := vbo + s.g.bytesPerCluster, k + 1;
    }
    found := s.g.IsNext(fatEntry);
  }

  lemma SameDataStart(s: FatStore)
    ensures SameData(s.g, s.disk, s.disk)
  {
  }

  lemma SameDataTrans(g: Geometry, d0: seq<Byte>, d1: seq<Byte>, d2: seq<Byte>)
    requires SameData(g, d0, d1) && SameData(g, d1, d2)
    ensures SameData(g, d0, d2)
  {
  }

  // What holds between two steps of filling the run list: it covers the chain up to
  // and including cluster k, and startingVbo is covered or comes right after.
  ghost predicate Filling(s: FatStore, m: RunMap, f: FileEntry, startingVbo: nat, fatEntry: Word, k: nat)
    requires Walkable(s.g, s.Fat, f)
    reads s, m, m.vbo, m.lbo
  {
    && m.Shaped() && m.inUse > 0
    && RunsOk(s.g, s.Fat, f, m.vbo[..], m.lbo[..], m.inUse)
    && RunOk(s.g, s.Fat, f, m.vbo[..], m.lbo[..], m.inUse - 1)
    && fatEntry == Follow(s.g, s.Fat, f.dirent.firstCluster, k) && s.g.IsNext(fatEntry)
    && m.vbo[m.inUse] == Arith.Times(k + 1, s.g.bytesPerCluster)
    && m.lbo[m.inUse - 1] + (m.vbo[m.inUse] - m.vbo[m.inUse - 1]) == s.g.IndexToLbo(fatEntry) + s.g.bytesPerCluster
    && m.vbo[0] <= startingVbo <= m.vbo[m.inUse]
    && (startingVbo == m.vbo[m.inUse] ==> m.inUse == 1)
  }

  // How far the last run is from the top of the device.
  ghost function Room(s: FatStore, m: RunMap): int
    requires m.Shaped() && m.inUse > 0
    reads s, m, m.vbo, m.lbo
  {
    (s.g.fileArea + Arith.Times(s.g.clusters, s.g.bytesPerCluster) + m.vbo[m.inUse - 1]) as int
    - (m.lbo[m.inUse - 1] + m.vbo[m.inUse]) as int
  }

  // Take the next cluster of the chain into the run list, if it fits.
  method TakeRun(s: FatStore, m: RunMap, f: FileEntry, ghost startingVbo: nat, ghost prev: Word, fatEntry: Word,
          ghost k: nat)
    returns (fits: bool)
    requires s.Valid() && Walkable(s.g, s.Fat, f) && f.direntLbo != 0
    requires Filling(s, m, f, startingVbo, prev, k)
    requires fatEntry == Follow(s.g, s.Fat, f.dirent.firstCluster, k + 1) && s.g.IsNext(fatEntry)
    modifies m`inUse, m.vbo, m.lbo
    ensures s.Valid()
    ensures fits ==> Filling(s, m, f, startingVbo, fatEntry, k + 1)
    ensures fits ==> m.inUse > old(m.inUse) || (m.inUse == old(m.inUse) && 0 <= Room(s, m) < old(Room(s, m)))
    ensures !fits ==>
              && m.inUse == old(m.inUse) == FAT_MAXIMUM_MCB - 1
              && m.vbo[..] == old(m.vbo[..]) && m.lbo[..] == old(m.lbo[..])
  {
    hide FatStore.Valid, Geometry.Valid, Follow, RunsOk, RunOk, Contiguous, Linked;
    StoreFacts(s);
    ghost var vs, ls, n := m.vbo[..], m.lbo[..], m.inUse;
    assert vs[n - 1] < vs[n] by { RunNotEmpty(s.g, s.Fat, f, vs, ls, n - 1); }
    ClusterContiguous(s.g, s.Fat, f, k + 1);
    WholeDirents(s.g, k + 2);
    ClusterFits(s.g, fatEntry);
    var lbo := s.g.IndexToLbo(fatEntry);
    if m.lbo[m.inUse - 1] + (m.vbo[m.inUse] - m.vbo[m.inUse - 1]) == lbo {
      m.vbo[m.inUse] := m.vbo[m.inUse] + s.g.bytesPerCluster;
      RunExtended(s.g, s.Fat, f, vs, m.vbo[..], ls, n, s.g.bytesPerCluster);
    } else {
      if m.inUse + 1 >= FAT_MAXIMUM_MCB {
        return false;
      }
      m.inUse := m.inUse + 1;
      m.lbo[m.inUse - 1] := lbo;
      m.vbo[m.inUse] := m.vbo[m.inUse - 1] + s.g.bytesPerCluster;
      RunAdded(s.g, s.Fat, f, vs, m.vbo[..], ls, m.lbo[..], n, s.g.bytesPerCluster);
    }
    return true;
  }

  method FillRuns(s: FatStore, m: RunMap, f: FileEntry, startingVbo: nat, first: Word, ghost k0: nat)
    requires s.Valid() && Walkable(s.g, s.Fat, f) && f.direntLbo != 0
    requires Filling(s, m, f, startingVbo, first, k0)
    modifies s`disk, s`cached, s`cachedFatVbo, s`cachedFatDirty, s.cachedFat, m`inUse, m.vbo, m.lbo
    ensures s.Valid() && SameData(s.g, old(s.disk), s.disk)
    ensures m.Shaped() && m.inUse > 0 && RunsOk(s.g, s.Fat, f, m.vbo[..], m.lbo[..], m.inUse)
    ensures m.vbo[0] <= startingVbo && (LboAt(s.g, s.Fat, f, startingVbo).Some? ==> startingVbo < m.vbo[m.inUse])
  {
    hide FatStore.Valid, Geometry.Valid, Follow, RunsOk, RunOk, Contiguous, Linked, LboAt, SameData;
    var fatEntry := first;
    ghost var k := k0;
    SameDataStart(s);
    StoreFacts(s);
    while true
      invariant s.Valid() && SameData(s.g, old(s.disk), s.disk)
      invariant Filling(s, m, f, startingVbo, fatEntry, k)
      decreases FAT_MAXIMUM_MCB - m.inUse, Room(s, m)
    {
      var clusterEntry := fatEntry;
      FollowStep(s.g, s.Fat, f.dirent.firstCluster, k);
      ghost var disk1 := s.disk;
      fatEntry := s.LookupFatEntry(clusterEntry);
      SameDataTrans(s.g, old(s.disk), disk1, s.disk);
      if !s.g.IsNext(fatEntry) {
        if startingVbo == m.vbo[m.inUse] {
          WalkEnds(s.g, s.Fat, f, k + 1, startingVbo);
        }
        return;
      }
      var fits := TakeRun(s, m, f, startingVbo, clusterEntry, fatEntry, k);
      if !fits {
        return;
      }
      k := k + 1;
    }
  }

  method LoadMcb(s: FatStore, m: RunMap, fileTable: array<FileEntry>, fileId: nat, startingVbo: nat)
    requires s.Valid() && m.Shaped() && fileId < fileTable.Length && Walkable(s.g, s.Fat, fileTable[fileId])
    modifies s`disk, s`cached, s`cachedFatVbo, s`cachedFatDirty, s.cachedFat, m, m.vbo, m.lbo
    ensures s.Valid() && SameData(s.g, old(s.disk), s.disk)
    ensures m.Shaped() && m.fileId == fileId
    ensures RunsOk(s.g, s.Fat, fileTable[fileId], m.vbo[..], m.lbo[..], m.inUse)
    ensures m.inUse > 0 ==> m.vbo[0] <= startingVbo
    ensures LboAt(s.g, s.Fat, fileTable[fileId], startingVbo).Some? ==> m.inUse > 0 && startingVbo < m.vbo[m.inUse]
  {
    hide FatStore.Valid, Geometry.Valid, Follow, Linked, SameData;
    var f := fileTable[fileId];
    SameDataStart(s);
    m.fileId, m.inUse := fileId, 0;
    m.vbo[0] := 0;
    if f.direntLbo == 0 {
      m.inUse := 1;
      m.lbo[0] := s.g.rootLbo;
      m.vbo[1] := s.g.rootSize;
      RootSizePositive(s.g);
      WholeDirents(s.g, 0);
      return;
    }
    var found, vbo, fatEntry, k := SkipTo(s, f, startingVbo);
    if !found {
      WalkEnds(s.g, s.Fat, f, k, startingVbo);
      return;
    }
    StoreFacts(s);
    ghost var disk1 := s.disk;
    m.inUse := 1;
    m.vbo[0] := vbo - s.g.bytesPerCluster;
    m.lbo[0] := s.g.IndexToLbo(fatEntry);
    m.vbo[1] := vbo;
    ClusterContiguous(s.g, s.Fat, f, k);
    WholeDirents(s.g, k + 1);
    FillRuns(s, m, f, startingVbo, fatEntry, k);
    SameDataTrans(s.g, old(s.disk), disk1, s.disk);
  }

  lemma RootSizePositive(g: Geometry)
    requires g.Valid()
    ensures g.rootSize > 0
  {
  }

  // The run list, if not empty, is right for the file it belongs to.
  ghost predicate McbOk(s: FatStore, m: RunMap, fileTable: array<FileEntry>)
    reads s`Fat, m, m.vbo, m.lbo, fileTable
  {
    && m.Shaped()
    && (m.inUse > 0 && m.fileId < fileTable.Length ==>
          && Walkable(s.g, s.Fat, fileTable[m.fileId])
          && RunsOk(s.g, s.Fat, fileTable[m.fileId], m.vbo[..], m.lbo[..], m.inUse))
  }

  /** Agrees with walking the chain, for every offset and whatever the run list held:
      the location, a positive count over which it stays contiguous, and failure
      exactly past the end. */
  method VboToLbo(s: FatStore, m: RunMap, fileTable: array<FileEntry>, fileId: nat, vbo: nat)
    returns (status: Status, lbo: nat, byteCount: nat)
    requires s.Valid() && fileId < fileTable.Length && Walkable(s.g, s.Fat, fileTable[fileId])
    requires McbOk(s, m, fileTable)
    modifies s`disk, s`cached, s`cachedFatVbo, s`cachedFatDirty, s.cachedFat, m, m.vbo, m.lbo
    ensures s.Valid() && SameData(s.g, old(s.disk), s.disk) && McbOk(s, m, fileTable) && m.fileId == fileId
    ensures status == if LboAt(s.g, s.Fat, fileTable[fileId], vbo).Some? then ESUCCESS else EINVAL
    ensures status == ESUCCESS ==>
              && LboAt(s.g, s.Fat, fileTable[fileId], vbo) == Some(lbo)
              && byteCount > 0 && (vbo + byteCount) % DIRENT_SIZE == 0
                  && Contiguous(s.g, s.Fat, fileTable[fileId], vbo, byteCount, lbo)
  {
    hide FatStore.Valid, Geometry.Valid, LboAt, Contiguous, SameData, Walkable, RunOk;
    SameDataStart(s);
    if fileId != m.fileId || vbo < m.vbo[0] || vbo >= m.vbo[m.inUse] {
      LoadMcb(s, m, fileTable, fileId, vbo);
    }
    lbo, byteCount := 0, 0;
    for i := 0 to m.inUse
      invariant m.inUse > 0 ==> m.vbo[i] <= vbo
    {
      assert RunOk(s.g, s.Fat, fileTable[fileId], m.vbo[..], m.lbo[..], i);
      if vbo < m.vbo[i + 1] {
        lbo := m.lbo[i] + (vbo - m.vbo[i]);
        byteCount := m.vbo[i + 1] - vbo;
        RunTail(s.g, s.Fat, fileTable[fileId], m.vbo[..], m.lbo[..], i, vbo);
        return ESUCCESS, lbo, byteCount;
      }
    }
    return EINVAL, lbo, byteCount;
  }

  lemma RunTail(g: Geometry, fat: seq<Word>, f: FileEntry, vs: seq<nat>, ls: seq<nat>, i: nat, v: nat)
    requires Walkable(g, fat, f) && i + 1 < |vs| == |ls| && RunOk(g, fat, f, vs, ls, i)
    requires vs[i] <= v < vs[i + 1]
    ensures LboAt(g, fat, f, v) == Some(ls[i] + (v - vs[i]))
    ensures vs[i + 1] % DIRENT_SIZE == 0 && Contiguous(g, fat, f, v, vs[i + 1] - v, ls[i] + (v - vs[i]))
  {
  }
}
