/** Reading a directory entry by entry, in batches, through the extent map. */
module DirectoryListing {
  import opened FatFormat
  import opened FatStore
  import opened FatChains
  import opened FileTable
  import opened FileAllocation
  import opened FileRuns
  import opened FileData
  import opened FileTransfer
  import opened DirectorySlots
  import opened FatDirectory
  import opened FileNames
  import opened DirectoryCreate

  // Byte v of the directory whose entries lie at `slots`.
  ghost function SlotByte(slots: seq<nat>, v: nat): Option<nat> {
    if v / DIRENT_SIZE < |slots| then Some(slots[v / DIRENT_SIZE] + v % DIRENT_SIZE) else None
  }

  // Read as a file, f is the directory whose entries lie at `slots`.
  ghost predicate Spells(g: Geometry, fat: seq<Word>, f: FileEntry, slots: seq<nat>)
    requires Walkable(g, fat, f)
  {
    forall v: nat :: LboAt(g, fat, f, v) == SlotByte(slots, v)
  }

  lemma {:induction false} ChainSpells(g: Geometry, c: seq<nat>, v: nat)
    requires g.Valid() && Clusters(g, c) && Clusters(g, c)
    ensures ChainWalk(g, c, v) == SlotByte(Slots(g, c), v)
    decreases |c|
  {
    hide Geometry.Valid;
    if c != [] {
      var n := g.bytesPerCluster / DIRENT_SIZE;
      assert g.bytesPerCluster == n * DIRENT_SIZE by { WholeDirents(g, 0); }
      RunAt(g.IndexToLbo(c[0]), n);
      if v >= g.bytesPerCluster {
        ChainSpells(g, c[1..], v - g.bytesPerCluster);
        assert v / DIRENT_SIZE == (v - g.bytesPerCluster) / DIRENT_SIZE + n;
        assert v % DIRENT_SIZE == (v - g.bytesPerCluster) % DIRENT_SIZE;
      }
    }
  }

  // The places of the entries of an open directory with chain c.
  ghost function FileSlots(g: Geometry, f: FileEntry, c: seq<nat>): seq<nat>
    requires Clusters(g, c)
  {
    if f.direntLbo == 0 then RootSlots(g) else Slots(g, c)
  }

  /** The places of a directory's entries are what the extent map finds for it, in the
      fixed root directory and in a chain of clusters. */
  lemma DirectorySpells(g: Geometry, fat: seq<Word>, f: FileEntry, c: seq<nat>)
    requires g.Valid() && Linked(g, fat) && FileChain(g, fat, f.dirent.firstCluster, c)
    requires f.direntLbo == 0 ==> c == []
    ensures Walkable(g, fat, f) && Clusters(g, c) && Spells(g, fat, f, FileSlots(g, f, c))
  {
    hide Geometry.Valid;
    if c != [] {
      EndOfChain(g, fat, c);
    }
    if f.direntLbo == 0 {
      RootSpells(g, fat, f);
    } else {
      forall v: nat
        ensures LboAt(g, fat, f, v) == SlotByte(Slots(g, c), v)
      {
        LboAtIsChainWalk(g, fat, f, c, v);
        ChainSpells(g, c, v);
      }
    }
  }

  lemma RootSpells(g: Geometry, fat: seq<Word>, f: FileEntry)
    requires g.Valid() && Linked(g, fat) && f.direntLbo == 0 && f.dirent.firstCluster == FAT_CLUSTER_AVAILABLE
    ensures Walkable(g, fat, f) && Spells(g, fat, f, RootSlots(g))
  {
    var n := g.rootSize / DIRENT_SIZE;
    assert g.rootSize == n * DIRENT_SIZE by { WholeDirents(g, 0); }
    RunAt(g.rootLbo, n);
  }

  // The next n entries lie one after the other from lbo on.
  ghost predicate Ahead(slots: seq<nat>, k: nat, n: nat, lbo: nat) {
    k + n <= |slots| && forall i :: 0 <= i < n ==> slots[k + i] == lbo + i * DIRENT_SIZE
  }

  lemma RunAhead(g: Geometry, fat: seq<Word>, f: FileEntry, slots: seq<nat>, k: nat, n: nat, lbo: nat)
    requires Walkable(g, fat, f) && Spells(g, fat, f, slots)
    requires Contiguous(g, fat, f, k * DIRENT_SIZE, n * DIRENT_SIZE, lbo)
    ensures n > 0 ==> Ahead(slots, k, n, lbo)
  {
    forall i: nat | i < n
      ensures k + i < |slots| && slots[k + i] == lbo + i * DIRENT_SIZE
    {
      EntryAhead(g, fat, f, slots, k, n, lbo, i);
    }
    if n > 0 {
      EntryAhead(g, fat, f, slots, k, n, lbo, n - 1);
    }
  }

  lemma EntryAhead(g: Geometry, fat: seq<Word>, f: FileEntry, slots: seq<nat>, k: nat, n: nat, lbo: nat, i: nat)
    requires Walkable(g, fat, f) && Spells(g, fat, f, slots) && i < n
    requires Contiguous(g, fat, f, k * DIRENT_SIZE, n * DIRENT_SIZE, lbo)
    ensures k + i < |slots| && slots[k + i] == lbo + i * DIRENT_SIZE
  {
    var u := (k + i) * DIRENT_SIZE;
    assert LboAt(g, fat, f, u) == Some(lbo + (u - k * DIRENT_SIZE)) && LboAt(g, fat, f, u) == SlotByte(slots, u);
  }

  lemma {:induction false} ListingSame(d: seq<Byte>, d': seq<Byte>, lbos: seq<nat>, k: nat, n: nat)
    requires Placed(d, lbos) && Placed(d', lbos) && |d'| == |d| && k <= |lbos|
    requires forall i :: 0 <= i < |lbos| ==> SameEntry(d, d', lbos[i])
    ensures Listing(d', lbos, k, n) == Listing(d, lbos, k, n)
    decreases |lbos| - k
  {
    if n > 0 && k < |lbos| {
      SameSlot(d, d', lbos[k]);
      ListingSame(d, d', lbos, k + 1, if Shown(d, lbos[k]) then n - 1 else n);
    }
  }

  // The listing from k on is `shown` followed by the listing from k' on.
  ghost predicate Listed(d: seq<Byte>, slots: seq<nat>, k: nat, n: nat, k': nat, shown: seq<seq<Byte>>)
    requires Placed(d, slots)
  {
    && k <= k' <= |slots| && |shown| <= n
    && var (rest, next) := Listing(d, slots, k', n - |shown|);
       Listing(d, slots, k, n) == (shown + rest, next)
  }

  lemma ListedStart(d: seq<Byte>, slots: seq<nat>, k: nat, n: nat)
    requires Placed(d, slots) && k <= |slots|
    ensures Listed(d, slots, k, n, k, [])
  {
    assert [] + Listing(d, slots, k, n).0 == Listing(d, slots, k, n).0;
  }

  lemma ListedMore(d: seq<Byte>, slots: seq<nat>, k: nat, n: nat, k1: nat, a: seq<seq<Byte>>, k2: nat,
          b: seq<seq<Byte>>)
    requires Placed(d, slots) && Listed(d, slots, k, n, k1, a) && Listed(d, slots, k1, n - |a|, k2, b)
    ensures Listed(d, slots, k, n, k2, a + b)
  {
    var rest := Listing(d, slots, k2, n - |a| - |b|).0;
    assert a + (b + rest) == a + b + rest;
  }

  lemma ListedStep(d: seq<Byte>, slots: seq<nat>, k: nat, n: nat, k1: nat, a: seq<seq<Byte>>)
    requires Placed(d, slots) && Listed(d, slots, k, n, k1, a) && k1 < |slots| && |a| < n
    requires d[slots[k1]] != FAT_DIRENT_NEVER_USED
    ensures Listed(d, slots, k, n, k1 + 1,
                   if Shown(d, slots[k1]) then a + [d[slots[k1]..slots[k1] + DIRENT_SIZE]] else a)
  {
    var l := slots[k1];
    var b := if Shown(d, l) then [d[l..l + DIRENT_SIZE]] else [];
    var rest := Listing(d, slots, k1 + 1, n - |a| - |b|).0;
    assert Listing(d, slots, k1, n - |a|).0 == b + rest;
    ListedMore(d, slots, k, n, k1, a, k1 + 1, b);
    assert a + [] == a;
  }

  lemma ListedEnd(d: seq<Byte>, slots: seq<nat>, k: nat, n: nat, k1: nat, a: seq<seq<Byte>>)
    requires Placed(d, slots) && Listed(d, slots, k, n, k1, a)
    requires |a| == n || k1 == |slots| || d[slots[k1]] == FAT_DIRENT_NEVER_USED
    ensures Listing(d, slots, k, n) == (a, k1)
  {
    assert a + [] == a;
  }

  // Show the entries of one read.
  method ListBlock(s: FatStore, m: RunMap, fileTable: array<FileEntry>, fileId: nat, lbo: nat, runDirCount: nat,
          wanted: nat, ghost slots: seq<nat>, ghost k: nat)
    returns (dirEntries: seq<ArcEntry>, ghost shown: seq<seq<Byte>>, passed: nat, eofDir: bool)
    requires s.Valid() && McbOk(s, m, fileTable) && fileId < fileTable.Length && Placed(s.disk, slots)
    requires Ahead(slots, k, runDirCount, lbo) && runDirCount > 0 && wanted > 0
    modifies fileTable
    ensures McbOk(s, m, fileTable) && |shown| <= passed <= runDirCount
    ensures Whole(shown) && dirEntries == Arcs(shown)
    ensures var f := old(fileTable[fileId]);
            fileTable[..] == old(fileTable[..])[fileId := f.(position := f.position + passed * DIRENT_SIZE)]
    ensures Listed(s.disk, slots, k, wanted, k + passed, shown)
    ensures eofDir ==> k + passed < |slots| && s.disk[slots[k + passed]] == FAT_DIRENT_NEVER_USED
    ensures !eofDir && |shown| < wanted ==> passed == runDirCount
  {
    hide FatStore.Valid, McbOk, Listed, Listing, FlagOn, Whole, Arcs, ToArc;
    NothingListed();
    assert slots[k + (runDirCount - 1)] == lbo + (runDirCount - 1) * DIRENT_SIZE;
    var block := s.DiskRead(lbo, runDirCount * DIRENT_SIZE);
    ListedStart(s.disk, slots, k, wanted);
    dirEntries, shown, passed := [], [], 0;
    assert fileTable[..][fileId := fileTable[fileId]] == fileTable[..];
    while passed < runDirCount && |dirEntries| < wanted
      invariant |shown| <= passed <= runDirCount && McbOk(s, m, fileTable)
      invariant Whole(shown) && dirEntries == Arcs(shown)
      invariant var f := old(fileTable[fileId]);
                fileTable[..] == old(fileTable[..])[fileId := f.(position := f.position + passed * DIRENT_SIZE)]
      invariant Listed(s.disk, slots, k, wanted, k + passed, shown) && |shown| <= wanted
    {
      var o := passed * DIRENT_SIZE;
      BlockPart(s.disk, lbo, runDirCount * DIRENT_SIZE, o);
      assert slots[k + passed] == lbo + o;
      if block[o] == FAT_DIRENT_NEVER_USED {
        return dirEntries, shown, passed, true;
      }
      SetPosition(s, m, fileTable, fileId, fileTable[fileId].position + DIRENT_SIZE);
      ListedStep(s.disk, slots, k, wanted, k + passed, shown);
      passed := passed + 1;
      if block[o] != FAT_DIRENT_DELETED && !FlagOn(block[o + 11], FAT_DIRENT_ATTR_VOLUME_ID) {
        var dirEntry := DirToArc(block[o..o + DIRENT_SIZE]);
        OneMore(shown, block[o..o + DIRENT_SIZE]);
        dirEntries := dirEntries + [dirEntry];
        shown := shown + [block[o..o + DIRENT_SIZE]];
      }
      ListedLength(s.disk, slots, k, wanted, k + passed, shown);
    }
    eofDir := false;
  }

  lemma NothingListed()
    ensures Whole([]) && Arcs([]) == []
  {
  }

  lemma OneMore(shown: seq<seq<Byte>>, entry: seq<Byte>)
    requires Whole(shown) && |entry| == DIRENT_SIZE
    ensures Whole(shown + [entry]) && Arcs(shown + [entry]) == Arcs(shown) + [ToArc(entry)]
  {
    hide ToArc;
  }

  lemma ListedLength(d: seq<Byte>, slots: seq<nat>, k: nat, n: nat, k1: nat, a: seq<seq<Byte>>)
    requires Placed(d, slots) && Listed(d, slots, k, n, k1, a)
    ensures |a| <= n && k1 <= |slots|
  {
  }

  lemma BlockPart(d: seq<Byte>, lbo: nat, n: nat, o: nat)
    requires lbo + n <= |d| && o + DIRENT_SIZE <= n
    ensures var b := d[lbo..lbo + n];
            b[o] == d[lbo + o] && b[o + 11] == d[lbo + o + 11]
                && b[o..o + DIRENT_SIZE] == d[lbo + o..lbo + o + DIRENT_SIZE]
  {
    var b := d[lbo..lbo + n];
    var x, y := b[o..o + DIRENT_SIZE], d[lbo + o..lbo + o + DIRENT_SIZE];
    assert forall i :: 0 <= i < DIRENT_SIZE ==> x[i] == y[i];
    assert x == y;
  }

  // A directory being listed: entry k comes next.
  ghost predicate Listable(s: FatStore, f: FileEntry, slots: seq<nat>, k: nat)
    reads s`Fat, s`disk
  {
    && s.g.Valid() && |s.disk| == s.g.deviceBytes && s.g.firstFat <= s.g.rootLbo
    && Walkable(s.g, s.Fat, f) && Spells(s.g, s.Fat, f, slots)
    && Placed(s.disk, slots) && (forall i :: 0 <= i < |slots| ==> OnGrid(s.g, slots[i]))
    && f.position == k * DIRENT_SIZE && k <= |slots|
  }

  lemma ListableMoved(s: FatStore, d0: seq<Byte>, f: FileEntry, f': FileEntry, slots: seq<nat>, k: nat)
    requires s.g.Valid() && |d0| == s.g.deviceBytes && s.g.firstFat <= s.g.rootLbo && Walkable(s.g, s.Fat, f)
        && Spells(s.g, s.Fat, f, slots)
    requires Placed(d0, slots) && (forall i :: 0 <= i < |slots| ==> OnGrid(s.g, slots[i])) && SameData(s.g, d0, s.disk)
    requires SameFile(f, f') && f'.position == k * DIRENT_SIZE && k <= |slots|
    ensures Listable(s, f', slots, k)
  {
    forall v: nat
      ensures LboAt(s.g, s.Fat, f', v) == SlotByte(slots, v)
    {
      assert LboAt(s.g, s.Fat, f, v) == SlotByte(slots, v);
    }
  }

  // Where entry k lies: found exactly when there is one.
  lemma EntryFound(s: FatStore, f: FileEntry, slots: seq<nat>, k: nat)
    requires Listable(s, f, slots, k)
    ensures f.position == k * DIRENT_SIZE && k <= |slots| && Walkable(s.g, s.Fat, f)
    ensures LboAt(s.g, s.Fat, f, f.position).Some? <==> k < |slots|
  {
    assert LboAt(s.g, s.Fat, f, f.position) == SlotByte(slots, f.position);
  }

  lemma EntriesAhead(s: FatStore, f: FileEntry, slots: seq<nat>, k: nat, byteCount: nat, lbo: nat)
    requires Listable(s, f, slots, k) && byteCount > 0 && (f.position + byteCount) % DIRENT_SIZE == 0
    requires Contiguous(s.g, s.Fat, f, f.position, byteCount, lbo)
    ensures byteCount % DIRENT_SIZE == 0 && Ahead(slots, k, byteCount / DIRENT_SIZE, lbo)
  {
    var n := byteCount / DIRENT_SIZE;
    assert byteCount == n * DIRENT_SIZE;
    RunAhead(s.g, s.Fat, f, slots, k, n, lbo);
  }

  lemma AheadSplit(slots: seq<nat>, k: nat, n: nat, lbo: nat, j: nat)
    requires Ahead(slots, k, n, lbo) && j <= n
    ensures Ahead(slots, k, j, lbo) && Ahead(slots, k + j, n - j, lbo + j * DIRENT_SIZE)
  {
    forall i | 0 <= i < n - j
      ensures slots[k + j + i] == lbo + j * DIRENT_SIZE + i * DIRENT_SIZE
    {
      assert slots[k + (j + i)] == lbo + (j + i) * DIRENT_SIZE;
    }
  }

  lemma ListedSame(g: Geometry, d: seq<Byte>, d': seq<Byte>, slots: seq<nat>, k: nat, n: nat, k': nat,
          a: seq<seq<Byte>>)
    requires SameData(g, d, d') && g.firstFat <= g.rootLbo && Placed(d, slots)
    requires forall i :: 0 <= i < |slots| ==> OnGrid(g, slots[i])
    ensures Placed(d', slots)
    ensures k <= |slots| && Listed(d', slots, k, n, k', a) ==> Listed(d, slots, k, n, k', a)
    ensures forall i :: 0 <= i < |slots| ==> d'[slots[i]] == d[slots[i]]
  {
    SameDataEntries(g, d, d', slots);
    forall i | 0 <= i < |slots|
      ensures d'[slots[i]] == d[slots[i]]
    {
      SameSlot(d, d', slots[i]);
    }
    if k <= |slots| && Listed(d', slots, k, n, k', a) {
      ListingSame(d, d', slots, k, n);
      ListingSame(d, d', slots, k', n - |a|);
    }
  }

  lemma ListableFacts(s: FatStore, f: FileEntry, slots: seq<nat>, k: nat)
    requires Listable(s, f, slots, k)
    ensures s.g.Valid() && |s.disk| == s.g.deviceBytes && s.g.firstFat <= s.g.rootLbo
    ensures Walkable(s.g, s.Fat, f) && Spells(s.g, s.Fat, f, slots) && Placed(s.disk, slots)
    ensures forall i :: 0 <= i < |slots| ==> OnGrid(s.g, slots[i])
    ensures k <= |slots| && f.position == k * DIRENT_SIZE
  {
  }

  // Look up where the next entries lie, unless the last run still has some.
  method NextRun(s: FatStore, m: RunMap, fileTable: array<FileEntry>, fileId: nat, lbo0: nat, count0: nat,
          ghost slots: seq<nat>, ghost k: nat)
    returns (found: bool, lbo: nat, count: nat)
    requires s.Valid() && McbOk(s, m, fileTable) && fileId < fileTable.Length
        && Listable(s, fileTable[fileId], slots, k)
    requires count0 % DIRENT_SIZE == 0 && Ahead(slots, k, count0 / DIRENT_SIZE, lbo0)
    modifies s`disk, s`cached, s`cachedFatVbo, s`cachedFatDirty, s.cachedFat, m, m.vbo, m.lbo
    ensures s.Valid() && McbOk(s, m, fileTable) && SameData(s.g, old(s.disk), s.disk)
    ensures m.fileId == fileId || (m.fileId == old(m.fileId) && m.inUse == old(m.inUse))
    ensures found <==> k < |slots|
    ensures found ==> count > 0 && count % DIRENT_SIZE == 0 && Ahead(slots, k, count / DIRENT_SIZE, lbo)
  {
    hide FatStore.Valid, Geometry.Valid, McbOk, Listable, SameData, Contiguous, LboAt, Spells, Walkable, Placed, OnGrid;
    SameDataStart(s);
    var f := fileTable[fileId];
    EntryFound(s, f, slots, k);
    if count0 > 0 {
      return true, lbo0, count0;
    }
    ListableFacts(s, f, slots, k);
    ghost var d0 := s.disk;
    var status;
    status, lbo, count := VboToLbo(s, m, fileTable, fileId, f.position);
    if status == EINVAL {
      return false, lbo, count;
    }
    ListableMoved(s, d0, f, f, slots, k);
    EntriesAhead(s, f, slots, k, count, lbo);
    return true, lbo, count;
  }

  // Show the entries of the next read from a run; d0 is the device when listing began.
  method ListRun(s: FatStore, m: RunMap, fileTable: array<FileEntry>, fileId: nat, lbo0: nat, count0: nat, wanted: nat,
          ghost slots: seq<nat>, ghost k: nat, ghost d0: seq<Byte>)
    returns (dirEntries: seq<ArcEntry>, ghost shown: seq<seq<Byte>>, ghost passed: nat, eofDir: bool, lbo: nat,
          count: nat)
    requires s.Valid() && McbOk(s, m, fileTable) && fileId < fileTable.Length && wanted > 0
    requires SameData(s.g, d0, s.disk) && s.g.firstFat <= s.g.rootLbo && Placed(d0, slots)
    requires forall i :: 0 <= i < |slots| ==> OnGrid(s.g, slots[i])
    requires count0 > 0 && count0 % DIRENT_SIZE == 0 && Ahead(slots, k, count0 / DIRENT_SIZE, lbo0)
    modifies fileTable
    ensures McbOk(s, m, fileTable) && |shown| <= wanted && k + passed <= |slots|
    ensures Whole(shown) && dirEntries == Arcs(shown)
    ensures var f := old(fileTable[fileId]);
            fileTable[..] == old(fileTable[..])[fileId := f.(position := f.position + passed * DIRENT_SIZE)]
    ensures Listed(d0, slots, k, wanted, k + passed, shown)
    ensures eofDir ==> k + passed < |slots| && d0[slots[k + passed]] == FAT_DIRENT_NEVER_USED
    ensures !eofDir ==> passed > 0
    ensures count % DIRENT_SIZE == 0 && Ahead(slots, k + passed, count / DIRENT_SIZE, lbo)
  {
    hide FatStore.Valid, Geometry.Valid, McbOk, Listed, Listing, SameData, OnGrid, Whole, Arcs;
    var n := count0 / DIRENT_SIZE;
    var runDirCount := Minimum(n, 16);
    AheadSplit(slots, k, n, lbo0, runDirCount);
    ListedSame(s.g, d0, s.disk, slots, k, wanted, k, []);
    var moved;
    dirEntries, shown, moved, eofDir := ListBlock(s, m, fileTable, fileId, lbo0, runDirCount, wanted, slots, k);
    passed := moved;
    ListedSame(s.g, d0, s.disk, slots, k, wanted, k + passed, shown);
    ListedLength(d0, slots, k, wanted, k + passed, shown);
    AheadSplit(slots, k, n, lbo0, passed);
    lbo := lbo0 + moved * DIRENT_SIZE;
    count := count0 - moved * DIRENT_SIZE;
    assert count / DIRENT_SIZE == n - passed;
  }

  /** The next numberDir entries of a directory: those before the end mark that are
      neither deleted nor volume labels, from where the last call stopped. */
  method GetDirectoryEntry(s: FatStore, m: RunMap, fileTable: array<FileEntry>, fileId: nat, numberDir: nat,
          ghost slots: seq<nat>, ghost k0: nat)
    returns (status: Status, dirEntries: seq<ArcEntry>)
    requires s.Valid() && McbOk(s, m, fileTable) && fileId < fileTable.Length
    requires IsDirectory(fileTable[fileId]) ==> Listable(s, fileTable[fileId], slots, k0)
    modifies s`disk, s`cached, s`cachedFatVbo, s`cachedFatDirty, s.cachedFat, m, m.vbo, m.lbo, fileTable
    ensures s.Valid() && McbOk(s, m, fileTable) && SameData(s.g, old(s.disk), s.disk)
    ensures m.fileId == fileId || (m.fileId == old(m.fileId) && m.inUse == old(m.inUse))
    ensures !IsDirectory(old(fileTable[fileId])) ==>
        status == EBADF && dirEntries == [] && fileTable[..] == old(fileTable[..])
    ensures IsDirectory(old(fileTable[fileId])) ==>
              && Placed(old(s.disk), slots) && k0 <= |slots|
              && var (entries, next) := Listing(old(s.disk), slots, k0, numberDir);
                && Whole(entries) && dirEntries == Arcs(entries)
                && status == (if entries == [] && numberDir > 0 then ENOTDIR else ESUCCESS)
                && fileTable[..] ==
                   old(fileTable[..])[fileId := old(fileTable[fileId]).(position := next * DIRENT_SIZE)]
  {
    hide FatStore.Valid, Geometry.Valid, McbOk, Listed, Listing, Listable, SameData, IsDirectory, Ahead, Contiguous,
        LboAt, Spells, Walkable, OnGrid, Whole, Arcs;
    NothingListed();
    ghost var shown: seq<seq<Byte>>;
    ghost var f0, d0, k, files := fileTable[fileId], s.disk, k0, fileTable[..];
    dirEntries, shown := [], [];
    SameDataStart(s);
    if !IsDirectory(fileTable[fileId]) {
      return EBADF, [];
    }
    ListableFacts(s, f0, slots, k0);
    ListedStart(d0, slots, k0, numberDir);
    assert files[fileId := f0] == files;
    if numberDir == 0 {
      ListedEnd(d0, slots, k0, 0, k0, []);
      return ESUCCESS, [];
    }
    var runByteCount: nat, lbo: nat, eofDir := 0, 0, false;
    AheadNone(slots, k0, lbo);
    while !eofDir && |dirEntries| < numberDir
      invariant Whole(shown) && dirEntries == Arcs(shown)
      invariant s.Valid() && McbOk(s, m, fileTable) && SameData(s.g, d0, s.disk)
      invariant m.fileId == fileId || (m.fileId == old(m.fileId) && m.inUse == old(m.inUse))
      invariant k <= |slots| && Listed(d0, slots, k0, numberDir, k, shown) && |shown| <= numberDir
      invariant fileTable[..] == files[fileId := f0.(position := k * DIRENT_SIZE)]
      invariant runByteCount % DIRENT_SIZE == 0 && Ahead(slots, k, runByteCount / DIRENT_SIZE, lbo)
      invariant eofDir ==> k < |slots| && d0[slots[k]] == FAT_DIRENT_NEVER_USED
      decreases |slots| - k, !eofDir
    {
      ListableMoved(s, d0, f0, fileTable[fileId], slots, k);
      ghost var d1 := s.disk;
      var found;
      found, lbo, runByteCount := NextRun(s, m, fileTable, fileId, lbo, runByteCount, slots, k);
      SameDataTrans(s.g, d0, d1, s.disk);
      if !found {
        break;
      }
      ghost var passed, shownNow;
      var more;
      more, shownNow, passed, eofDir, lbo, runByteCount :=
        ListRun(s, m, fileTable, fileId, lbo, runByteCount, numberDir - |dirEntries|, slots, k, d0);
      ListedMore(d0, slots, k0, numberDir, k, shown, k + passed, shownNow);
      ArcsAppend(shown, shownNow);
      k, shown, dirEntries := k + passed, shown + shownNow, dirEntries + more;
    }
    ListedEnd(d0, slots, k0, numberDir, k, shown);
    return if dirEntries != [] then ESUCCESS else ENOTDIR, dirEntries;
  }

  lemma AheadNone(slots: seq<nat>, k: nat, lbo: nat)
    requires k <= |slots|
    ensures Ahead(slots, k, 0, lbo)
  {
  }
}
