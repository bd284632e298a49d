/** Searching a directory, adding an entry to it, and listing it. */
module FatDirectory {
  import opened FatFormat
  import opened FatStore
  import opened FatChains
  import opened FatAllocation
  import opened FileTable
  import opened FileAllocation
  import opened FileRuns
  import opened DirectorySlots
  import Arith

  const DIRENTS_PER_READ := 16

  datatype Outcome = Found(lbo: nat) | EndMark | Exhausted

  // The chain of a directory; the root directory, started by zero, has none.
  ghost predicate DirChain(s: FatStore, start: Word, c: seq<nat>)
    reads s`Fat
  {
    |s.Fat| == s.g.clusters + 2 && FileChain(s.g, s.Fat, start, c)
  }

  ghost function DirSlots(g: Geometry, start: Word, c: seq<nat>): seq<nat>
    requires forall k :: 0 <= k < |c| ==> g.InRange(c[k])
  {
    if start == FAT_CLUSTER_AVAILABLE then RootSlots(g) else Slots(g, c)
  }

  // One read's worth of entries.
  method SearchBlock(s: FatStore, lbo: nat, name: seq<Byte>, root: bool, ghost rest: seq<nat>)
    returns (outcome: Outcome)
    requires lbo + DIRENTS_PER_READ * DIRENT_SIZE <= |s.disk| && Placed(s.disk, rest)
    ensures Placed(s.disk, Run(lbo, DIRENTS_PER_READ) + rest)
    ensures var f := Find(s.disk, Run(lbo, DIRENTS_PER_READ) + rest, name, root);
            match outcome
            case Found(l) => f == Some(l)
            case EndMark => f.None?
            case Exhausted => f == Find(s.disk, rest, name, root)
  {
    hide Run, Find, FlagOn;
    var buffer := s.DiskRead(lbo, DIRENTS_PER_READ * DIRENT_SIZE);
    RunPlaced(s.disk, lbo, DIRENTS_PER_READ, rest);
    for i := 0 to DIRENTS_PER_READ
      invariant Placed(s.disk, Run(lbo + i * DIRENT_SIZE, DIRENTS_PER_READ - i) + rest)
      invariant Find(s.disk, Run(lbo, DIRENTS_PER_READ) + rest, name, root)
                == Find(s.disk, Run(lbo + i * DIRENT_SIZE, DIRENTS_PER_READ - i) + rest, name, root)
    {
      var o := i * DIRENT_SIZE;
      RunStep(s.disk, lbo + o, DIRENTS_PER_READ - i, rest, name, root);
      BlockEntry(s.disk, lbo, o);
      if (root ==> !FlagOn(buffer[o + 11], FAT_DIRENT_ATTR_VOLUME_ID)) && buffer[o..o + 11] == name {
        return Found(lbo + o);
      }
      if buffer[o] == FAT_DIRENT_NEVER_USED {
        return EndMark;
      }
    }
    RunEmpty(lbo + DIRENTS_PER_READ * DIRENT_SIZE, rest);
    return Exhausted;
  }

  lemma BlockEntry(d: seq<Byte>, lbo: nat, o: nat)
    requires o + DIRENT_SIZE <= DIRENTS_PER_READ * DIRENT_SIZE && lbo + DIRENTS_PER_READ * DIRENT_SIZE <= |d|
    ensures var b := d[lbo..lbo + DIRENTS_PER_READ * DIRENT_SIZE];
            b[o] == d[lbo + o] && b[o + 11] == d[lbo + o + 11] && b[o..o + 11] == d[lbo + o..lbo + o + 11]
  {
    var b := d[lbo..lbo + DIRENTS_PER_READ * DIRENT_SIZE];
    var x, y := b[o..o + 11], d[lbo + o..lbo + o + 11];
    assert forall k :: 0 <= k < 11 ==> x[k] == y[k];
    assert x == y;
  }

  lemma {:induction false} RunPlaced(d: seq<Byte>, lbo: nat, n: nat, rest: seq<nat>)
    requires lbo + n * DIRENT_SIZE <= |d| && Placed(d, rest)
    ensures Placed(d, Run(lbo, n)) && Placed(d, Run(lbo, n) + rest)
    decreases n
  {
    if n > 0 {
      RunPlaced(d, lbo + DIRENT_SIZE, n - 1, rest);
    }
  }

  lemma RunStep(d: seq<Byte>, lbo: nat, n: nat, rest: seq<nat>, name: seq<Byte>, root: bool)
    requires n > 0 && Placed(d, Run(lbo, n) + rest)
    ensures lbo + DIRENT_SIZE <= |d| && Placed(d, Run(lbo + DIRENT_SIZE, n - 1) + rest)
    ensures Find(d, Run(lbo, n) + rest, name, root) ==
            if Matches(d, lbo, name, root) then Some(lbo)
            else if d[lbo] == FAT_DIRENT_NEVER_USED then None
            else Find(d, Run(lbo + DIRENT_SIZE, n - 1) + rest, name, root)
  {
    var all, tail := Run(lbo, n) + rest, Run(lbo + DIRENT_SIZE, n - 1) + rest;
    assert all == [lbo] + tail;
    assert all[0] == lbo && all[1..] == tail;
  }

  lemma RunEmpty(lbo: nat, rest: seq<nat>)
    ensures Run(lbo, 0) + rest == rest
  {
  }

  lemma {:induction false} RunSplit(lbo: nat, n: nat, k: nat)
    requires k <= n
    ensures Run(lbo, n) == Run(lbo, k) + Run(lbo + k * DIRENT_SIZE, n - k)
    decreases k
  {
    if k > 0 {
      RunSplit(lbo + DIRENT_SIZE, n - 1, k - 1);
    }
  }

  lemma BlockStep(d: seq<Byte>, lbo: nat, size: nat, rest: seq<nat>)
    requires size >= 512 && size % 512 == 0 && lbo + size <= |d| && Placed(d, rest)
    ensures var later := Run(lbo + 512, (size - 512) / DIRENT_SIZE) + rest;
            Placed(d, later) && Run(lbo, size / DIRENT_SIZE) + rest == Run(lbo, DIRENTS_PER_READ) + later
  {
    hide Run;
    var n := (size - 512) / DIRENT_SIZE;
    assert size / DIRENT_SIZE == n + DIRENTS_PER_READ;
    RunSplit(lbo, n + DIRENTS_PER_READ, DIRENTS_PER_READ);
    RunPlaced(d, lbo + 512, n, rest);
    var a, b := Run(lbo, DIRENTS_PER_READ), Run(lbo + 512, n);
    assert a + b + rest == a + (b + rest);
  }

  // The block at vbo, and what is left after it.
  lemma NextBlock(d: seq<Byte>, lbo: nat, size: nat, vbo: nat, rest: seq<nat>) returns (later: seq<nat>)
    requires vbo < size && vbo % 512 == 0 && size % 512 == 0 && lbo + size <= |d| && Placed(d, rest)
    ensures vbo + 512 <= size && (vbo + 512) % 512 == 0 && Placed(d, later)
    ensures later == Run(lbo + (vbo + 512), (size - (vbo + 512)) / DIRENT_SIZE) + rest
    ensures Run(lbo + vbo, (size - vbo) / DIRENT_SIZE) + rest == Run(lbo + vbo, DIRENTS_PER_READ) + later
  {
    hide Run, Placed;
    WholeStep(vbo, size);
    BlockStep(d, lbo + vbo, size - vbo, rest);
    later := Run(lbo + vbo + 512, (size - vbo - 512) / DIRENT_SIZE) + rest;
  }

  // `size` bytes of entries, read a block at a time.
  method SearchRun(s: FatStore, lbo: nat, size: nat, name: seq<Byte>, root: bool, ghost rest: seq<nat>)
    returns (outcome: Outcome)
    requires size % 512 == 0 && lbo + size <= |s.disk| && Placed(s.disk, rest)
    ensures Placed(s.disk, Run(lbo, size / DIRENT_SIZE) + rest)
    ensures var f := Find(s.disk, Run(lbo, size / DIRENT_SIZE) + rest, name, root);
            match outcome
            case Found(l) => f == Some(l)
            case EndMark => f.None?
            case Exhausted => f == Find(s.disk, rest, name, root)
  {
    hide Run, Find, Placed;
    var vbo := 0;
    RunPlaced(s.disk, lbo, size / DIRENT_SIZE, rest);
    ghost var all := Run(lbo, size / DIRENT_SIZE) + rest;
    ghost var left := all;
    while vbo < size
      invariant vbo <= size && vbo % 512 == 0
      invariant left == Run(lbo + vbo, (size - vbo) / DIRENT_SIZE) + rest && Placed(s.disk, left)
      invariant Find(s.disk, all, name, root) == Find(s.disk, left, name, root)
    {
      left := NextBlock(s.disk, lbo, size, vbo, rest);
      outcome := SearchBlock(s, lbo + vbo, name, root, left);
      if !outcome.Exhausted? {
        return;
      }
      vbo := vbo + DIRENTS_PER_READ * DIRENT_SIZE;
    }
    RunEmpty(lbo + size, rest);
    return Exhausted;
  }

  // Every entry lies a whole number of entries after the start of the root directory.
  predicate OnGrid(g: Geometry, l: nat) {
    l >= g.rootLbo && (l - g.rootLbo) % DIRENT_SIZE == 0
  }

  // The entries of a directory chain all lie in the file area.
  lemma {:induction false} SlotsPlaced(g: Geometry, c: seq<nat>, d: seq<Byte>)
    requires g.Valid() && |d| == g.deviceBytes && forall k :: 0 <= k < |c| ==> g.InRange(c[k])
    ensures Placed(d, Slots(g, c)) && forall i :: 0 <= i < |Slots(g, c)| ==> OnGrid(g, Slots(g, c)[i])
    decreases |c|
  {
    if c != [] {
      SlotsPlaced(g, c[1..], d);
      RunInCluster(g, c[0], d);
    }
  }

  lemma RunInCluster(g: Geometry, e: nat, d: seq<Byte>)
    requires g.Valid() && |d| == g.deviceBytes && g.InRange(e)
    ensures g.bytesPerCluster % 512 == 0 && g.IndexToLbo(e) + g.bytesPerCluster <= |d| && OnGrid(g, g.IndexToLbo(e))
    ensures Placed(d, ClusterSlots(g, e)) && forall i :: 0 <= i < |ClusterSlots(g, e)| ==>
        OnGrid(g, ClusterSlots(g, e)[i])
  {
    ClusterFits(g, e);
    ClusterOnGrid(g, e);
    RunOnGrid(g, g.IndexToLbo(e), g.bytesPerCluster / DIRENT_SIZE);
    RunPlaced(d, g.IndexToLbo(e), g.bytesPerCluster / DIRENT_SIZE, []);
    Arith.Mod512(g.bytesPerCluster);
  }

  lemma ClusterOnGrid(g: Geometry, e: nat)
    requires g.Valid() && g.InRange(e)
    ensures OnGrid(g, g.IndexToLbo(e))
  {
    hide Arith.Times;
    Arith.Mod512(g.rootSize);
    Arith.Mod512(g.bytesPerCluster);
    Arith.TimesWhole(e - 2, g.bytesPerCluster);
    SumWhole(Arith.Times(e - 2, g.bytesPerCluster), g.rootSize);
  }

  lemma SumWhole(a: nat, b: nat)
    requires a % DIRENT_SIZE == 0 && b % DIRENT_SIZE == 0
    ensures (a + b) % DIRENT_SIZE == 0
  {
    assert a + b == DIRENT_SIZE * (a / DIRENT_SIZE + b / DIRENT_SIZE);
  }

  lemma {:induction false} RunOnGrid(g: Geometry, lbo: nat, n: nat)
    requires OnGrid(g, lbo)
    ensures forall i :: 0 <= i < n ==> OnGrid(g, Run(lbo, n)[i])
    decreases n
  {
    if n > 0 {
      RunOnGrid(g, lbo + DIRENT_SIZE, n - 1);
    }
  }

  lemma RootPlaced(g: Geometry, d: seq<Byte>)
    requires g.Valid() && |d| == g.deviceBytes
    ensures g.rootSize % 512 == 0 && g.rootLbo + g.rootSize <= |d|
    ensures Placed(d, RootSlots(g)) && forall i :: 0 <= i < |RootSlots(g)| ==> OnGrid(g, RootSlots(g)[i])
  {
    RunOnGrid(g, g.rootLbo, g.rootSize / DIRENT_SIZE);
    RunPlaced(d, g.rootLbo, g.rootSize / DIRENT_SIZE, []);
    Arith.Mod512(g.rootSize);
  }

  lemma DirFacts(s: FatStore, start: Word, c: seq<nat>)
    requires s.Valid() && DirChain(s, start, c)
    ensures s.g.Valid() && |s.disk| == s.g.deviceBytes
    ensures forall k :: 0 <= k < |c| ==> s.g.InRange(c[k])
    ensures Placed(s.disk, DirSlots(s.g, start, c))
    ensures forall i :: 0 <= i < |DirSlots(s.g, start, c)| ==> OnGrid(s.g, DirSlots(s.g, start, c)[i])
    ensures start == FAT_CLUSTER_AVAILABLE <==> c == []
  {
    if c != [] {
      EndOfChain(s.g, s.Fat, c);
    }
    SlotsPlaced(s.g, c, s.disk);
    RootPlaced(s.g, s.disk);
  }

  // Changes confined to the FAT copies do not touch any entry.
  lemma SameDataEntries(g: Geometry, d: seq<Byte>, d': seq<Byte>, lbos: seq<nat>)
    requires SameData(g, d, d') && g.rootLbo >= g.firstFat && Placed(d, lbos)
    requires forall i :: 0 <= i < |lbos| ==> OnGrid(g, lbos[i])
    ensures Placed(d', lbos) && |d'| == |d| && forall i :: 0 <= i < |lbos| ==> SameEntry(d, d', lbos[i])
  {
    forall i | 0 <= i < |lbos|
      ensures SameEntry(d, d', lbos[i])
    {
      var l := lbos[i];
      assert d'[l..l + DIRENT_SIZE] == d[l..l + DIRENT_SIZE];
    }
  }

  lemma RootRun(g: Geometry)
    ensures Run(g.rootLbo, g.rootSize / DIRENT_SIZE) + [] == RootSlots(g)
  {
  }

  // The clusters from the i-th on, and what searching them means on either device.
  lemma SlotsFrom(g: Geometry, c: seq<nat>, i: nat, d: seq<Byte>, d': seq<Byte>, name: seq<Byte>)
    requires g.Valid() && |d| == |d'| == g.deviceBytes && SameData(g, d, d') && i <= |c|
    requires forall k :: 0 <= k < |c| ==> g.InRange(c[k])
    ensures g.rootLbo >= g.firstFat
    ensures Placed(d, Slots(g, c[i..])) && Placed(d', Slots(g, c[i..]))
    ensures Find(d', Slots(g, c[i..]), name, false) == Find(d, Slots(g, c[i..]), name, false)
    ensures i < |c| ==> Slots(g, c[i..]) == ClusterSlots(g, c[i]) + Slots(g, c[i + 1..])
    ensures i == |c| ==> Slots(g, c[i..]) == []
  {
    CopyFits(g, 0, g.fats);
    SlotsPlaced(g, c[i..], d);
    SlotsPlaced(g, c[i..], d');
    SameDataEntries(g, d, d', Slots(g, c[i..]));
    FindSame(d, d', Slots(g, c[i..]), name, false);
    if i < |c| {
      assert c[i..][1..] == c[i + 1..];
    }
  }

  lemma FindEmpty(d: seq<Byte>, name: seq<Byte>, root: bool)
    ensures Find(d, [], name, root).None?
  {
  }

  // An entry found lies in the data area, untouched by the search.
  lemma FoundEntry(g: Geometry, d: seq<Byte>, d': seq<Byte>, lbos: seq<nat>, name: seq<Byte>, root: bool)
    requires g.Valid() && SameData(g, d, d') && Placed(d, lbos) && Find(d, lbos, name, root).Some?
    requires forall i :: 0 <= i < |lbos| ==> OnGrid(g, lbos[i])
    ensures var l := Find(d, lbos, name, root).value; l in lbos && l + DIRENT_SIZE <= |d'| && SameEntry(d, d', l)
  {
    CopyFits(g, 0, g.fats);
    FindPlace(d, lbos, name, root);
    SameDataEntries(g, d, d', lbos);
  }

  method SearchChain(s: FatStore, start: Word, fileName: seq<Byte>, ghost c: seq<nat>) returns (outcome: Outcome)
    requires s.Valid() && Linked(s.g, s.Fat) && DirChain(s, start, c)
    modifies s`disk, s`cached, s`cachedFatVbo, s`cachedFatDirty, s.cachedFat
    ensures s.Valid() && SameData(s.g, old(s.disk), s.disk)
    ensures s.g.Valid() && (forall k :: 0 <= k < |c| ==> s.g.InRange(c[k])) && Placed(old(s.disk), Slots(s.g, c))
    ensures Find(old(s.disk), Slots(s.g, c), fileName, false) == if outcome.Found? then Some(outcome.lbo) else None
  {
    hide FatStore.Valid, Geometry.Valid, SameData, Find, Chain, Slots, Run;
    DirFacts(s, start, c);
    SameDataStart(s);
    ghost var d0, i := s.disk, 0;
    var fatEntry := start;
    var bytesPerCluster := s.g.bytesPerCluster;
    SlotsFrom(s.g, c, 0, d0, s.disk, fileName);
    assert c[0..] == c;
    ChainEntry(s, start, c, 0);
    while s.g.IsNext(fatEntry)
      invariant i <= |c| && s.Valid() && SameData(s.g, d0, s.disk) && |s.disk| == s.g.deviceBytes
      invariant if i < |c| then fatEntry == c[i] && s.g.InRange(fatEntry)
          && s.g.IsNext(fatEntry) else !s.g.IsNext(fatEntry)
      invariant Placed(d0, Slots(s.g, c[i..]))
      invariant Find(d0, Slots(s.g, c), fileName, false) == Find(d0, Slots(s.g, c[i..]), fileName, false)
      decreases |c| - i
    {
      SlotsFrom(s.g, c, i, d0, s.disk, fileName);
      SlotsFrom(s.g, c, i + 1, d0, s.disk, fileName);
      RunInCluster(s.g, fatEntry, s.disk);
      outcome := SearchRun(s, s.g.IndexToLbo(fatEntry), bytesPerCluster, fileName, false, Slots(s.g, c[i + 1..]));
      if !outcome.Exhausted? {
        return;
      }
      ghost var d1 := s.disk;
      ChainEntry(s, start, c, i + 1);
      fatEntry := s.LookupFatEntry(fatEntry);
      SameDataTrans(s.g, d0, d1, s.disk);
      StoreFacts(s);
      i := i + 1;
    }
    SlotsFrom(s.g, c, |c|, d0, s.disk, fileName);
    FindEmpty(d0, fileName, false);
    return Exhausted;
  }

  /** Searching a directory: exactly the entry that scanning its places finds. */
  method SearchForDirent(s: FatStore, start: Word, fileName: seq<Byte>, ghost c: seq<nat>)
    returns (status: Status, dirent: Option<Dirent>, lbo: nat)
    requires s.Valid() && Linked(s.g, s.Fat) && DirChain(s, start, c) && |fileName| == 11
    modifies s`disk, s`cached, s`cachedFatVbo, s`cachedFatDirty, s.cachedFat
    ensures s.Valid() && SameData(s.g, old(s.disk), s.disk)
    ensures s.g.Valid() && (forall k :: 0 <= k < |c| ==> s.g.InRange(c[k]))
        && Placed(old(s.disk), DirSlots(s.g, start, c))
    ensures match Find(old(s.disk), DirSlots(s.g, start, c), fileName, start == FAT_CLUSTER_AVAILABLE)
            case Some(l) => status == ESUCCESS && lbo == l && l + DIRENT_SIZE <= |s.disk|
                            && dirent == Some(Decode(s.disk[l..l + DIRENT_SIZE]))
                            && EntryAt(s.disk, l, dirent.value)
            case None => status == ENOENT && dirent.None?
  {
    hide FatStore.Valid, Geometry.Valid, SameData, Find, Chain, Slots, RootSlots, Run, EntryAt, Decode;
    DirFacts(s, start, c);
    SameDataStart(s);
    ghost var d0 := s.disk;
    var outcome;
    if start == FAT_CLUSTER_AVAILABLE {
      RootPlaced(s.g, s.disk);
      outcome := SearchRun(s, s.g.rootLbo, s.g.rootSize, fileName, true, []);
      RootRun(s.g);
      FindEmpty(d0, fileName, true);
    } else {
      outcome := SearchChain(s, start, fileName, c);
    }
    if outcome.Found? {
      lbo := outcome.lbo;
      FoundEntry(s.g, d0, s.disk, DirSlots(s.g, start, c), fileName, start == FAT_CLUSTER_AVAILABLE);
      var entry := s.DiskRead(lbo, DIRENT_SIZE);
      DecodedAt(s.disk, lbo);
      return ESUCCESS, Some(Decode(entry)), lbo;
    }
    return ENOENT, None, 0;
  }
}
