/** Adding an entry to a directory, and what searches find afterwards. */
module DirectoryCreate {
  import opened FatFormat
  import opened FatStore
  import opened FatChains
  import opened FatAllocation
  import opened FileTable
  import opened FileAllocation
  import opened FileRuns
  import opened FileData
  import opened DirectorySlots
  import opened FatDirectory
  import Arith

  /** What adding an entry does: it takes the first free place of the directory; a
      full root directory is left alone; another full directory gains a zeroed cluster,
      whose first place the entry takes, or is left alone when no cluster is found. */
  ghost predicate CreateOutcome(g: Geometry, fat: seq<Word>, fat': seq<Word>, d: seq<Byte>, d': seq<Byte>, start: Word,
          c: seq<nat>, dirent: Dirent, status: Status, lbo: nat, taken: seq<nat>)
    requires g.Valid() && |fat| == g.clusters + 2 && |d| == g.deviceBytes && FileChain(g, fat, start, c)
    requires Clusters(g, c) && Placed(d, DirSlots(g, start, c)) && 2 <= Hint(c) < 0x1_0000
  {
    var scan := FreeInScan(g, fat, Hint(c));
    match FirstFree(d, DirSlots(g, start, c))
    case Some(l) =>
      && status == ESUCCESS && lbo == l && taken == [] && fat' == fat
      && Updated(g, d, d', [], lbo, Encode(dirent))
    case None =>
      if c == [] then
        status == ENOSPC && taken == [] && fat' == fat && SameData(g, d, d')
      else if scan != [] then
        && status == ESUCCESS && taken == scan[..1] && Clusters(g, taken) && lbo == g.IndexToLbo(taken[0])
        && Grown(g, fat, fat', c, taken)
        && Updated(g, d, d', taken, lbo, Encode(dirent))
      else
        status == ENOSPC && Allocated(g, fat, fat', taken) && Zeroed(g, d, d', taken)
  }

  // Put the entry in the first free place of `size` bytes of entries.
  method PlaceInRun(s: FatStore, lbo: nat, size: nat, dirent: Dirent) returns (place: Option<nat>)
    requires s.Valid() && s.g.rootLbo <= lbo && size % DIRENT_SIZE == 0 && lbo + size <= |s.disk|
    modifies s`disk
    ensures s.Valid() && Placed(old(s.disk), Run(lbo, size / DIRENT_SIZE))
    ensures place == FirstFree(old(s.disk), Run(lbo, size / DIRENT_SIZE))
    ensures match place
            case None => s.disk == old(s.disk)
            case Some(l) =>
              && lbo <= l && l + DIRENT_SIZE <= lbo + size
              && s.disk == Splice(old(s.disk), l, Encode(dirent)) && EntryAt(s.disk, l, dirent)
  {
    hide FatStore.Valid, Run, FirstFree, Encode, EntryAt;
    var vbo := 0;
    RunPlaced(s.disk, lbo, size / DIRENT_SIZE, []);
    while vbo < size
      invariant vbo <= size && vbo % DIRENT_SIZE == 0 && s.Valid() && s.disk == old(s.disk)
      invariant Placed(s.disk, Run(lbo + vbo, (size - vbo) / DIRENT_SIZE))
      invariant FirstFree(s.disk, Run(lbo, size / DIRENT_SIZE))
          == FirstFree(s.disk, Run(lbo + vbo, (size - vbo) / DIRENT_SIZE))
    {
      EntryStep(vbo, size);
      FreeStep(s.disk, lbo + vbo, (size - vbo) / DIRENT_SIZE);
      var entry := s.DiskRead(lbo + vbo, DIRENT_SIZE);
      if entry[0] == FAT_DIRENT_DELETED || entry[0] == FAT_DIRENT_NEVER_USED {
        s.DiskWrite(lbo + vbo, Encode(dirent));
        EncodedAt(s.disk, lbo + vbo, dirent);
        return Some(lbo + vbo);
      }
      vbo := vbo + DIRENT_SIZE;
    }
    NoneFree(s.disk, lbo + vbo);
    return None;
  }

  lemma EntryStep(vbo: nat, size: nat)
    requires vbo < size && vbo % DIRENT_SIZE == 0 && size % DIRENT_SIZE == 0
    ensures vbo + DIRENT_SIZE <= size && (size - vbo) / DIRENT_SIZE > 0
    ensures (size - (vbo + DIRENT_SIZE)) / DIRENT_SIZE == (size - vbo) / DIRENT_SIZE - 1
  {
  }

  lemma FreeStep(d: seq<Byte>, lbo: nat, n: nat)
    requires n > 0 && Placed(d, Run(lbo, n))
    ensures lbo + DIRENT_SIZE <= |d| && Placed(d, Run(lbo + DIRENT_SIZE, n - 1))
    ensures FirstFree(d, Run(lbo, n)) == if IsFreeSlot(d, lbo) then Some(lbo)
        else FirstFree(d, Run(lbo + DIRENT_SIZE, n - 1))
  {
    assert Run(lbo, n)[0] == lbo && Run(lbo, n)[1..] == Run(lbo + DIRENT_SIZE, n - 1);
  }

  lemma NoneFree(d: seq<Byte>, lbo: nat)
    ensures FirstFree(d, Run(lbo, 0)).None?
  {
  }

  // Go on to the next cluster, adding one to the chain at its end.
  method NextCluster(s: FatStore, start: Word, fatEntry: Word, ghost c: seq<nat>, ghost i: nat)
    returns (status: Status, next: Word, ghost taken: seq<nat>)
    requires s.Valid() && Linked(s.g, s.Fat) && DirChain(s, start, c) && i < |c| && fatEntry == c[i]
    modifies s, s.cachedFat
    ensures s.Valid() && Linked(s.g, s.Fat)
    ensures s.g.Valid() && s.g.clusters >= 1 && s.g.bytesPerCluster > 0 && 2 <= Hint(c) < 0x1_0000
        && |old(s.Fat)| == s.g.clusters + 2
    ensures i + 1 < |c| ==> status == ESUCCESS && next == c[i + 1] && taken == [] && s.Fat == old(s.Fat)
                            && SameData(s.g, old(s.disk), s.disk)
    ensures i + 1 == |c| ==>
              var scan := FreeInScan(s.g, old(s.Fat), Hint(c));
              if scan != [] then
                && status == ESUCCESS && taken == scan[..1] && next == taken[0] && s.g.InRange(next)
                && Grown(s.g, old(s.Fat), s.Fat, c, taken) && Zeroed(s.g, old(s.disk), s.disk, taken)
              else
                status == ENOSPC && Allocated(s.g, old(s.Fat), s.Fat, taken) && Zeroed(s.g, old(s.disk), s.disk, taken)
  {
    hide FatStore.Valid, Geometry.Valid, Linked, Chain, Allocated, Zeroed, SameData, Grown, FreeInScan;
    ChainEntry(s, start, c, i + 1);
    ChainStart(s, start, c);
    taken := [];
    next := s.LookupFatEntry(fatEntry);
    if !s.g.IsNext(next) {
      ghost var fat0, disk1 := s.Fat, s.disk;
      assert fatEntry == Hint(c);
      status, next, taken := AllocateClusters(s, 1, fatEntry);
      ZeroedSince(s.g, old(s.disk), disk1, s.disk, taken);
      AllocatedLinked(s.g, fat0, s.Fat, taken);
      if status != ESUCCESS {
        return;
      }
      ghost var mid, disk2 := s.Fat, s.disk;
      GrownByLink(s.g, fat0, mid, c, taken);
      s.SetFatEntry(fatEntry, next);
      ZeroedThenSame(s.g, old(s.disk), disk2, s.disk, taken);
      GrownLinked(s.g, fat0, s.Fat, c, taken);
    }
    return ESUCCESS, next, taken;
  }

  lemma ChainStart(s: FatStore, start: Word, c: seq<nat>)
    requires s.Valid() && DirChain(s, start, c)
    ensures s.g.Valid() && s.g.clusters >= 1 && s.g.bytesPerCluster > 0 && |s.Fat| == s.g.clusters + 2
    ensures 2 <= Hint(c) < 0x1_0000 && Hint(c) < |s.Fat|
    ensures c != [] ==> Chain(s.g, s.Fat, c) && s.g.InRange(Hint(c))
    ensures Clusters(s.g, c)
  {
    if c != [] {
      InRangeIsNext(s.g, Hint(c));
    }
  }

  // The first free place from the i-th cluster on, on a device that differs in the FAT copies only.
  lemma FreeFromCluster(g: Geometry, c: seq<nat>, i: nat, d: seq<Byte>, d': seq<Byte>)
    requires g.Valid() && |d| == g.deviceBytes && SameData(g, d, d') && i < |c| && Clusters(g, c)
    ensures Placed(d, Slots(g, c[i..])) && Placed(d, Slots(g, c[i + 1..]))
    ensures Placed(d', ClusterSlots(g, c[i]))
    ensures FirstFree(d, Slots(g, c[i..])) ==
            var here := FirstFree(d', ClusterSlots(g, c[i]));
            if here.Some? then here else FirstFree(d, Slots(g, c[i + 1..]))
  {
    hide Geometry.Valid, FirstFree, Run, OnGrid, SameData, SameEntry;
    RunInCluster(g, c[i], d);
    SlotsPlaced(g, c[i + 1..], d);
    Copies(g);
    SameDataEntries(g, d, d', ClusterSlots(g, c[i]));
    FindSame(d, d', ClusterSlots(g, c[i]), [], false);
    FirstFreeAppend(d, ClusterSlots(g, c[i]), Slots(g, c[i + 1..]));
    assert c[i..][1..] == c[i + 1..];
  }

  lemma Copies(g: Geometry)
    requires g.Valid()
    ensures g.firstFat <= g.rootLbo && g.bytesPerCluster > 0
  {
    CopyFits(g, 0, g.fats);
  }

  // The entries of a zeroed cluster are free.
  lemma ZeroedIsFree(g: Geometry, d: seq<Byte>, d': seq<Byte>, e: nat)
    requires g.Valid() && g.bytesPerCluster > 0 && |d| == g.deviceBytes && g.InRange(e) && Zeroed(g, d, d', [e])
    ensures Placed(d', ClusterSlots(g, e)) && FirstFree(d', ClusterSlots(g, e)) == Some(g.IndexToLbo(e))
    ensures forall i :: 0 <= i < |ClusterSlots(g, e)| ==> d'[ClusterSlots(g, e)[i]] == 0
  {
    hide Geometry.Valid;
    RunInCluster(g, e, d');
    RunAt(g.IndexToLbo(e), g.bytesPerCluster / DIRENT_SIZE);
    AtLeastOne(g);
    forall i | 0 <= i < |ClusterSlots(g, e)|
      ensures d'[ClusterSlots(g, e)[i]] == 0
    {
      ClusterOfByte(g, e, i * DIRENT_SIZE);
      assert g.rootLbo <= g.IndexToLbo(e);
    }
  }

  lemma AtLeastOne(g: Geometry)
    requires g.Valid()
    ensures g.bytesPerCluster / DIRENT_SIZE > 0
  {
  }

  lemma SameThenWritten(g: Geometry, d: seq<Byte>, mid: seq<Byte>, lbo: nat, b: seq<Byte>)
    requires g.Valid() && g.bytesPerCluster > 0 && SameData(g, d, mid) && lbo + |b| <= |mid|
    ensures Updated(g, d, Splice(mid, lbo, b), [], lbo, b)
  {
  }

  /** Adding an entry to a directory. */
  method CreateDirent(s: FatStore, start: Word, dirent: Dirent, ghost c: seq<nat>)
    returns (status: Status, lbo: nat, ghost taken: seq<nat>)
    requires s.Valid() && Linked(s.g, s.Fat) && DirChain(s, start, c)
    modifies s, s.cachedFat
    ensures s.Valid() && Linked(s.g, s.Fat)
    ensures s.g.Valid() && |old(s.Fat)| == s.g.clusters + 2 && |old(s.disk)| == s.g.deviceBytes
    ensures FileChain(s.g, old(s.Fat), start, c)
    ensures Clusters(s.g, c) && Placed(old(s.disk), DirSlots(s.g, start, c)) && 2 <= Hint(c) < 0x1_0000
    ensures CreateOutcome(s.g, old(s.Fat), s.Fat, old(s.disk), s.disk, start, c, dirent, status, lbo, taken)
    ensures status == ESUCCESS ==> EntryAt(s.disk, lbo, dirent)
  {
    hide FatStore.Valid, EntryAt, Geometry.Valid, Linked, Chain, Allocated, Zeroed, SameData, Updated, Grown,
        FreeInScan, Run, FirstFree, Encode, OnGrid, Slots;
    DirFacts(s, start, c);
    ChainStart(s, start, c);
    SameDataStart(s);
    ghost var fat0, d0 := s.Fat, s.disk;
    taken := [];
    if start == FAT_CLUSTER_AVAILABLE {
      RootPlaced(s.g, s.disk);
      Arith.Mod512(s.g.rootSize);
      var place := PlaceInRun(s, s.g.rootLbo, s.g.rootSize, dirent);
      if place.Some? {
        SameThenWritten(s.g, d0, d0, place.value, Encode(dirent));
        return ESUCCESS, place.value, [];
      }
      return ENOSPC, 0, [];
    }
    var bytesPerCluster := s.g.bytesPerCluster;
    var fatEntry := start;
    ghost var i := 0;
    ghost var scan := FreeInScan(s.g, fat0, Hint(c));
    assert c[0..] == c;
    SlotsPlaced(s.g, c, d0);
    while true
      invariant s.Valid() && Linked(s.g, s.Fat) && |s.disk| == s.g.deviceBytes && i <= |c| && s.g.InRange(fatEntry)
      invariant Placed(d0, Slots(s.g, c[i..]))
      invariant FirstFree(d0, Slots(s.g, c)) == FirstFree(d0, Slots(s.g, c[i..]))
      invariant if i < |c| then fatEntry == c[i] && taken == [] && s.Fat == fat0 && SameData(s.g, d0, s.disk)
                else scan != [] && taken == scan[..1] && fatEntry == taken[0] && Grown(s.g, fat0, s.Fat, c, taken)
                     && Zeroed(s.g, d0, s.disk, taken)
      decreases |c| - i
    {
      RunInCluster(s.g, fatEntry, s.disk);
      Arith.Mod512(bytesPerCluster);
      ghost var d1 := s.disk;
      if i < |c| {
        FreeFromCluster(s.g, c, i, d0, s.disk);
      } else {
        assert taken == [fatEntry as nat];
        ZeroedIsFree(s.g, d0, s.disk, fatEntry);
        NoSlots(s.g, d0);
      }
      var place := PlaceInRun(s, s.g.IndexToLbo(fatEntry), bytesPerCluster, dirent);
      if place.Some? {
        if i < |c| {
          SameThenWritten(s.g, d0, d1, place.value, Encode(dirent));
        } else {
          ZeroedThenWritten(s.g, d0, d1, taken, place.value, Encode(dirent));
        }
        return ESUCCESS, place.value, taken;
      }
      var previousEntry := fatEntry;
      status, fatEntry, taken := NextCluster(s, start, previousEntry, c, i);
      StoreFacts(s);
      i := i + 1;
      if i < |c| {
        SameDataTrans(s.g, d0, d1, s.disk);
      } else {
        assert c[i..] == [];
        NoSlots(s.g, d0);
        ZeroedSince(s.g, d0, d1, s.disk, taken);
      }
      if status != ESUCCESS {
        return status, 0, taken;
      }
    }
  }

  lemma NoSlots(g: Geometry, d: seq<Byte>)
    ensures Slots(g, []) == [] && FirstFree(d, []).None?
  {
  }

  // Every byte of the entry at l lies in a cluster of c.
  ghost predicate Within(g: Geometry, l: nat, c: seq<nat>)
    requires g.bytesPerCluster > 0
  {
    forall a: nat | l <= a < l + DIRENT_SIZE :: ClusterOf(g, a) in c
  }

  // The places of a cluster lie in that cluster, and no two are the same.
  lemma ClusterPlaces(g: Geometry, e: nat)
    requires g.Valid() && g.InRange(e) && g.bytesPerCluster > 0
    ensures forall i :: 0 <= i < |ClusterSlots(g, e)| ==> Within(g, ClusterSlots(g, e)[i], [e])
    ensures Distinct(ClusterSlots(g, e))
  {
    hide Geometry.Valid;
    var lbo, n := g.IndexToLbo(e), g.bytesPerCluster / DIRENT_SIZE;
    RunAt(lbo, n);
    forall i, a: nat | 0 <= i < n && Run(lbo, n)[i] <= a < Run(lbo, n)[i] + DIRENT_SIZE
      ensures ClusterOf(g, a) == e
    {
      assert i * DIRENT_SIZE + DIRENT_SIZE <= g.bytesPerCluster;
      ClusterOfByte(g, e, a - lbo);
    }
  }

  lemma {:induction false} SlotsWithin(g: Geometry, c: seq<nat>)
    requires g.Valid() && Clusters(g, c) && g.bytesPerCluster > 0
    ensures forall i :: 0 <= i < |Slots(g, c)| ==> Within(g, Slots(g, c)[i], c)
    decreases |c|
  {
    hide Geometry.Valid, ClusterOf, Run;
    if c != [] {
      ClusterPlaces(g, c[0]);
      SlotsWithin(g, c[1..]);
      assert forall e :: e in c[1..] ==> e in c;
      var a, b, all := ClusterSlots(g, c[0]), Slots(g, c[1..]), Slots(g, c);
      forall i | 0 <= i < |all|
        ensures Within(g, all[i], c)
      {
        if i < |a| {
          assert Within(g, a[i], [c[0]]);
        } else {
          assert Within(g, b[i - |a|], c[1..]);
        }
      }
    }
  }

  lemma {:induction false} SlotsDistinct(g: Geometry, c: seq<nat>)
    requires g.Valid() && Clusters(g, c) && g.bytesPerCluster > 0 && Distinct(c)
    ensures Distinct(Slots(g, c))
    decreases |c|
  {
    hide Geometry.Valid, ClusterOf, Run;
    if c != [] {
      ClusterPlaces(g, c[0]);
      SlotsWithin(g, c[1..]);
      SlotsDistinct(g, c[1..]);
      var a, b := ClusterSlots(g, c[0]), Slots(g, c[1..]);
      assert c[0] !in c[1..];
      forall i, j | 0 <= i < |a| && 0 <= j < |b|
        ensures a[i] != b[j]
      {
        assert Within(g, a[i], [c[0]]) && Within(g, b[j], c[1..]);
        assert ClusterOf(g, a[i]) in [c[0]] && ClusterOf(g, b[j]) in c[1..];
      }
    }
  }

  lemma {:induction false} SlotsAppend(g: Geometry, c: seq<nat>, x: nat)
    requires Clusters(g, c) && g.InRange(x)
    ensures Clusters(g, c + [x]) && Slots(g, c + [x]) == Slots(g, c) + ClusterSlots(g, x)
    decreases |c|
  {
    if c == [] {
      assert c + [x] == [x] && [x][1..] == [];
    } else {
      assert (c + [x])[1..] == c[1..] + [x];
      SlotsAppend(g, c[1..], x);
    }
  }

  lemma DirSlotsDistinct(g: Geometry, fat: seq<Word>, start: Word, c: seq<nat>)
    requires g.Valid() && |fat| == g.clusters + 2 && FileChain(g, fat, start, c)
    ensures Clusters(g, c) && (start == FAT_CLUSTER_AVAILABLE <==> c == []) && Distinct(DirSlots(g, start, c))
  {
    hide Geometry.Valid;
    Copies(g);
    if c == [] {
      RunAt(g.rootLbo, g.rootSize / DIRENT_SIZE);
    } else {
      ChainDistinct(g, fat, c);
      SlotsDistinct(g, c);
    }
  }

  lemma DirSlotsPlaced(g: Geometry, start: Word, c: seq<nat>, d: seq<Byte>)
    requires g.Valid() && |d| == g.deviceBytes && Clusters(g, c)
    ensures Placed(d, DirSlots(g, start, c))
    ensures forall i :: 0 <= i < |DirSlots(g, start, c)| ==> OnGrid(g, DirSlots(g, start, c)[i])
  {
    SlotsPlaced(g, c, d);
    RootPlaced(g, d);
  }

  // A device with an entry put in a free place of the directory.
  lemma PutInPlace(g: Geometry, d: seq<Byte>, d': seq<Byte>, lbos: seq<nat>, l: nat, b: seq<Byte>)
    requires g.Valid() && g.bytesPerCluster > 0 && Placed(d, lbos) && |b| == DIRENT_SIZE && Updated(g, d, d', [], l, b)
    requires forall i :: 0 <= i < |lbos| ==> OnGrid(g, lbos[i])
    requires OnGrid(g, l) && l + DIRENT_SIZE <= |d|
    ensures EntryPut(d, d', lbos, l, b)
  {
    hide Geometry.Valid, ClusterOf;
    Copies(g);
    assert d'[l..l + DIRENT_SIZE] == b;
    forall i | 0 <= i < |lbos| && lbos[i] != l
      ensures SameEntry(d, d', lbos[i])
    {
      var k := lbos[i];
      assert k + DIRENT_SIZE <= l || l + DIRENT_SIZE <= k;
      assert d'[k..k + DIRENT_SIZE] == d[k..k + DIRENT_SIZE];
    }
  }

  // A clean directory stays clean when its first free place is taken.
  lemma CleanStays(d: seq<Byte>, d': seq<Byte>, lbos: seq<nat>, l: nat, entry: seq<Byte>)
    requires Placed(d, lbos) && Clean(d, lbos) && Distinct(lbos)
    requires |entry| == DIRENT_SIZE && l + DIRENT_SIZE <= |d'| && EntryPut(d, d', lbos, l, entry)
    requires FirstFree(d, lbos) == Some(l) && entry[0] != FAT_DIRENT_NEVER_USED
    ensures Clean(d', lbos)
  {
    var k := FirstFreeIsFirst(d, lbos);
    assert d'[l] == d'[l..l + DIRENT_SIZE][0];
    forall i, j | 0 <= i < j < |lbos| && d'[lbos[i]] == FAT_DIRENT_NEVER_USED
      ensures d'[lbos[j]] == FAT_DIRENT_NEVER_USED
    {
      assert lbos[i] != l;
      SameSlot(d, d', lbos[i]);
      assert IsFreeSlot(d, lbos[i]) && i > k && lbos[j] != lbos[k];
      SameSlot(d, d', lbos[j]);
    }
  }

  // What a search for `name` finds after an entry for `added` went to lbo: that entry,
  // what it found before, or else what was hidden behind the end mark.
  ghost predicate Kept(before: Option<nat>, after: Option<nat>, added: seq<Byte>, name: seq<Byte>, lbo: nat,
          hidden: Option<nat>)
  {
    after == if name == added then Some(lbo) else if before.Some? then before else hidden
  }

  // When a place was free.
  lemma KeptInPlace(g: Geometry, d: seq<Byte>, d': seq<Byte>, lbos: seq<nat>, root: bool, dirent: Dirent, l: nat,
          name: seq<Byte>)
    requires g.Valid() && g.bytesPerCluster > 0 && Placed(d, lbos) && Distinct(lbos)
    requires forall i :: 0 <= i < |lbos| ==> OnGrid(g, lbos[i])
    requires Find(d, lbos, dirent.name, root).None? && SearchName(dirent.name) && SearchName(name)
    requires root ==> !FlagOn(dirent.attributes, FAT_DIRENT_ATTR_VOLUME_ID)
    requires FirstFree(d, lbos) == Some(l) && Updated(g, d, d', [], l, Encode(dirent))
    ensures Placed(d', lbos)
    ensures Kept(Find(d, lbos, name, root), Find(d', lbos, name, root), dirent.name, name, l,
                 Find(d, Hidden(d, lbos), name, root))
    ensures Clean(d, lbos) ==> Clean(d', lbos)
  {
    hide Geometry.Valid, Updated, OnGrid, Encode, Clean, Find, FirstFree, Hidden;
    var b := Encode(dirent);
    var k := FirstFreeIsFirst(d, lbos);
    PutInPlace(g, d, d', lbos, l, b);
    EncodedName(dirent);
    if name == dirent.name {
      FindNew(d, d', lbos, l, b, name, root);
    } else {
      FindOther(d, d', lbos, l, b, name, root);
    }
    if Clean(d, lbos) {
      CleanStays(d, d', lbos, l, b);
    }
  }

  lemma EncodedName(dirent: Dirent)
    ensures var b := Encode(dirent); b[..11] == dirent.name && b[0] == dirent.name[0] && b[11] == dirent.attributes
  {
    assert Encode(dirent)[..11] == dirent.name;
  }

  // When the directory gained the cluster x.
  lemma GainedCluster(g: Geometry, d: seq<Byte>, d': seq<Byte>, c: seq<nat>, x: nat, b: seq<Byte>)
    requires g.Valid() && g.bytesPerCluster > 0 && |d| == g.deviceBytes && Clusters(g, c) && g.InRange(x) && x !in c
    requires |b| == DIRENT_SIZE && Updated(g, d, d', [x], g.IndexToLbo(x), b)
    ensures Placed(d, Slots(g, c)) && Placed(d', ClusterSlots(g, x)) && |ClusterSlots(g, x)| > 0
    ensures ClusterSlots(g, x)[0] == g.IndexToLbo(x) && g.IndexToLbo(x) + DIRENT_SIZE <= |d'|
    ensures d'[g.IndexToLbo(x)..g.IndexToLbo(x) + DIRENT_SIZE] == b
    ensures forall i :: 0 <= i < |Slots(g, c)| ==> SameEntry(d, d', Slots(g, c)[i])
    ensures forall i :: 1 <= i < |ClusterSlots(g, x)| ==> d'[ClusterSlots(g, x)[i]] == 0
  {
    hide Geometry.Valid, ClusterOf, Run, OnGrid;
    Copies(g);
    AtLeastOne(g);
    RunInCluster(g, x, d');
    ClusterPlaces(g, x);
    SlotsPlaced(g, c, d);
    SlotsWithin(g, c);
    var l, slots, gained := g.IndexToLbo(x), Slots(g, c), ClusterSlots(g, x);
    RunAt(l, |gained|);
    AtOrAfterRoot(g, l);
    assert d'[l..l + DIRENT_SIZE] == b;
    forall i | 0 <= i < |slots|
      ensures SameEntry(d, d', slots[i])
    {
      var k := slots[i];
      AtOrAfterRoot(g, k);
      assert Within(g, k, c) && Within(g, gained[0], [x]);
      assert forall a: nat | k <= a < k + DIRENT_SIZE :: ClusterOf(g, a) in c && d'[a] == d[a];
      assert d'[k..k + DIRENT_SIZE] == d[k..k + DIRENT_SIZE];
    }
    forall i | 1 <= i < |gained|
      ensures d'[gained[i]] == 0
    {
      assert Within(g, gained[i], [x]);
      assert ClusterOf(g, gained[i]) in [x];
    }
  }

  lemma AtOrAfterRoot(g: Geometry, l: nat)
    requires OnGrid(g, l)
    ensures l >= g.rootLbo
  {
  }

  // A search of the new cluster finds the new entry and nothing else.
  lemma FindInGained(d': seq<Byte>, lbos: seq<nat>, dirent: Dirent, name: seq<Byte>)
    requires Placed(d', lbos) && |lbos| > 0 && SearchName(name)
    requires d'[lbos[0]..lbos[0] + DIRENT_SIZE] == Encode(dirent) && SearchName(dirent.name)
    requires forall i :: 1 <= i < |lbos| ==> d'[lbos[i]] == 0
    ensures Find(d', lbos, name, false) == if name == dirent.name then Some(lbos[0]) else None
  {
    var l := lbos[0];
    EncodedName(dirent);
    assert d'[l..l + 11] == d'[l..l + DIRENT_SIZE][..11] && d'[l] == d'[l..l + DIRENT_SIZE][0];
    if name != dirent.name {
      forall i | 0 <= i < |lbos[1..]|
        ensures d'[lbos[1..][i]..lbos[1..][i] + 11] != name
      {
        UnusedIsNoMatch(d', lbos[i + 1], name);
      }
      FindNothing(d', lbos[1..], name, false);
    }
  }

  lemma KeptInGained(g: Geometry, d: seq<Byte>, d': seq<Byte>, c: seq<nat>, x: nat, dirent: Dirent, name: seq<Byte>)
    requires g.Valid() && g.bytesPerCluster > 0 && |d| == g.deviceBytes && Clusters(g, c) && g.InRange(x) && x !in c
    requires Placed(d, Slots(g, c)) && FirstFree(d, Slots(g, c)).None?
    requires Find(d, Slots(g, c), dirent.name, false).None? && SearchName(dirent.name) && SearchName(name)
    requires Updated(g, d, d', [x], g.IndexToLbo(x), Encode(dirent))
    ensures Clusters(g, c + [x]) && Placed(d', Slots(g, c + [x]))
    ensures Kept(Find(d, Slots(g, c), name, false), Find(d', Slots(g, c + [x]), name, false), dirent.name, name,
                 g.IndexToLbo(x), Find(d, Hidden(d, Slots(g, c)), name, false))
    ensures Clean(d', Slots(g, c + [x]))
  {
    hide Geometry.Valid, Updated, Encode, Find, FirstFree, ClusterOf, Slots, Run;
    var known, gained := Slots(g, c), ClusterSlots(g, x);
    GainedCluster(g, d, d', c, x, Encode(dirent));
    SlotsAppend(g, c, x);
    assert |d'| == |d| by { SameSize(g, d, d', x, Encode(dirent)); }
    FindSame(d, d', known, name, false);
    NothingHidden(d, known, name, false);
    FindInGained(d', gained, dirent, name);
    if Find(d, known, name, false).Some? {
      FindAppend(d', known, gained, name, false);
    } else {
      FindPast(d', known, gained, name, false);
    }
    CleanGained(d, d', known, gained, dirent);
  }

  lemma SameSize(g: Geometry, d: seq<Byte>, d': seq<Byte>, x: nat, b: seq<Byte>)
    requires g.bytesPerCluster > 0 && x >= 2 && Updated(g, d, d', [x], g.IndexToLbo(x), b)
    ensures |d'| == |d|
  {
  }

  lemma {:induction false} NoneFreeInUse(d: seq<Byte>, lbos: seq<nat>)
    requires Placed(d, lbos) && FirstFree(d, lbos).None?
    ensures forall i :: 0 <= i < |lbos| ==> !IsFreeSlot(d, lbos[i])
    decreases |lbos|
  {
    if lbos != [] {
      NoneFreeInUse(d, lbos[1..]);
    }
  }

  lemma {:induction false} NothingHidden(d: seq<Byte>, lbos: seq<nat>, name: seq<Byte>, root: bool)
    requires Placed(d, lbos) && FirstFree(d, lbos).None?
    ensures Find(d, Hidden(d, lbos), name, root).None?
    decreases |lbos|
  {
    if lbos != [] {
      NothingHidden(d, lbos[1..], name, root);
    }
  }

  lemma CleanGained(d: seq<Byte>, d': seq<Byte>, lbos: seq<nat>, gained: seq<nat>, dirent: Dirent)
    requires Placed(d, lbos) && |d'| == |d| && (forall i :: 0 <= i < |lbos| ==> SameEntry(d, d', lbos[i]))
    requires FirstFree(d, lbos).None? && Placed(d', lbos + gained) && |gained| > 0 && Placed(d', gained)
    requires d'[gained[0]..gained[0] + DIRENT_SIZE] == Encode(dirent) && SearchName(dirent.name)
    requires forall i :: 1 <= i < |gained| ==> d'[gained[i]] == 0
    ensures Clean(d', lbos + gained)
  {
    NoneFreeInUse(d, lbos);
    EncodedName(dirent);
    assert d'[gained[0]] == d'[gained[0]..gained[0] + DIRENT_SIZE][0];
    var all := lbos + gained;
    forall i, j | 0 <= i < j < |all| && d'[all[i]] == FAT_DIRENT_NEVER_USED
      ensures d'[all[j]] == FAT_DIRENT_NEVER_USED
    {
      if i < |lbos| {
        SameSlot(d, d', lbos[i]);
      }
    }
  }

  /** After an entry is added under a name not in use, a search finds it where it was
      put and finds every earlier name where it was, whether the entry went to a free
      place or to a new cluster. Other names turn up exactly as the places behind an end
      mark show them: when nothing follows the end mark, none does, and nothing follows
      the end mark again. */
  lemma AddedIsFound(g: Geometry, fat: seq<Word>, fat': seq<Word>, d: seq<Byte>, d': seq<Byte>, start: Word,
          c: seq<nat>, dirent: Dirent, lbo: nat, taken: seq<nat>, name: seq<Byte>)
    requires g.Valid() && |fat| == g.clusters + 2 && |d| == g.deviceBytes && FileChain(g, fat, start, c)
    requires Clusters(g, c) && Placed(d, DirSlots(g, start, c)) && 2 <= Hint(c) < 0x1_0000
    requires CreateOutcome(g, fat, fat', d, d', start, c, dirent, ESUCCESS, lbo, taken)
    requires Find(d, DirSlots(g, start, c), dirent.name, c == []).None? && SearchName(dirent.name) && SearchName(name)
    requires c == [] ==> !FlagOn(dirent.attributes, FAT_DIRENT_ATTR_VOLUME_ID)
    ensures FileChain(g, fat', start, c + taken) && (start == FAT_CLUSTER_AVAILABLE <==> c == [])
    ensures Clusters(g, c + taken) && Placed(d', DirSlots(g, start, c + taken))
    ensures Kept(Find(d, DirSlots(g, start, c), name, c == []), Find(d', DirSlots(g, start, c + taken), name, c == []),
                 dirent.name, name, lbo, Find(d, Hidden(d, DirSlots(g, start, c)), name, c == []))
    ensures Clean(d, DirSlots(g, start, c)) ==>
              && Find(d, Hidden(d, DirSlots(g, start, c)), name, c == []).None?
              && Clean(d', DirSlots(g, start, c + taken))
  {
    hide Geometry.Valid, Updated, Encode, Find, FirstFree, Chain, Kept, Clean, Slots, RootSlots, Grown, OnGrid,
        Distinct, FreeInScan, SearchName, Hidden;
    Copies(g);
    DirSlotsDistinct(g, fat, start, c);
    DirSlotsPlaced(g, start, c, d);
    if Clean(d, DirSlots(g, start, c)) {
      CleanHidesNothing(d, DirSlots(g, start, c), name, c == []);
    }
    if FirstFree(d, DirSlots(g, start, c)).Some? {
      assert c + taken == c;
      KeptInPlace(g, d, d', DirSlots(g, start, c), c == [], dirent, lbo, name);
    } else {
      assert taken == [taken[0]];
      GrownChain(g, fat, fat', c, taken);
      KeptInGained(g, d, d', c, taken[0], dirent, name);
    }
  }

  lemma GrownChain(g: Geometry, fat: seq<Word>, fat': seq<Word>, c: seq<nat>, taken: seq<nat>)
    requires g.Valid() && |fat| == g.clusters + 2 && c != [] && Chain(g, fat, c) && |taken| == 1
        && Grown(g, fat, fat', c, taken)
    ensures taken[0] !in c && |fat'| == g.clusters + 2 && Chain(g, fat', c + taken)
  {
    ChainNotFree(g, fat, c);
    assert taken[0] in taken;
  }

  // No place of a directory lies in a cluster that does not belong to it.
  lemma PlaceElsewhere(g: Geometry, start: Word, c: seq<nat>, l: nat, e: seq<nat>)
    requires g.Valid() && g.bytesPerCluster > 0 && Clusters(g, c) && (start == FAT_CLUSTER_AVAILABLE <==> c == [])
    requires l in DirSlots(g, start, c) && Disjoint(e, c) && Clusters(g, e)
    ensures forall a: nat | l <= a < l + DIRENT_SIZE :: ClusterOf(g, a) !in e
  {
    var k :| 0 <= k < |DirSlots(g, start, c)| && DirSlots(g, start, c)[k] == l;
    if c == [] {
      RunAt(g.rootLbo, g.rootSize / DIRENT_SIZE);
      forall a: nat | l <= a < l + DIRENT_SIZE
        ensures ClusterOf(g, a) !in e
      {
        assert ClusterOf(g, a) == 0;
      }
    } else {
      SlotsWithin(g, c);
      assert Within(g, l, c);
    }
  }

  // Bytes in the clusters of e survive an update that touches neither them nor `taken`.
  lemma UpdateElsewhere(g: Geometry, d: seq<Byte>, d': seq<Byte>, taken: seq<nat>, lbo: nat, b: seq<Byte>, e: seq<nat>,
          size: nat)
    requires g.Valid() && g.bytesPerCluster > 0 && |d| == |d'| == g.deviceBytes && Clusters(g, e)
        && size <= Capacity(g, e)
    requires Updated(g, d, d', taken, lbo, b) && Disjoint(e, taken)
    requires forall a: nat | lbo <= a < lbo + |b| :: ClusterOf(g, a) !in e
    ensures Data(g, d', e, size) == Data(g, d, e, size)
  {
    hide Geometry.Valid, ClusterOf;
    DataFrame(g, d, d', e, size);
  }

  lemma FreeApart(g: Geometry, fat: seq<Word>, e: seq<nat>, taken: seq<nat>)
    requires g.Valid() && |fat| == g.clusters + 2 && Chain(g, fat, e)
    requires forall x :: x in taken ==> g.InRange(x) && IsFree(g, fat, x)
    ensures Disjoint(e, taken) && Clusters(g, e) && Clusters(g, e)
  {
    ChainNotFree(g, fat, e);
  }

  lemma NewPlaceElsewhere(g: Geometry, x: nat, e: seq<nat>)
    requires g.Valid() && g.bytesPerCluster > 0 && g.InRange(x) && x !in e
    ensures forall a: nat | g.IndexToLbo(x) <= a < g.IndexToLbo(x) + DIRENT_SIZE :: ClusterOf(g, a) !in e
  {
    ClusterPlaces(g, x);
    AtLeastOne(g);
    assert ClusterSlots(g, x)[0] == g.IndexToLbo(x);
    assert Within(g, ClusterSlots(g, x)[0], [x]);
  }

  /** Adding an entry, whatever comes of it, leaves every other chain and its bytes alone. */
  lemma AddingKeepsOthers(g: Geometry, fat: seq<Word>, fat': seq<Word>, d: seq<Byte>, d': seq<Byte>, start: Word,
          c: seq<nat>, dirent: Dirent, status: Status, lbo: nat, taken: seq<nat>, e: seq<nat>, size: nat)
    requires g.Valid() && |fat| == g.clusters + 2 && |d| == |d'| == g.deviceBytes && FileChain(g, fat, start, c)
    requires Clusters(g, c) && Placed(d, DirSlots(g, start, c)) && 2 <= Hint(c) < 0x1_0000
    requires CreateOutcome(g, fat, fat', d, d', start, c, dirent, status, lbo, taken)
    requires Chain(g, fat, e) && Disjoint(e, c) && Clusters(g, e) && size <= Capacity(g, e)
    ensures |fat'| == |fat| && Chain(g, fat', e) && Data(g, d', e, size) == Data(g, d, e, size)
  {
    hide Geometry.Valid, Encode, FirstFree, Chain, Data, Capacity, Slots, RootSlots, ClusterOf, FreeInScan;
    Copies(g);
    DirSlotsDistinct(g, fat, start, c);
    FreeApart(g, fat, e, taken);
    if FirstFree(d, DirSlots(g, start, c)).Some? {
      var k := FirstFreeIsFirst(d, DirSlots(g, start, c));
      PlaceElsewhere(g, start, c, lbo, e);
      UpdateElsewhere(g, d, d', taken, lbo, Encode(dirent), e, size);
    } else if status == ESUCCESS {
      ChainFrame(g, fat, fat', e);
      NewPlaceElsewhere(g, taken[0], e);
      UpdateElsewhere(g, d, d', taken, lbo, Encode(dirent), e, size);
    } else {
      ChainFrame(g, fat, fat', e);
      UpdateElsewhere(g, d, d', taken, 0, [], e, size);
    }
  }
}
