/** Making any number of files in one directory: all of them are open and empty, each is
    found under its name, and nothing else changes. */
module CreationRuns {
  import opened FatFormat
  import opened FatStore
  import opened FatChains
  import opened FatAllocation
  import opened FileTable
  import opened FileAllocation
  import opened FileRuns
  import opened FileData
  import opened VolumeFiles
  import opened FatVolume
  import opened DirectorySlots
  import opened FatDirectory
  import opened DirectoryCreate
  import opened DirectoryRoom
  import opened VolumeCreate

  // Where a name is found once files with these names were put at these places, if it was
  // found at `before` to begin with.
  ghost function Expected(names: seq<seq<Byte>>, places: seq<nat>, before: Option<nat>, name: seq<Byte>): Option<nat>
    requires |names| == |places|
  {
    if names == [] then before
    else if names[|names| - 1] == name then Some(places[|places| - 1])
    else Expected(names[..|names| - 1], places[..|places| - 1], before, name)
  }

  lemma {:induction false} ExpectedNames(names: seq<seq<Byte>>, places: seq<nat>, before: Option<nat>, name: seq<Byte>)
    requires |names| == |places|
    ensures name !in names ==> Expected(names, places, before, name) == before
    ensures forall i :: 0 <= i < |names| && names[i] == name && Different(names) ==>
              Expected(names, places, before, name) == Some(places[i])
    decreases |names|
  {
    if names != [] {
      var n := |names| - 1;
      ExpectedNames(names[..n], places[..n], before, name);
      forall i | 0 <= i < |names| && names[i] == name && Different(names)
        ensures Expected(names, places, before, name) == Some(places[i])
      {
        if i < n {
          assert names[..n][i] == name && places[..n][i] == places[i];
        }
      }
    }
  }

  ghost predicate Different(names: seq<seq<Byte>>) {
    forall i, j :: 0 <= i < j < |names| ==> names[i] != names[j]
  }

  // What a search of a directory needs.
  ghost predicate Searchable(g: Geometry, d: seq<Byte>, start: Word, cd: seq<nat>) {
    && Clusters(g, cd) && Placed(d, DirSlots(g, start, cd)) && Clean(d, DirSlots(g, start, cd))
  }

  ghost function Search(g: Geometry, d: seq<Byte>, start: Word, cd: seq<nat>, name: seq<Byte>): Option<nat>
    requires Searchable(g, d, start, cd)
  {
    Find(d, DirSlots(g, start, cd), name, start == FAT_CLUSTER_AVAILABLE)
  }

  /** Searches of the directory now find the files made, and everything else as before. */
  ghost predicate Holding(g: Geometry, d0: seq<Byte>, d: seq<Byte>, start: Word, cd0: seq<nat>, cd: seq<nat>,
          names: seq<seq<Byte>>, places: seq<nat>)
  {
    && Searchable(g, d0, start, cd0) && Searchable(g, d, start, cd) && |names| == |places|
    && forall name :: SearchName(name) ==>
        Search(g, d, start, cd, name) == Expected(names, places, Search(g, d0, start, cd0, name), name)
  }

  lemma MadeSearches(g: Geometry, fat: seq<Word>, fat': seq<Word>, d: seq<Byte>, d': seq<Byte>, start: Word,
          cd: seq<nat>, name: seq<Byte>, now: seq<Byte>, f: FileEntry, taken: seq<nat>, other: seq<Byte>)
    requires Made(g, fat, fat', d, d', start, cd, name, now, ESUCCESS, f, taken)
    requires SearchName(name) && SearchName(other) && Searchable(g, d, start, cd)
    requires Search(g, d, start, cd, name).None?
    ensures Searchable(g, d', start, cd + taken)
    ensures Search(g, d', start, cd + taken, other) ==
            if other == name then Some(f.direntLbo) else Search(g, d, start, cd, other)
  {
    hide Geometry.Valid, CreateOutcome, FileChain, Find, Slots, RootSlots, Placed, Clean, OthersKept, Hint, SearchName,
        Hidden, Clusters;
    NoLabel();
    DirSlotsDistinct(g, fat, start, cd);
    AddedIsFound(g, fat, fat', d, d', start, cd, f.dirent, f.direntLbo, taken, other);
  }

  lemma HoldingMore(g: Geometry, d0: seq<Byte>, start: Word, cd0: seq<nat>, fat: seq<Word>, fat': seq<Word>,
          d: seq<Byte>, d': seq<Byte>, cd: seq<nat>, now: seq<Byte>, f: FileEntry, taken: seq<nat>,
          names: seq<seq<Byte>>, places: seq<nat>, name: seq<Byte>)
    requires Holding(g, d0, d, start, cd0, cd, names, places) && SearchName(name) && name !in names
    requires Search(g, d0, start, cd0, name).None?
    requires Made(g, fat, fat', d, d', start, cd, name, now, ESUCCESS, f, taken)
    ensures Holding(g, d0, d', start, cd0, cd + taken, names + [name], places + [f.direntLbo])
  {
    hide Geometry.Valid, Made, Searchable, Search, SearchName;
    ExpectedNames(names, places, None, name);
    MadeSearches(g, fat, fat', d, d', start, cd, name, now, f, taken, name);
    forall other | SearchName(other)
      ensures Search(g, d', start, cd + taken, other) ==
              Expected(names + [name], places + [f.direntLbo], Search(g, d0, start, cd0, other), other)
    {
      MadeSearches(g, fat, fat', d, d', start, cd, name, now, f, taken, other);
      assert (names + [name])[..|names|] == names && (places + [f.direntLbo])[..|places|] == places;
    }
  }

  // A creation that fails leaves the entries of the directory alone.
  lemma EntriesStay(g: Geometry, fat: seq<Word>, fat': seq<Word>, d: seq<Byte>, d': seq<Byte>, start: Word,
          cd: seq<nat>, name: seq<Byte>, now: seq<Byte>, f: FileEntry, taken: seq<nat>, l: nat)
    requires Made(g, fat, fat', d, d', start, cd, name, now, ENOSPC, f, taken) && l in DirSlots(g, start, cd)
    ensures SameEntry(d, d', l)
  {
    hide Geometry.Valid, FileChain, Slots, RootSlots, Encode, FirstFree, FreeInScan, OthersKept, ClusterOf, Hint,
        OnGrid, NewDirent, Updated;
    DirSlotsDistinct(g, fat, start, cd);
    DirSlotsPlaced(g, start, cd, d);
    var k :| 0 <= k < |DirSlots(g, start, cd)| && DirSlots(g, start, cd)[k] == l;
    AtOrAfterRoot(g, l);
    if cd != [] {
      TakenApart(g, fat, start, cd, taken);
      PlaceElsewhere(g, start, cd, l, taken);
    }
    forall a | l <= a < l + DIRENT_SIZE
      ensures d'[a] == d[a]
    {
    }
    assert d'[l..l + DIRENT_SIZE] == d[l..l + DIRENT_SIZE];
  }

  lemma TakenApart(g: Geometry, fat: seq<Word>, start: Word, cd: seq<nat>, taken: seq<nat>)
    requires g.Valid() && |fat| == g.clusters + 2 && FileChain(g, fat, start, cd) && cd != []
    requires forall e :: e in taken ==> g.InRange(e) && IsFree(g, fat, e)
    ensures Disjoint(taken, cd) && Clusters(g, taken)
  {
    ChainNotFree(g, fat, cd);
  }

  lemma HoldingStays(g: Geometry, d0: seq<Byte>, start: Word, cd0: seq<nat>, fat: seq<Word>, fat': seq<Word>,
          d: seq<Byte>, d': seq<Byte>, cd: seq<nat>, name: seq<Byte>, now: seq<Byte>, f: FileEntry, taken: seq<nat>,
          names: seq<seq<Byte>>, places: seq<nat>)
    requires Holding(g, d0, d, start, cd0, cd, names, places)
    requires Made(g, fat, fat', d, d', start, cd, name, now, ENOSPC, f, taken)
    ensures Holding(g, d0, d', start, cd0, cd, names, places)
  {
    hide Geometry.Valid, FileChain, Slots, RootSlots, CreateOutcome, OthersKept, Hint, NewDirent, Find, SearchName,
        Expected;
    var lbos := DirSlots(g, start, cd);
    DirSlotsPlaced(g, start, cd, d');
    forall i | 0 <= i < |lbos|
      ensures SameEntry(d, d', lbos[i])
      ensures d'[lbos[i]] == d[lbos[i]]
    {
      EntriesStay(g, fat, fat', d, d', start, cd, name, now, f, taken, lbos[i]);
      SameSlot(d, d', lbos[i]);
    }
    assert Clean(d', lbos);
    forall other | SearchName(other)
      ensures Search(g, d', start, cd, other) == Search(g, d, start, cd, other)
    {
      FindSame(d, d', lbos, other, start == FAT_CLUSTER_AVAILABLE);
    }
  }

  lemma OthersKeptFirst(g: Geometry, fat: seq<Word>, d: seq<Byte>, cd: seq<nat>)
    requires g.Valid() && Linked(g, fat) && |fat| == g.clusters + 2 && |d| == g.deviceBytes && g.bytesPerCluster > 0
    ensures OthersKept(g, fat, fat, d, d, cd, cd, None)
  {
    hide Geometry.Valid, FileOk, OnGrid, SearchName;
    forall f: FileEntry, c: seq<nat> | Elsewhere(g, fat, d, cd, f, c)
      ensures SameContents(g, d, d, f, c)
    {
      FileOkClusters(g, fat, d, f, c);
    }
  }

  lemma OthersKeptTrans(g: Geometry, fat: seq<Word>, fat1: seq<Word>, fat2: seq<Word>, d: seq<Byte>, d1: seq<Byte>,
          d2: seq<Byte>, cd: seq<nat>, cd1: seq<nat>, cd2: seq<nat>, made: Option<FileEntry>)
    requires g.Valid() && |fat| == |fat1| == |fat2| == g.clusters + 2 && g.bytesPerCluster > 0
    requires |d| == |d1| == |d2| == g.deviceBytes
    requires OthersKept(g, fat, fat1, d, d1, cd, cd1, None) && OthersKept(g, fat1, fat2, d1, d2, cd1, cd2, made)
    ensures OthersKept(g, fat, fat2, d, d2, cd, cd2, None)
  {
    hide Geometry.Valid, Elsewhere, Contents, Clusters, Capacity;
  }

  // The files made: open, empty, and with their entries at these places.
  ghost predicate AllMade(v: Volume, slots: seq<nat>, names: seq<seq<Byte>>, places: seq<nat>, now: seq<Byte>)
    requires v.Valid()
    reads v, v.s, v.s.cachedFat, v.m, v.m.vbo, v.m.lbo, v.fileTable
  {
    && |slots| == |names| == |places| && |now| == 4
    && forall i :: 0 <= i < |slots| ==>
        && |names[i]| == 11 && slots[i] in v.open && slots[i] < v.fileTable.Length && v.Bytes(slots[i]) == []
        && v.fileTable[slots[i]] == FileEntry(0, places[i], NewDirent(names[i], now))
  }

  // What the steps of the run keep, from the map, device and directory it started with.
  ghost predicate Underway(v: Volume, slots: seq<nat>, start: Word, names: seq<seq<Byte>>, now: seq<Byte>,
          fat0: seq<Word>, d0: seq<Byte>, cd0: seq<nat>, cd: seq<nat>, places: seq<nat>)
    reads v, v.s, v.s.cachedFat, v.m, v.m.vbo, v.m.lbo, v.fileTable
  {
    && v.Valid() && DirChain(v.s, start, cd) && AllElsewhere(v, cd)
    && |fat0| == v.s.g.clusters + 2 && |d0| == v.s.g.deviceBytes && v.s.g.bytesPerCluster > 0
    && AllMade(v, slots, names, places, now)
    && Holding(v.s.g, d0, v.s.disk, start, cd0, cd, names, places)
    && OthersKept(v.s.g, fat0, v.s.Fat, d0, v.s.disk, cd0, cd, None)
  }

  // Whether it makes sense to ask for the room of a directory.
  ghost predicate HasRoom(g: Geometry, fat: seq<Word>, d: seq<Byte>, start: Word, cd: seq<nat>) {
    && |fat| == g.clusters + 2 && g.clusters >= 1 && 2 <= Hint(cd) < 0x1_0000
    && Clusters(g, cd) && Placed(d, DirSlots(g, start, cd))
  }

  // n entries of the room there was are taken.
  ghost predicate Shrunk(g: Geometry, fat0: seq<Word>, d0: seq<Byte>, cd0: seq<nat>, fat: seq<Word>, d: seq<Byte>,
          cd: seq<nat>, start: Word, n: nat)
  {
    && HasRoom(g, fat0, d0, start, cd0) && HasRoom(g, fat, d, start, cd)
    && EntriesLeft(g, fat0, d0, start, cd0) == EntriesLeft(g, fat, d, start, cd) + n
  }

  lemma ShrunkMore(g: Geometry, fat0: seq<Word>, d0: seq<Byte>, cd0: seq<nat>, fat: seq<Word>, d: seq<Byte>,
          cd: seq<nat>, fat': seq<Word>, d': seq<Byte>, cd': seq<nat>, start: Word, n: nat)
    requires Shrunk(g, fat0, d0, cd0, fat, d, cd, start, n) && Shrunk(g, fat, d, cd, fat', d', cd', start, 1)
    ensures Shrunk(g, fat0, d0, cd0, fat', d', cd', start, n + 1)
  {
    hide HasRoom, EntriesLeft;
  }

  lemma RoomTold(g: Geometry, fat0: seq<Word>, d0: seq<Byte>, cd0: seq<nat>, fat: seq<Word>, d: seq<Byte>, cd: seq<nat>,
          start: Word, n: nat)
    requires Shrunk(g, fat0, d0, cd0, fat, d, cd, start, n)
    ensures HasRoom(g, fat0, d0, start, cd0) && HasRoom(g, fat, d, start, cd)
    ensures EntriesLeft(g, fat0, d0, start, cd0) == EntriesLeft(g, fat, d, start, cd) + n
  {
  }

  lemma MadeRoom(g: Geometry, fat: seq<Word>, fat': seq<Word>, d: seq<Byte>, d': seq<Byte>, start: Word, cd: seq<nat>,
          name: seq<Byte>, now: seq<Byte>, status: Status, f: FileEntry, taken: seq<nat>)
    requires Made(g, fat, fat', d, d', start, cd, name, now, status, f, taken) && SearchName(name)
    ensures status == ESUCCESS ==> Shrunk(g, fat, d, cd, fat', d', cd + taken, start, 1)
    ensures status != ESUCCESS ==> HasRoom(g, fat, d, start, cd) && EntriesLeft(g, fat, d, start, cd) == 0
  {
    hide Geometry.Valid, CreateOutcome, FileChain, EntriesLeft, OthersKept, Placed, Slots, RootSlots, SearchName, Hint;
    SomeClusters(g);
    CreateRoom(g, fat, fat', d, d', start, cd, f.dirent, status, f.direntLbo, taken);
  }

  lemma SomeClusters(g: Geometry)
    requires g.Valid()
    ensures g.clusters >= 1
  {
  }

  lemma StartRoom(v: Volume, start: Word, cd: seq<nat>)
    requires v.Valid() && DirChain(v.s, start, cd) && Searchable(v.s.g, v.s.disk, start, cd)
    ensures Shrunk(v.s.g, v.s.Fat, v.s.disk, cd, v.s.Fat, v.s.disk, cd, start, 0)
  {
    hide FatStore.Valid, McbOk, FilesOk, Placed, Clean, EntriesLeft, Slots, RootSlots;
    StoreFacts(v.s);
    ChainStart(v.s, start, cd);
    SomeClusters(v.s.g);
  }

  lemma RunStart(v: Volume, slots: seq<nat>, start: Word, names: seq<seq<Byte>>, now: seq<Byte>, cd: seq<nat>)
    requires v.Valid() && |now| == 4 && DirChain(v.s, start, cd) && AllElsewhere(v, cd)
    requires Searchable(v.s.g, v.s.disk, start, cd)
    ensures Underway(v, slots[..0], start, names[..0], now, v.s.Fat, v.s.disk, cd, cd, [])
    ensures forall j :: j in v.open ==> j < v.fileTable.Length
  {
    hide Geometry.Valid, FileOk, Elsewhere, Searchable, Search, SearchName, McbOk, OthersKept, FileChain, Apart,
        HomeOutside;
    StoreFacts(v.s);
    OthersKeptFirst(v.s.g, v.s.Fat, v.s.disk, cd);
  }

  lemma UnderwayFacts(v: Volume, slots: seq<nat>, start: Word, names: seq<seq<Byte>>, now: seq<Byte>, fat0: seq<Word>,
          d0: seq<Byte>, cd0: seq<nat>, cd: seq<nat>, places: seq<nat>)
    requires Underway(v, slots, start, names, now, fat0, d0, cd0, cd, places)
    ensures |now| == 4 && v.s.g.Valid() && |fat0| == |v.s.Fat| == v.s.g.clusters + 2
    ensures |d0| == |v.s.disk| == v.s.g.deviceBytes && v.s.g.bytesPerCluster > 0
    ensures forall i :: 0 <= i < |slots| ==> slots[i] in v.open
  {
    hide Geometry.Valid, Elsewhere, Holding, OthersKept, Volume.Valid, Volume.Bytes, DirChain;
  }

  lemma MoreMade(slots: seq<nat>, names: seq<seq<Byte>>, k: nat)
    requires k < |slots| == |names|
    ensures slots[..k + 1] == slots[..k] + [slots[k]] && names[..k + 1] == names[..k] + [names[k]]
    ensures Different(names) ==> names[k] !in names[..k]
    ensures Distinct(slots) ==> slots[k] !in slots[..k]
  {
  }

  // One more file.
  method MakeNext(v: Volume, slots: seq<nat>, start: Word, names: seq<seq<Byte>>, now: seq<Byte>, k: nat,
          ghost fat0: seq<Word>, ghost d0: seq<Byte>, ghost cd0: seq<nat>, ghost cd: seq<nat>, ghost places: seq<nat>)
    returns (status: Status, ghost taken: seq<nat>)
    requires k < |slots| == |names| && Different(names) && SearchName(names[k])
    requires Underway(v, slots[..k], start, names[..k], now, fat0, d0, cd0, cd, places)
    requires slots[k] < v.fileTable.Length && slots[k] !in v.open
    requires Searchable(v.s.g, d0, start, cd0) && Search(v.s.g, d0, start, cd0, names[k]).None?
    modifies v`open, v`chains, v.fileTable, v.s, v.s.cachedFat
    ensures status in {ESUCCESS, ENOSPC}
    ensures if status == ESUCCESS then
              Underway(v, slots[..k + 1], start, names[..k + 1], now, fat0, d0, cd0, cd + taken,
                       places + [v.fileTable[slots[k]].direntLbo])
            else
              Underway(v, slots[..k], start, names[..k], now, fat0, d0, cd0, cd, places)
    ensures if status == ESUCCESS then
              Shrunk(v.s.g, old(v.s.Fat), old(v.s.disk), cd, v.s.Fat, v.s.disk, cd + taken, start, 1)
            else
              HasRoom(v.s.g, old(v.s.Fat), old(v.s.disk), start, cd)
              && EntriesLeft(v.s.g, old(v.s.Fat), old(v.s.disk), start, cd) == 0
    ensures v.open == if status == ESUCCESS then old(v.open) + {slots[k]} else old(v.open)
    ensures forall j :: j in old(v.open) && j < v.fileTable.Length ==> v.fileTable[j] == old(v.fileTable[j])
    ensures forall j :: j in old(v.open) ==> v.Valid() && v.Bytes(j) == old(v.Bytes(j))
  {
    hide Volume.Valid, Volume.Bytes, AllElsewhere, DirChain, Searchable, Search, Holding, OthersKept, SearchName, Made,
        Geometry.Valid, CreateFlags, NewDirent, Different, HasRoom, EntriesLeft, Shrunk;
    UnderwayFacts(v, slots[..k], start, names[..k], now, fat0, d0, cd0, cd, places);
    MoreMade(slots, names, k);
    ghost var fat1, d1 := v.s.Fat, v.s.disk;
    var flags;
    status, flags, taken := OpenMissing(v, slots[k], start, names[k], CreateReadWrite, now, cd);
    ghost var f := v.fileTable[slots[k]];
    MadeFacts(v.s.g, fat1, v.s.Fat, d1, v.s.disk, start, cd, names[k], now, status, f, taken);
    MadeRoom(v.s.g, fat1, v.s.Fat, d1, v.s.disk, start, cd, names[k], now, status, f, taken);
    OthersKeptTrans(v.s.g, fat0, fat1, v.s.Fat, d0, d1, v.s.disk, cd0, cd, NextChain(cd, status, taken),
                    if status == ESUCCESS then Some(f) else None);
    if status == ESUCCESS {
      HoldingMore(v.s.g, d0, start, cd0, fat1, v.s.Fat, d1, v.s.disk, cd, now, f, taken, names[..k], places, names[k]);
    } else {
      HoldingStays(v.s.g, d0, start, cd0, fat1, v.s.Fat, d1, v.s.disk, cd, names[k], now, f, taken, names[..k], places);
    }
  }

  lemma MadeFacts(g: Geometry, fat: seq<Word>, fat': seq<Word>, d: seq<Byte>, d': seq<Byte>, start: Word, cd: seq<nat>,
          name: seq<Byte>, now: seq<Byte>, status: Status, f: FileEntry, taken: seq<nat>)
    requires Made(g, fat, fat', d, d', start, cd, name, now, status, f, taken)
    ensures status in {ESUCCESS, ENOSPC} && |name| == 11 && |now| == 4
    ensures f == FileEntry(0, f.direntLbo, NewDirent(name, now))
    ensures g.Valid() && |fat'| == |fat| == g.clusters + 2 && |d| == |d'| == g.deviceBytes && g.bytesPerCluster > 0
    ensures OthersKept(g, fat, fat', d, d', cd, NextChain(cd, status, taken),
                       if status == ESUCCESS then Some(f) else None)
  {
    hide OthersKept, Updated, Grown, Allocated, Zeroed, SameData, FreeInScan, FirstFree, Geometry.Valid, FileChain;
  }

  /** Making files of any number of names, none of which is in use, as far as there is
      room, which can be told beforehand: those made are open and empty, a search finds each
      of them at its place and every other name as before, and every other file keeps its
      bytes. */
  method MakeAll(v: Volume, slots: seq<nat>, start: Word, names: seq<seq<Byte>>, now: seq<Byte>, ghost cd0: seq<nat>)
    returns (status: Status, made: nat, ghost places: seq<nat>, ghost cd: seq<nat>)
    requires v.Valid() && |slots| == |names| && |now| == 4 && Different(names) && Distinct(slots)
    requires DirChain(v.s, start, cd0) && AllElsewhere(v, cd0) && Searchable(v.s.g, v.s.disk, start, cd0)
    requires forall i :: 0 <= i < |slots| ==>
               && slots[i] < v.fileTable.Length && slots[i] !in v.open
               && SearchName(names[i]) && Search(v.s.g, v.s.disk, start, cd0, names[i]).None?
    modifies v`open, v`chains, v.fileTable, v.s, v.s.cachedFat
    ensures v.Valid() && status in {ESUCCESS, ENOSPC} && (status == ESUCCESS <==> made == |names|)
    ensures HasRoom(v.s.g, old(v.s.Fat), old(v.s.disk), start, cd0)
    ensures var room := EntriesLeft(v.s.g, old(v.s.Fat), old(v.s.disk), start, cd0);
            made == if |names| <= room then |names| else room
    ensures Underway(v, slots[..made], start, names[..made], now, old(v.s.Fat), old(v.s.disk), cd0, cd, places)
    ensures forall j :: j in v.open <==> j in old(v.open) || j in slots[..made]
    ensures forall j :: j in old(v.open) ==> v.fileTable[j] == old(v.fileTable[j]) && v.Bytes(j) == old(v.Bytes(j))
  {
    hide Volume.Valid, Volume.Bytes, AllElsewhere, DirChain, Searchable, Search, Holding, OthersKept, SearchName, Made,
        NextChain, AllMade, Geometry.Valid, Shrunk, HasRoom, EntriesLeft;
    StartRoom(v, start, cd0);
    RunStart(v, slots, start, names, now, cd0);
    made, places, cd := 0, [], cd0;
    while made < |names|
      invariant made <= |names|
      invariant Underway(v, slots[..made], start, names[..made], now, old(v.s.Fat), old(v.s.disk), cd0, cd, places)
      invariant Shrunk(v.s.g, old(v.s.Fat), old(v.s.disk), cd0, v.s.Fat, v.s.disk, cd, start, made)
      invariant forall j :: j in v.open <==> j in old(v.open) || j in slots[..made]
      invariant forall j :: j in old(v.open) ==>
                  j < v.fileTable.Length && v.fileTable[j] == old(v.fileTable[j]) && v.Bytes(j) == old(v.Bytes(j))
    {
      UnderwayFacts(v, slots[..made], start, names[..made], now, old(v.s.Fat), old(v.s.disk), cd0, cd, places);
      MoreMade(slots, names, made);
      ghost var taken;
      ghost var fat1, d1 := v.s.Fat, v.s.disk;
      status, taken := MakeNext(v, slots, start, names, now, made, old(v.s.Fat), old(v.s.disk), cd0, cd, places);
      if status != ESUCCESS {
        RoomTold(v.s.g, old(v.s.Fat), old(v.s.disk), cd0, fat1, d1, cd, start, made);
        return;
      }
      ShrunkMore(v.s.g, old(v.s.Fat), old(v.s.disk), cd0, fat1, d1, cd, v.s.Fat, v.s.disk, cd + taken, start, made);
      places, cd := places + [v.fileTable[slots[made]].direntLbo], cd + taken;
      made := made + 1;
    }
    RoomTold(v.s.g, old(v.s.Fat), old(v.s.disk), cd0, v.s.Fat, v.s.disk, cd, start, made);
    status := ESUCCESS;
  }
}
