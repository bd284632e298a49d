/** How many more entries a directory can take: its free places, and those of the clusters
    that it can still gain. */
module DirectoryRoom {
  import opened FatFormat
  import opened FatStore
  import opened FatChains
  import opened FatAllocation
  import opened FileTable
  import opened FileAllocation
  import opened FileData
  import opened DirectorySlots
  import opened FatDirectory
  import opened DirectoryCreate
  import Arith

  ghost function FreeSlots(d: seq<Byte>, lbos: seq<nat>): nat
    requires Placed(d, lbos)
  {
    if lbos == [] then 0 else (if IsFreeSlot(d, lbos[0]) then 1 else 0) + FreeSlots(d, lbos[1..])
  }

  /** The clusters that a directory whose last cluster is `hint` can gain, one after the
      other: all that are free, unless there is only one and it is the one before the hint. */
  ghost function Gainable(g: Geometry, fat: seq<Word>, hint: Word): nat
    requires |fat| == g.clusters + 2 && g.clusters >= 1 && hint >= 2
  {
    if FreeInScan(g, fat, hint) == [] then 0 else FreeCount(g, fat)
  }

  /** How many entries the directory with chain c can still take. */
  ghost function EntriesLeft(g: Geometry, fat: seq<Word>, d: seq<Byte>, start: Word, c: seq<nat>): nat
    requires |fat| == g.clusters + 2 && g.clusters >= 1 && 2 <= Hint(c) < 0x1_0000
    requires Clusters(g, c) && Placed(d, DirSlots(g, start, c))
  {
    FreeSlots(d, DirSlots(g, start, c))
    + if c == [] then 0 else Arith.Times(Gainable(g, fat, Hint(c)), g.bytesPerCluster / DIRENT_SIZE)
  }

  lemma {:induction false} NoneFreeCount(d: seq<Byte>, lbos: seq<nat>)
    requires Placed(d, lbos)
    ensures FreeSlots(d, lbos) == 0 <==> FirstFree(d, lbos).None?
    decreases |lbos|
  {
    if lbos != [] {
      NoneFreeCount(d, lbos[1..]);
    }
  }

  lemma {:induction false} SameFreeSlots(d: seq<Byte>, d': seq<Byte>, lbos: seq<nat>)
    requires Placed(d, lbos) && |d'| == |d| && forall i :: 0 <= i < |lbos| ==> SameEntry(d, d', lbos[i])
    ensures FreeSlots(d', lbos) == FreeSlots(d, lbos)
    decreases |lbos|
  {
    if lbos != [] {
      SameSlot(d, d', lbos[0]);
      SameFreeSlots(d, d', lbos[1..]);
    }
  }

  // An entry in use takes the first free place.
  lemma {:induction false} FreeSlotsPut(d: seq<Byte>, d': seq<Byte>, lbos: seq<nat>, l: nat, entry: seq<Byte>)
    requires Placed(d, lbos) && Distinct(lbos) && FirstFree(d, lbos) == Some(l)
    requires |entry| == DIRENT_SIZE && l + DIRENT_SIZE <= |d'| && EntryPut(d, d', lbos, l, entry)
    requires entry[0] != FAT_DIRENT_NEVER_USED && entry[0] != FAT_DIRENT_DELETED
    ensures FreeSlots(d', lbos) == FreeSlots(d, lbos) - 1
    decreases |lbos|
  {
    var k := lbos[0];
    if k != l {
      SameSlot(d, d', k);
      FreeSlotsPut(d, d', lbos[1..], l, entry);
    } else {
      FreeIsFree(d, lbos);
      assert d'[l] == d'[l..l + DIRENT_SIZE][0];
      SameFreeSlots(d, d', lbos[1..]);
    }
  }

  lemma {:induction false} FreeSlotsAppend(d: seq<Byte>, a: seq<nat>, b: seq<nat>)
    requires Placed(d, a) && Placed(d, b)
    ensures Placed(d, a + b) && FreeSlots(d, a + b) == FreeSlots(d, a) + FreeSlots(d, b)
    decreases |a|
  {
    if a == [] {
      assert a + b == b;
    } else {
      FreeSlotsAppend(d, a[1..], b);
      assert (a + b)[1..] == a[1..] + b;
    }
  }

  lemma {:induction false} AllFreeSlots(d: seq<Byte>, lbos: seq<nat>)
    requires Placed(d, lbos) && forall i :: 0 <= i < |lbos| ==> IsFreeSlot(d, lbos[i])
    ensures FreeSlots(d, lbos) == |lbos|
    decreases |lbos|
  {
    if lbos != [] {
      AllFreeSlots(d, lbos[1..]);
    }
  }

  // A gained cluster, its first place taken.
  lemma GainedSlots(d': seq<Byte>, lbos: seq<nat>)
    requires Placed(d', lbos) && lbos != [] && !IsFreeSlot(d', lbos[0])
    requires forall i :: 1 <= i < |lbos| ==> d'[lbos[i]] == FAT_DIRENT_NEVER_USED
    ensures FreeSlots(d', lbos) == |lbos| - 1
  {
    AllFreeSlots(d', lbos[1..]);
  }

  lemma {:induction false} ModNext(a: nat, n: nat)
    requires n > 0
    ensures Arith.Mod(a + 1, n) == if Arith.Mod(a, n) + 1 == n then 0 else Arith.Mod(a, n) + 1
    decreases a
  {
    if a >= n {
      ModNext(a - n, n);
    } else if a + 1 >= n {
      assert Arith.Mod(a + 1 - n, n) == 0;
    }
  }

  // The cluster examined before the j-th one is the one before it, or the last of all.
  lemma ExaminedBefore(g: Geometry, hint: Word, j: nat)
    requires g.clusters >= 1 && hint >= 2 && j > 0
    ensures Examine(g, hint, j - 1) == if Examine(g, hint, j) == 2 then g.clusters + 1 else Examine(g, hint, j) - 1
  {
    ModNext(j - 1 + hint - 2, g.clusters);
  }

  // The first free cluster of the scan has no free cluster before it.
  lemma FirstOfScan(g: Geometry, fat: seq<Word>, hint: Word, x: nat)
    requires |fat| == g.clusters + 2 && g.clusters >= 1 && g.InRange(hint) && !IsFree(g, fat, hint)
    requires FreeInScan(g, fat, hint) != [] && FreeInScan(g, fat, hint)[0] == x
    ensures g.InRange(x) && IsFree(g, fat, x)
    ensures var before := if x == 2 then g.clusters + 1 else x - 1; g.InRange(before) && !IsFree(g, fat, before)
  {
    hide FreeOf, Examine;
    var n, order := g.clusters, ScanOrder(g, hint);
    FreeOfMembers(g, fat, order, n - 1);
    ScanOrderIsPermutation(g, hint);
    assert x in FreeInScan(g, fat, hint) && x in order[..n - 1];
    var j :| 0 <= j < n - 1 && order[..n - 1][j] == x;
    assert order[j] == x;
    HintFirst(g, hint);
    ExaminedBefore(g, hint, j);
    FreeOfPrefix(g, fat, order, j, n - 1);
    FreeOfMembers(g, fat, order, j);
    var found := FreeOf(g, fat, order, j);
    forall i | 0 <= i < j
      ensures order[..j][i] != x
    {
      assert order[i] != order[j];
    }
    assert x !in order[..j];
    assert order[..j][j - 1] == order[j - 1];
    assert order[j - 1] in order[..j];
  }

  lemma HintFirst(g: Geometry, hint: Word)
    requires g.clusters >= 1 && g.InRange(hint)
    ensures Examine(g, hint, 0) == hint
  {
  }

  /** A gained cluster leaves all the other free ones to be gained. */
  lemma GainableNext(g: Geometry, fat: seq<Word>, fat': seq<Word>, hint: Word, x: Word)
    requires g.Valid() && |fat| == |fat'| == g.clusters + 2 && g.clusters >= 1 && g.InRange(hint)
    requires !IsFree(g, fat, hint) && FreeInScan(g, fat, hint) != [] && FreeInScan(g, fat, hint)[0] == x
    requires FreeSet(g, fat') == FreeSet(g, fat) - {x as nat}
    ensures g.InRange(x) && Gainable(g, fat, hint) == FreeCount(g, fat) == FreeCount(g, fat') + 1
    ensures Gainable(g, fat', x) == FreeCount(g, fat')
  {
    hide Geometry.Valid, FreeInScan;
    FirstOfScan(g, fat, hint, x);
    assert x as nat in FreeSet(g, fat);
    var before: nat := if x == 2 then g.clusters + 1 else x - 1;
    assert before !in FreeSet(g, fat');
    AllocationSucceedsIff(g, fat', 1, x);
    if FreeInScan(g, fat', x) != [] {
      FitsByCount(g, fat', 1, x);
    }
  }

  // An entry in a free place: one place fewer.
  lemma RoomInPlace(g: Geometry, d: seq<Byte>, d': seq<Byte>, lbos: seq<nat>, dirent: Dirent, l: nat)
    requires g.Valid() && g.bytesPerCluster > 0 && Placed(d, lbos) && Distinct(lbos) && SearchName(dirent.name)
    requires forall i :: 0 <= i < |lbos| ==> OnGrid(g, lbos[i])
    requires FirstFree(d, lbos) == Some(l) && Updated(g, d, d', [], l, Encode(dirent))
    ensures Placed(d', lbos) && FreeSlots(d, lbos) == FreeSlots(d', lbos) + 1
  {
    hide Geometry.Valid, Updated, OnGrid, Encode, FirstFree, FreeSlots;
    var k := FirstFreeIsFirst(d, lbos);
    PutInPlace(g, d, d', lbos, l, Encode(dirent));
    EncodedName(dirent);
    FreeSlotsPut(d, d', lbos, l, Encode(dirent));
  }

  // An entry in a cluster gained: the other places of the cluster are free.
  lemma RoomInGained(g: Geometry, d: seq<Byte>, d': seq<Byte>, c: seq<nat>, x: nat, dirent: Dirent)
    requires g.Valid() && g.bytesPerCluster > 0 && |d| == g.deviceBytes && Clusters(g, c) && g.InRange(x) && x !in c
    requires Placed(d, Slots(g, c)) && FirstFree(d, Slots(g, c)).None? && SearchName(dirent.name)
    requires Updated(g, d, d', [x], g.IndexToLbo(x), Encode(dirent))
    ensures Clusters(g, c + [x]) && Placed(d', Slots(g, c + [x])) && FreeSlots(d, Slots(g, c)) == 0
    ensures FreeSlots(d', Slots(g, c + [x])) + 1 == g.bytesPerCluster / DIRENT_SIZE
  {
    hide Geometry.Valid, Updated, Encode, FirstFree, FreeSlots, Run, Slots;
    GainedCluster(g, d, d', c, x, Encode(dirent));
    EncodedName(dirent);
    SlotsAppend(g, c, x);
    NoneFreeCount(d, Slots(g, c));
    SameSize(g, d, d', x, Encode(dirent));
    SameFreeSlots(d, d', Slots(g, c));
    var l := g.IndexToLbo(x);
    assert d'[l] == d'[l..l + DIRENT_SIZE][0];
    GainedSlots(d', ClusterSlots(g, x));
    FreeSlotsAppend(d', Slots(g, c), ClusterSlots(g, x));
  }

  lemma HintOfGained(g: Geometry, c: seq<nat>, x: nat)
    requires g.Valid() && g.InRange(x)
    ensures Hint(c + [x]) == x < 0x1_0000 && g.clusters >= 1
  {
  }

  // The free clusters once one was gained.
  lemma FreeAfterGain(g: Geometry, fat: seq<Word>, fat': seq<Word>, c: seq<nat>, x: nat)
    requires g.Valid() && |fat| == g.clusters + 2 && Chain(g, fat, c) && Grown(g, fat, fat', c, [x])
    ensures |fat'| == |fat| && FreeSet(g, fat') == FreeSet(g, fat) - {x}
    ensures g.InRange(c[|c| - 1]) && !IsFree(g, fat, c[|c| - 1]) && Hint(c) == c[|c| - 1]
  {
    hide Geometry.Valid, Chain;
    ChainNotFree(g, fat, c);
    EndOfChain(g, fat, c);
    FreeAfterTaking(g, fat, fat', c, [x]);
    assert ToSet([x]) == {x};
  }

  lemma TimesLess(k: nat, b: nat)
    requires k > 0
    ensures Arith.Times(k, b) == Arith.Times(k - 1, b) + b
  {
  }

  lemma RoomGained(g: Geometry, fat: seq<Word>, fat': seq<Word>, d: seq<Byte>, d': seq<Byte>, start: Word, c: seq<nat>,
          dirent: Dirent, x: nat)
    requires g.Valid() && g.bytesPerCluster > 0 && |d| == |d'| == g.deviceBytes && |fat| == g.clusters + 2
    requires g.clusters >= 1 && start != FAT_CLUSTER_AVAILABLE && c != [] && Chain(g, fat, c) && Clusters(g, c)
    requires 2 <= Hint(c) < 0x1_0000 && Placed(d, Slots(g, c)) && FirstFree(d, Slots(g, c)).None?
    requires FreeInScan(g, fat, Hint(c)) != [] && FreeInScan(g, fat, Hint(c))[0] == x && g.InRange(x)
    requires Grown(g, fat, fat', c, [x]) && SearchName(dirent.name)
    requires Updated(g, d, d', [x], g.IndexToLbo(x), Encode(dirent))
    ensures |fat'| == |fat| && Clusters(g, c + [x]) && Placed(d', Slots(g, c + [x])) && 2 <= Hint(c + [x]) < 0x1_0000
    ensures EntriesLeft(g, fat, d, start, c) == EntriesLeft(g, fat', d', start, c + [x]) + 1
  {
    hide Geometry.Valid, Updated, Encode, FirstFree, FreeSlots, Slots, Chain, FreeInScan, FreeSet, Gainable, Grown,
        IsFree, Arith.Times, SearchName;
    GrownChain(g, fat, fat', c, [x]);
    RoomInGained(g, d, d', c, x, dirent);
    HintOfGained(g, c, x);
    FreeAfterGain(g, fat, fat', c, x);
    GainableNext(g, fat, fat', Hint(c), x);
    TimesLess(Gainable(g, fat, Hint(c)), g.bytesPerCluster / DIRENT_SIZE);
  }

  /** Adding an entry takes one off the room of a directory, and is refused when there is
      none. */
  lemma CreateRoom(g: Geometry, fat: seq<Word>, fat': seq<Word>, d: seq<Byte>, d': seq<Byte>, start: Word, c: seq<nat>,
          dirent: Dirent, status: Status, lbo: nat, taken: seq<nat>)
    requires g.Valid() && g.clusters >= 1 && |fat| == |fat'| == g.clusters + 2 && |d| == |d'| == g.deviceBytes
    requires g.bytesPerCluster > 0 && FileChain(g, fat, start, c) && Clusters(g, c) && SearchName(dirent.name)
    requires Placed(d, DirSlots(g, start, c)) && 2 <= Hint(c) < 0x1_0000
    requires CreateOutcome(g, fat, fat', d, d', start, c, dirent, status, lbo, taken)
    ensures status == ESUCCESS ==>
              && Clusters(g, c + taken) && Placed(d', DirSlots(g, start, c + taken)) && 2 <= Hint(c + taken) < 0x1_0000
              && EntriesLeft(g, fat, d, start, c) == EntriesLeft(g, fat', d', start, c + taken) + 1
    ensures status != ESUCCESS ==> status == ENOSPC && EntriesLeft(g, fat, d, start, c) == 0
  {
    hide Geometry.Valid, Updated, Encode, FirstFree, FreeSlots, Slots, RootSlots, Chain, FreeInScan, Grown, Distinct,
        OnGrid, SearchName, Allocated, Zeroed, SameData, Hint, Placed, EntriesLeft;
    DirSlotsDistinct(g, fat, start, c);
    DirSlotsPlaced(g, start, c, d);
    if FirstFree(d, DirSlots(g, start, c)).Some? {
      assert c + taken == c;
      RoomInPlace(g, d, d', DirSlots(g, start, c), dirent, lbo);
      LeftOf(g, fat, d, start, c);
      LeftOf(g, fat, d', start, c);
    } else {
      NoneFreeCount(d, DirSlots(g, start, c));
      LeftOf(g, fat, d, start, c);
      if status == ESUCCESS {
        assert taken == [taken[0]];
        RoomGained(g, fat, fat', d, d', start, c, dirent, taken[0]);
      }
    }
  }

  lemma LeftOf(g: Geometry, fat: seq<Word>, d: seq<Byte>, start: Word, c: seq<nat>)
    requires |fat| == g.clusters + 2 && g.clusters >= 1 && 2 <= Hint(c) < 0x1_0000
    requires Clusters(g, c) && Placed(d, DirSlots(g, start, c))
    ensures EntriesLeft(g, fat, d, start, c) == FreeSlots(d, DirSlots(g, start, c))
        + if c == [] || FreeInScan(g, fat, Hint(c)) == [] then 0
          else Arith.Times(FreeCount(g, fat), g.bytesPerCluster / DIRENT_SIZE)
  {
  }
}
