/** The cluster allocator: it scans the FAT circularly from a hint, links what it
    takes into a fresh chain, and zeroes each cluster. */
module FatAllocation {
  import opened FatFormat
  import opened FatStore
  import opened FatChains
  import Arith

  // The j-th cluster examined.
  function Examine(g: Geometry, hint: Word, j: nat): (e: nat)
    requires g.clusters >= 1 && hint >= 2
    ensures g.InRange(e)
  {
    Arith.ModRange(j + hint - 2, g.clusters);
    Arith.Mod(j + hint - 2, g.clusters) + 2
  }

  // All clusters, in the order a scan from the hint examines them.
  ghost function ScanOrder(g: Geometry, hint: Word): (order: seq<nat>)
    requires g.clusters >= 1 && hint >= 2
    ensures |order| == g.clusters
    ensures forall j :: 0 <= j < |order| ==> order[j] == Examine(g, hint, j) && g.InRange(order[j])
  {
    seq(g.clusters, j requires 0 <= j < g.clusters => Examine(g, hint, j))
  }

  // The free clusters among the first n of es, in order.
  ghost function FreeOf(g: Geometry, fat: seq<Word>, es: seq<nat>, n: nat): seq<nat>
    requires |fat| == g.clusters + 2 && n <= |es| && forall k :: 0 <= k < |es| ==> g.InRange(es[k])
  {
    if n == 0 then []
    else
      assert g.InRange(es[n - 1]);
      var found := FreeOf(g, fat, es, n - 1);
      if IsFree(g, fat, es[n - 1]) then found + [es[n - 1]] else found
  }

  lemma {:induction false} FreeOfMembers(g: Geometry, fat: seq<Word>, es: seq<nat>, n: nat)
    requires |fat| == g.clusters + 2 && n <= |es| && forall k :: 0 <= k < |es| ==> g.InRange(es[k])
    ensures forall e :: e in FreeOf(g, fat, es, n) <==> e in es[..n] && IsFree(g, fat, e)
    decreases n
  {
    if n > 0 {
      FreeOfMembers(g, fat, es, n - 1);
      assert es[..n] == es[..n - 1] + [es[n - 1]];
    }
  }

  lemma {:induction false} FreeOfDistinct(g: Geometry, fat: seq<Word>, es: seq<nat>, n: nat)
    requires |fat| == g.clusters + 2 && n <= |es| && forall k :: 0 <= k < |es| ==> g.InRange(es[k])
    requires Distinct(es)
    ensures Distinct(FreeOf(g, fat, es, n))
    decreases n
  {
    if n > 0 {
      FreeOfDistinct(g, fat, es, n - 1);
      FreeOfMembers(g, fat, es, n - 1);
    }
  }

  lemma {:induction false} FreeOfPrefix(g: Geometry, fat: seq<Word>, es: seq<nat>, i: nat, j: nat)
    requires |fat| == g.clusters + 2 && forall k :: 0 <= k < |es| ==> g.InRange(es[k])
    requires i <= j <= |es|
    ensures FreeOf(g, fat, es, i) <= FreeOf(g, fat, es, j)
    decreases j
  {
    if i < j {
      FreeOfPrefix(g, fat, es, i, j - 1);
    }
  }

  // A scan examines every cluster, and none twice.
  lemma ScanOrderIsPermutation(g: Geometry, hint: Word)
    requires g.clusters >= 1 && hint >= 2
    ensures Distinct(ScanOrder(g, hint))
    ensures forall e :: e in ScanOrder(g, hint) <==> g.InRange(e)
  {
    var order := ScanOrder(g, hint);
    forall i, j | 0 <= i < j < |order|
      ensures order[i] != order[j]
    {
      Arith.ModInjective(i + hint - 2, j + hint - 2, g.clusters);
    }
    forall e: nat | g.InRange(e)
      ensures e in order
    {
      var j := Arith.ModOnto(hint - 2, e - 2, g.clusters);
      assert order[j] == e;
    }
  }

  ghost function ToSet(c: seq<nat>): set<nat> {
    set x | x in c
  }

  lemma {:induction false} DistinctCount(c: seq<nat>)
    requires Distinct(c)
    ensures |ToSet(c)| == |c|
    decreases |c|
  {
    if c != [] {
      var last := |c| - 1;
      DistinctCount(c[..last]);
      assert c == c[..last] + [c[last]];
      assert ToSet(c) == ToSet(c[..last]) + {c[last]};
    }
  }

  lemma ScanFindsAll(g: Geometry, fat: seq<Word>, hint: Word)
    requires |fat| == g.clusters + 2 && hint >= 2 && g.clusters >= 1
    ensures ToSet(FreeOf(g, fat, ScanOrder(g, hint), g.clusters)) == FreeSet(g, fat)
    ensures |FreeOf(g, fat, ScanOrder(g, hint), g.clusters)| == |FreeSet(g, fat)|
  {
    var order := ScanOrder(g, hint);
    ScanOrderIsPermutation(g, hint);
    FreeOfMembers(g, fat, order, g.clusters);
    assert order[..g.clusters] == order;
    FreeOfDistinct(g, fat, order, g.clusters);
    DistinctCount(FreeOf(g, fat, order, g.clusters));
  }

  // What the allocator's loop can still act on: all but the last cluster examined.
  ghost function FreeInScan(g: Geometry, fat: seq<Word>, hint: Word): seq<nat>
    requires |fat| == g.clusters + 2 && g.clusters >= 1 && hint >= 2
  {
    FreeOf(g, fat, ScanOrder(g, hint), g.clusters - 1)
  }

  // What examining one more cluster adds to the clusters found.
  lemma ScanStep(g: Geometry, fat: seq<Word>, hint: Word, j: nat)
    requires |fat| == g.clusters + 2 && hint >= 2 && j < g.clusters
    ensures var order := ScanOrder(g, hint);
            var e, found := Examine(g, hint, j), FreeOf(g, fat, order, j);
            && e !in found
            && FreeOf(g, fat, order, j + 1) == (if IsFree(g, fat, e) then found + [e] else found)
            && found <= FreeInScan(g, fat, hint)
            && (j == g.clusters - 1 ==> found == FreeInScan(g, fat, hint))
  {
    var order := ScanOrder(g, hint);
    ScanOrderIsPermutation(g, hint);
    FreeOfMembers(g, fat, order, j);
    FreeOfPrefix(g, fat, order, j, g.clusters - 1);
  }

  /** When an allocation succeeds, in terms a caller can check. It looks once more
      for enough clusters only at the top of its loop, so it reports a full volume
      also when it needs every free cluster and the cluster examined last, the one
      just before the hint, is among them. */
  lemma AllocationSucceedsIff(g: Geometry, fat: seq<Word>, clusterCount: nat, hint: Word)
    requires |fat| == g.clusters + 2 && g.clusters >= 1 && g.InRange(hint)
    ensures var lastExamined := if hint == 2 then g.clusters + 1 else hint - 1;
            clusterCount <= |FreeInScan(g, fat, hint)| <==>
            clusterCount <= |FreeSet(g, fat)| - if IsFree(g, fat, lastExamined) then 1 else 0
  {
    ScanFindsAll(g, fat, hint);
    var n, order := g.clusters, ScanOrder(g, hint);
    assert n + hint - 3 == n - 1 + (hint - 2);
    if hint > 2 {
      assert Arith.Mod(n + hint - 3, n) == Arith.Mod(hint - 3, n);
    }
    assert order[n - 1] == if hint == 2 then n + 1 else hint - 1;
  }

  /** It can fail with a cluster to spare: the file in cluster 5 is to have one more, and
      cluster 4, the one before the hint, is free. */
  lemma FreeClusterMissed()
    ensures var g, fat := SMALL.Layout(), [0xff8, 0xfff, 0xfff, 0xfff, 0, 0xfff];
            && g.Valid() && |fat| == g.clusters + 2 && Linked(g, fat) && Chain(g, fat, [5])
            && FreeSet(g, fat) == {4} && FreeInScan(g, fat, 5) == []
  {
    SmallLayout();
    var g, fat: seq<Word> := SMALL.Layout(), [0xff8, 0xfff, 0xfff, 0xfff, 0, 0xfff];
    assert FreeSet(g, fat) == {4};
    AllocationSucceedsIff(g, fat, 1, 5);
  }

  /** fat' is fat with `taken`, free clusters of fat, linked into a chain. */
  ghost predicate Allocated(g: Geometry, fat: seq<Word>, fat': seq<Word>, taken: seq<nat>) {
    && |fat| == |fat'| == g.clusters + 2
    && (forall e :: e in taken ==> g.InRange(e) && IsFree(g, fat, e))
    && (forall i :: 0 <= i < |fat| && i !in taken ==> fat'[i] == fat[i])
    && (taken != [] ==> Chain(g, fat', taken))
  }

  // Taking free clusters into chains.
  lemma FreeAfterTaking(g: Geometry, fat: seq<Word>, fat': seq<Word>, c: seq<nat>, taken: seq<nat>)
    requires g.Valid() && |fat| == |fat'| == g.clusters + 2 && (c != [] ==> Chain(g, fat, c))
    requires forall x :: x in taken ==> g.InRange(x) && IsFree(g, fat, x)
    requires forall x :: 0 <= x < |fat| && x !in taken && x !in c ==> fat'[x] == fat[x]
    requires c + taken != [] ==> Chain(g, fat', c + taken)
    ensures FreeSet(g, fat') == FreeSet(g, fat) - ToSet(taken) && ToSet(taken) <= FreeSet(g, fat)
  {
    hide Geometry.Valid, Chain;
    if c != [] {
      ChainNotFree(g, fat, c);
    }
    if c + taken != [] {
      ChainNotFree(g, fat', c + taken);
    }
    forall x: nat | 2 <= x < g.clusters + 2 && (x in taken || x in c)
      ensures !IsFree(g, fat', x)
    {
      assert x in c + taken;
    }
  }

  // How many clusters are free.
  ghost function FreeCount(g: Geometry, fat: seq<Word>): nat
    requires |fat| == g.clusters + 2
  {
    |FreeSet(g, fat)|
  }

  // The free clusters in the order of the scan, all of them.
  ghost function AllFree(g: Geometry, fat: seq<Word>, hint: Word): seq<nat>
    requires |fat| == g.clusters + 2 && g.clusters >= 1 && hint >= 2
  {
    FreeOf(g, fat, ScanOrder(g, hint), g.clusters)
  }

  lemma ScanDistinct(g: Geometry, fat: seq<Word>, hint: Word)
    requires |fat| == g.clusters + 2 && g.clusters >= 1 && hint >= 2
    ensures Distinct(FreeInScan(g, fat, hint)) && Distinct(AllFree(g, fat, hint))
  {
    hide FreeOf;
    ScanOrderIsPermutation(g, hint);
    FreeOfDistinct(g, fat, ScanOrder(g, hint), g.clusters - 1);
    FreeOfDistinct(g, fat, ScanOrder(g, hint), g.clusters);
  }

  /** Clusters taken are counted off; when an allocation fails, none is left. */
  lemma CountAfterTaking(g: Geometry, fat: seq<Word>, fat': seq<Word>, c: seq<nat>, taken: seq<nat>)
    requires g.Valid() && |fat| == |fat'| == g.clusters + 2 && (c != [] ==> Chain(g, fat, c)) && Distinct(taken)
    requires forall x :: x in taken ==> g.InRange(x) && IsFree(g, fat, x)
    requires forall x :: 0 <= x < |fat| && x !in taken && x !in c ==> fat'[x] == fat[x]
    requires c + taken != [] ==> Chain(g, fat', c + taken)
    ensures |taken| <= FreeCount(g, fat) && FreeCount(g, fat') == FreeCount(g, fat) - |taken|
  {
    hide Geometry.Valid, Chain, FreeSet, Distinct;
    FreeAfterTaking(g, fat, fat', c, taken);
    DistinctCount(taken);
    var rest := FreeSet(g, fat) - ToSet(taken);
    assert FreeSet(g, fat) == rest + ToSet(taken);
  }

  lemma NoneLeft(g: Geometry, fat: seq<Word>, fat': seq<Word>, hint: Word)
    requires g.Valid() && |fat| == g.clusters + 2 && g.clusters >= 1 && hint >= 2
    requires Allocated(g, fat, fat', AllFree(g, fat, hint))
    ensures |fat'| == |fat| && FreeCount(g, fat') == 0
  {
    hide Geometry.Valid, Chain, FreeSet;
    var taken := AllFree(g, fat, hint);
    ScanFindsAll(g, fat, hint);
    assert [] + taken == taken;
    FreeAfterTaking(g, fat, fat', [], taken);
  }

  // How the count decides an allocation: one of fewer clusters succeeds, one of more fails.
  lemma FitsByCount(g: Geometry, fat: seq<Word>, clusterCount: nat, hint: Word)
    requires |fat| == g.clusters + 2 && g.clusters >= 1 && g.InRange(hint)
    ensures clusterCount < FreeCount(g, fat) ==> clusterCount <= |FreeInScan(g, fat, hint)|
    ensures clusterCount <= |FreeInScan(g, fat, hint)| ==> clusterCount <= FreeCount(g, fat)
  {
    AllocationSucceedsIff(g, fat, clusterCount, hint);
  }

  lemma AllocatedExtend(g: Geometry, fat: seq<Word>, fat': seq<Word>, taken: seq<nat>, e: nat)
    requires g.Valid() && Allocated(g, fat, fat', taken)
    requires e !in taken && g.InRange(e) && IsFree(g, fat, e)
    ensures var linked := if taken == [] then fat' else fat'[taken[|taken| - 1] := e];
            Allocated(g, fat, linked[e := Stored(g.bits, FAT_CLUSTER_LAST)], taken + [e])
  {
    var marked := fat'[e := Stored(g.bits, FAT_CLUSTER_LAST)];
    assert Chain(g, marked, [e]);
    if taken != [] {
      ChainFrame(g, fat', marked, taken);
      ChainJoin(g, marked, taken, [e]);
      assert fat'[taken[|taken| - 1] := e][e := marked[e]] == marked[taken[|taken| - 1] := e];
    }
  }

  lemma AllocatedLinked(g: Geometry, fat: seq<Word>, fat': seq<Word>, taken: seq<nat>)
    requires g.Valid() && Linked(g, fat) && Allocated(g, fat, fat', taken)
    ensures Linked(g, fat')
  {
    forall i | 2 <= i < |fat'| && g.IsNext(fat'[i])
      ensures g.InRange(fat'[i])
    {
      if i in taken {
        var k :| 0 <= k < |taken| && taken[k] == i;
        if k + 1 < |taken| {
          LinkStep(g, fat', taken, k);
          assert g.InRange(taken[k + 1]);
        }
      }
    }
  }

  // Outside the FAT copies, d' is d with the clusters of `taken` zeroed.
  ghost predicate Zeroed(g: Geometry, d: seq<Byte>, d': seq<Byte>, taken: seq<nat>)
    requires g.bytesPerCluster > 0
  {
    && |d| == |d'|
    && forall a :: 0 <= a < |d| && !(g.firstFat <= a < g.rootLbo) ==>
        d'[a] == if ClusterOf(g, a) in taken then 0 else d[a]
  }

  lemma ZeroedMore(g: Geometry, d0: seq<Byte>, d1: seq<Byte>, d2: seq<Byte>, taken: seq<nat>, e: nat)
    requires g.bytesPerCluster > 0
    requires Zeroed(g, d0, d1, taken) && Zeroed(g, d1, d2, [e])
    ensures Zeroed(g, d0, d2, taken + [e])
  {
  }

  lemma ZeroedRange(g: Geometry, d: seq<Byte>, d': seq<Byte>, e: nat)
    requires g.Valid() && g.InRange(e) && |d| == |d'|
    requires var lbo := g.IndexToLbo(e);
             forall a :: 0 <= a < |d| ==> d'[a] == if lbo <= a < lbo + g.bytesPerCluster then 0 else d[a]
    ensures Zeroed(g, d, d', [e])
  {
    forall a: nat | a < |d|
      ensures d'[a] == if ClusterOf(g, a) in [e] then 0 else d[a]
    {
      ByteInCluster(g, e, a);
    }
  }

  method ZeroCluster(s: FatStore, e: nat)
    requires s.Valid() && s.g.InRange(e)
    modifies s`disk
    ensures s.Valid() && Zeroed(s.g, old(s.disk), s.disk, [e])
  {
    var clusterLbo, bytesPerCluster := s.g.IndexToLbo(e), s.g.bytesPerCluster;
    ClusterFits(s.g, e);
    var blankBuffer := seq(512, _ => 0 as Byte);
    var i := 0;
    while i < bytesPerCluster
      invariant i % 512 == 0 && i <= bytesPerCluster && s.Valid()
      invariant forall a :: 0 <= a < |s.disk| ==>
                  s.disk[a] == if clusterLbo <= a < clusterLbo + i then 0 else old(s.disk)[a]
    {
      WholeStep(i, bytesPerCluster);
      s.DiskWrite(clusterLbo + i, blankBuffer);
      i := i + 512;
    }
    ZeroedRange(s.g, old(s.disk), s.disk, e);
  }

  lemma WholeStep(i: nat, n: nat)
    requires i % 512 == 0 && n % 512 == 0 && i < n
    ensures i + 512 <= n && (i + 512) % 512 == 0
  {
  }

  // Put a free cluster at the end of the chain being built.
  method TakeCluster(s: FatStore, previousEntry: Word, entry: nat, ghost fat0: seq<Word>, ghost taken: seq<nat>)
    requires s.Valid() && Allocated(s.g, fat0, s.Fat, taken)
    requires previousEntry == if taken == [] then 0 else taken[|taken| - 1]
    requires entry !in taken && s.g.InRange(entry) && IsFree(s.g, fat0, entry)
    modifies s, s.cachedFat
    ensures s.Valid() && Allocated(s.g, fat0, s.Fat, taken + [entry])
    ensures Zeroed(s.g, old(s.disk), s.disk, [entry])
  {
    AllocatedExtend(s.g, fat0, s.Fat, taken, entry);
    if previousEntry != 0 {
      InRangeIsNext(s.g, entry);
      s.SetFatEntry(previousEntry, entry);
    }
    s.SetFatEntry(entry, FAT_CLUSTER_LAST);
    ZeroCluster(s, entry);
  }

  // One step of the scan: take the cluster if it is free.
  method ExamineCluster(s: FatStore, previousEntry: Word, entry: Word, ghost fat0: seq<Word>, ghost disk0: seq<Byte>,
          ghost taken: seq<nat>)
    returns (free: bool, ghost now: seq<nat>)
    requires s.Valid() && Allocated(s.g, fat0, s.Fat, taken) && Zeroed(s.g, disk0, s.disk, taken)
    requires previousEntry == if taken == [] then 0 else taken[|taken| - 1]
    requires entry !in taken && s.g.InRange(entry)
    modifies s, s.cachedFat
    ensures s.Valid() && free == IsFree(s.g, fat0, entry)
    ensures now == if free then taken + [entry as nat] else taken
    ensures Allocated(s.g, fat0, s.Fat, now) && Zeroed(s.g, disk0, s.disk, now)
  {
    var fatEntry := s.LookupFatEntry(entry);
    free := s.g.InterpretClusterType(fatEntry).Available?;
    now := if free then taken + [entry as nat] else taken;
    if free {
      ghost var disk1 := s.disk;
      TakeCluster(s, previousEntry, entry, fat0, taken);
      ZeroedMore(s.g, disk0, disk1, s.disk, taken, entry);
    }
  }

  lemma ScanStart(s: FatStore, hint: Word)
    requires s.Valid() && hint >= 2
    ensures |s.Fat| == s.g.clusters + 2 < 0x1_0000 && s.g.Valid() && s.g.clusters >= 1 && s.g.bytesPerCluster > 0
    ensures Allocated(s.g, s.Fat, s.Fat, []) && Zeroed(s.g, s.disk, s.disk, [])
    ensures FreeOf(s.g, s.Fat, ScanOrder(s.g, hint), 0) == []
  {
  }

  method AllocateClusters(s: FatStore, clusterCount: nat, hint: Word)
    returns (status: Status, allocatedEntry: Word, ghost taken: seq<nat>)
    requires s.Valid() && hint >= 2
    modifies s, s.cachedFat
    ensures s.Valid()
    // It takes the first free clusters of the scan, ...
    ensures var scan := FreeInScan(s.g, old(s.Fat), hint);
            if clusterCount <= |scan|
            then status == ESUCCESS && taken == scan[..clusterCount]
            else status == ENOSPC && taken == AllFree(s.g, old(s.Fat), hint)
    // ... links them into a chain, changing no other entry, and zeroes them.
    ensures Allocated(s.g, old(s.Fat), s.Fat, taken)
    ensures Zeroed(s.g, old(s.disk), s.disk, taken)
    ensures taken != [] ==> allocatedEntry == taken[0]
  {
    hide FatStore.Valid, Allocated, Zeroed, ScanOrder, FreeOf, Examine, Geometry.Valid;
    var totalClusters := s.g.clusters;
    var previousEntry: Word := 0;
    var currentClusterCount := 0;
    allocatedEntry, taken := 0, [];
    ScanStart(s, hint);
    ghost var fat0, disk0, order := s.Fat, s.disk, ScanOrder(s.g, hint);
    ghost var scan := FreeInScan(s.g, fat0, hint);
    for j := 0 to totalClusters
      invariant s.Valid()
      invariant currentClusterCount == |taken| <= clusterCount
      invariant taken == FreeOf(s.g, fat0, order, j)
      invariant Allocated(s.g, fat0, s.Fat, taken)
      invariant Zeroed(s.g, disk0, s.disk, taken)
      invariant previousEntry == if taken == [] then 0 else taken[|taken| - 1]
      invariant (previousEntry == 0 <==> taken == []) && (taken != [] ==> allocatedEntry == taken[0])
      invariant j == totalClusters ==> |scan| < clusterCount
    {
      ScanStep(s.g, fat0, hint, j);
      if currentClusterCount >= clusterCount {
        return ESUCCESS, allocatedEntry, taken;
      }
      var entryToExamine: Word := Examine(s.g, hint, j);
      var free;
      free, taken := ExamineCluster(s, previousEntry, entryToExamine, fat0, disk0, taken);
      if free {
        if previousEntry == 0 {
          allocatedEntry := entryToExamine;
        }
        previousEntry := entryToExamine;
        currentClusterCount := currentClusterCount + 1;
      }
    }
    return ENOSPC, allocatedEntry, taken;
  }
}
