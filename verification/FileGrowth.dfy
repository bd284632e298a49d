/** What a file has gained when growing it is reported as done: the clusters it needs, one
    after the other, or not. */
module FileGrowth {
  import opened FatFormat
  import opened FatStore
  import opened FatChains
  import opened FatAllocation
  import opened FileTable
  import opened FileAllocation

  // The clusters passed on a walk of n links at most.
  ghost function Passed(g: Geometry, fat: seq<Word>, e: Word, n: nat): (c: seq<nat>)
    requires Linked(g, fat) && (g.IsNext(e) ==> g.InRange(e))
    ensures |c| <= n && (forall k :: 0 <= k < |c| ==> g.InRange(c[k])) && (c != [] ==> c[0] == e)
    decreases n
  {
    if n == 0 || !g.IsNext(e) then [] else [e] + Passed(g, fat, fat[e], n - 1)
  }

  /** A file that starts at e has n different clusters, one after the other. */
  ghost predicate Holds(g: Geometry, fat: seq<Word>, e: Word, n: nat)
    requires Linked(g, fat) && (g.IsNext(e) ==> g.InRange(e))
  {
    |Passed(g, fat, e, n)| == n && Distinct(Passed(g, fat, e, n))
  }

  lemma {:induction false} PassedWalk(g: Geometry, fat: seq<Word>, e: Word, n: nat)
    requires Linked(g, fat) && (g.IsNext(e) ==> g.InRange(e))
    ensures |Passed(g, fat, e, n)| == Walked(g, fat, e, n)
    ensures forall k :: 0 <= k < |Passed(g, fat, e, n)| ==> Passed(g, fat, e, n)[k] == Follow(g, fat, e, k)
    decreases n
  {
    if n > 0 && g.IsNext(e) {
      PassedWalk(g, fat, fat[e], n - 1);
      var c, rest := Passed(g, fat, e, n), Passed(g, fat, fat[e], n - 1);
      forall k | 0 <= k < |c|
        ensures c[k] == Follow(g, fat, e, k)
      {
        if k > 0 {
          assert c[k] == rest[k - 1];
        }
      }
    }
  }

  // Each cluster passed holds the next one, and the last one what ended the walk, if it ended.
  lemma {:induction false} PassedLinks(g: Geometry, fat: seq<Word>, e: Word, n: nat)
    requires Linked(g, fat) && (g.IsNext(e) ==> g.InRange(e))
    ensures var c := Passed(g, fat, e, n);
            && (forall k :: 0 <= k < |c| - 1 ==> fat[c[k]] == c[k + 1] && g.IsNext(fat[c[k]]))
            && (0 < |c| < n ==> !g.IsNext(fat[c[|c| - 1]]))
            && (|c| == 0 < n ==> !g.IsNext(e))
    decreases n
  {
    if n > 0 && g.IsNext(e) {
      PassedLinks(g, fat, fat[e], n - 1);
      var c, rest := Passed(g, fat, e, n), Passed(g, fat, fat[e], n - 1);
      forall k | 0 <= k < |c| - 1
        ensures fat[c[k]] == c[k + 1] && g.IsNext(fat[c[k]])
      {
        if k > 0 {
          assert c[k] == rest[k - 1] && c[k + 1] == rest[k];
        } else {
          assert c[1] == rest[0] == fat[e];
        }
      }
    }
  }

  lemma {:induction false} PassedPrefix(g: Geometry, fat: seq<Word>, e: Word, m: nat, n: nat)
    requires Linked(g, fat) && (g.IsNext(e) ==> g.InRange(e)) && m <= n
    ensures Passed(g, fat, e, m) <= Passed(g, fat, e, n)
    ensures |Passed(g, fat, e, m)| < m ==> Passed(g, fat, e, n) == Passed(g, fat, e, m)
    decreases m
  {
    if m > 0 && g.IsNext(e) {
      PassedPrefix(g, fat, fat[e], m - 1, n - 1);
    }
  }

  // A walk that ends, from its k-th cluster on.
  lemma {:induction false} PassedFrom(g: Geometry, fat: seq<Word>, e: Word, n: nat, k: nat)
    requires Linked(g, fat) && (g.IsNext(e) ==> g.InRange(e))
    requires k < |Passed(g, fat, e, n)| < n
    ensures var c := Passed(g, fat, e, n);
            c[k] < 0x1_0000 && g.IsNext(c[k]) && |Passed(g, fat, c[k], n)| == |c| - k
    decreases k
  {
    if k > 0 {
      PassedFrom(g, fat, fat[e], n - 1, k - 1);
      var rest := Passed(g, fat, fat[e], n - 1);
      assert Passed(g, fat, e, n)[k] == rest[k - 1];
      PassedPrefix(g, fat, rest[k - 1], n - 1, n);
    }
  }

  /** A walk that ends passes no cluster twice. */
  lemma {:induction false} EndingIsDistinct(g: Geometry, fat: seq<Word>, e: Word, n: nat)
    requires Linked(g, fat) && (g.IsNext(e) ==> g.InRange(e)) && |Passed(g, fat, e, n)| < n
    ensures Distinct(Passed(g, fat, e, n))
  {
    var c := Passed(g, fat, e, n);
    forall i, j | 0 <= i < j < |c|
      ensures c[i] != c[j]
    {
      PassedFrom(g, fat, e, n, i);
      PassedFrom(g, fat, e, n, j);
    }
  }

  // The clusters that walks from e get to.
  ghost function Reachable(g: Geometry, fat: seq<Word>, e: Word): set<nat>
    requires Linked(g, fat) && (g.IsNext(e) ==> g.InRange(e))
  {
    set x: nat | 2 <= x < g.clusters + 2 && Reaches(g, fat, e, x)
  }

  ghost predicate Reaches(g: Geometry, fat: seq<Word>, e: Word, x: nat)
    requires Linked(g, fat) && (g.IsNext(e) ==> g.InRange(e))
  {
    exists n: nat :: x in Passed(g, fat, e, n)
  }

  // Once a walk is back at the i-th cluster, after j, it stays among the first j.
  lemma {:induction false} GoesRound(g: Geometry, fat: seq<Word>, e: Word, n: nat, i: nat, j: nat, m: nat)
    requires Linked(g, fat) && (g.IsNext(e) ==> g.InRange(e)) && i < j < |Passed(g, fat, e, n)|
    requires Passed(g, fat, e, n)[i] == Passed(g, fat, e, n)[j]
    ensures forall x :: x in Passed(g, fat, e, m) ==> x in Passed(g, fat, e, n)[..j]
    decreases m
  {
    hide Passed;
    var c, d := Passed(g, fat, e, n), Passed(g, fat, e, m);
    PassedPrefix(g, fat, e, if m < n then m else n, if m < n then n else m);
    if m > 0 {
      GoesRound(g, fat, e, n, i, j, m - 1);
      PassedPrefix(g, fat, e, m - 1, m);
      var b, k := Passed(g, fat, e, m - 1), |d| - 1;
      if |b| < |d| {
        assert d == b + [d[k]];
        if k < j {
          assert d[k] == c[..j][k];
        } else {
          PassedLinks(g, fat, e, m);
          PassedLinks(g, fat, e, n);
          assert b[k - 1] in c[..j];
          var t :| 0 <= t < j && c[..j][t] == b[k - 1];
          assert d[k] == fat[d[k - 1]] == fat[c[t]] == c[t + 1];
          assert d[k] == if t + 1 < j then c[..j][t + 1] else c[..j][i];
        }
      }
    }
  }

  lemma {:induction false} ToSetBound(c: seq<nat>)
    ensures |ToSet(c)| <= |c|
    decreases |c|
  {
    if c != [] {
      var last := |c| - 1;
      ToSetBound(c[..last]);
      assert c == c[..last] + [c[last]];
      assert ToSet(c) == ToSet(c[..last]) + {c[last]};
    }
  }

  lemma Fewer(a: set<nat>, b: set<nat>)
    requires a <= b
    ensures |a| <= |b|
  {
    assert b == a + (b - a);
  }

  /** To have n clusters one after the other is to reach n clusters. */
  lemma HoldsIffReachable(g: Geometry, fat: seq<Word>, e: Word, n: nat)
    requires Linked(g, fat) && (g.IsNext(e) ==> g.InRange(e))
    ensures Holds(g, fat, e, n) <==> |Reachable(g, fat, e)| >= n
  {
    hide Passed, Linked;
    var c, all := Passed(g, fat, e, n), Reachable(g, fat, e);
    if Holds(g, fat, e, n) {
      DistinctCount(c);
      Fewer(ToSet(c), all);
    } else {
      var few := c;
      if |c| < n {
        forall x | x in all
          ensures x in c
        {
          var m: nat :| x in Passed(g, fat, e, m);
          PassedPrefix(g, fat, e, if m < n then m else n, if m < n then n else m);
        }
      } else {
        var i, j :| 0 <= i < j < |c| && c[i] == c[j];
        few := c[..j];
        forall x | x in all
          ensures x in few
        {
          var m: nat :| x in Passed(g, fat, e, m);
          GoesRound(g, fat, e, n, i, j, m);
        }
      }
      ToSetBound(few);
      Fewer(all, ToSet(few));
    }
  }

  // Clusters each of which holds the next are what a walk passes.
  lemma {:induction false} PathPassed(g: Geometry, fat: seq<Word>, p: seq<nat>)
    requires g.Valid() && Linked(g, fat) && |fat| == g.clusters + 2
    requires p != [] && forall k :: 0 <= k < |p| ==> g.InRange(p[k])
    requires forall k :: 0 <= k < |p| - 1 ==> LinksOn(g, fat, p, k)
    ensures p[0] < 0x1_0000 && g.IsNext(p[0]) && Passed(g, fat, p[0], |p|) == p
    decreases |p|
  {
    hide Geometry.Valid;
    InRangeIsNext(g, p[0]);
    if |p| > 1 {
      assert LinksOn(g, fat, p, 0);
      forall k | 0 <= k < |p[1..]| - 1
        ensures LinksOn(g, fat, p[1..], k)
      {
        assert LinksOn(g, fat, p, k + 1);
      }
      PathPassed(g, fat, p[1..]);
      assert p == [p[0]] + p[1..];
    } else {
      assert Passed(g, fat, fat[p[0]], 0) == [];
    }
  }

  /** When growing a file to n clusters, if it is reported as done, gives it these n
      clusters: it had none; or it had that many already; or its chain ends in an entry
      that is not free. All of this can be seen before. */
  ghost predicate WillHold(g: Geometry, fat: seq<Word>, first: Word, n: nat)
    requires Linked(g, fat) && (g.IsNext(first) ==> g.InRange(first))
  {
    || first == FAT_CLUSTER_AVAILABLE
    || Holds(g, fat, first, n)
    || (0 < Walked(g, fat, first, n) < n && LastPassed(g, fat, first, n) < |fat|
        && !IsFree(g, fat, LastPassed(g, fat, first, n)))
  }

  // Where a walk that ended early ended.
  lemma EarlyEnd(g: Geometry, fat: seq<Word>, first: Word, n: nat)
    requires Linked(g, fat) && (g.IsNext(first) ==> g.InRange(first)) && 0 < Walked(g, fat, first, n) < n
    ensures var c := Passed(g, fat, first, n);
            && |c| == Walked(g, fat, first, n) && c[0] == first && LastPassed(g, fat, first, n) == c[|c| - 1]
            && Distinct(c) && !g.IsNext(fat[c[|c| - 1]])
            && forall k :: 0 <= k < |c| - 1 ==> fat[c[k]] == c[k + 1] && g.IsNext(fat[c[k]])
  {
    hide Follow, Walked, Passed, Linked, Distinct;
    PassedWalk(g, fat, first, n);
    PassedLinks(g, fat, first, n);
    EndingIsDistinct(g, fat, first, n);
  }

  // The chain ends in a mark: the clusters taken continue it.
  lemma GrownOn(g: Geometry, fat: seq<Word>, mid: seq<Word>, first: Word, n: nat, taken: seq<nat>)
    requires g.Valid() && Linked(g, fat) && g.IsNext(first) && g.InRange(first) && 0 < Walked(g, fat, first, n) < n
    requires taken != [] && Distinct(taken) && Allocated(g, fat, mid, taken) && taken[0] < 0x1_0000
    requires var last := LastPassed(g, fat, first, n); last < |fat| && !IsFree(g, fat, last)
    requires |taken| == n - Walked(g, fat, first, n)
    ensures var fat' := mid[LastPassed(g, fat, first, n) := taken[0]];
            Linked(g, fat') && Holds(g, fat', first, n)
  {
    hide Geometry.Valid, Follow, Walked, Passed;
    EarlyEnd(g, fat, first, n);
    var c, fat' := Passed(g, fat, first, n), mid[LastPassed(g, fat, first, n) := taken[0]];
    LinkedOn(g, fat, mid, taken, LastPassed(g, fat, first, n));
    var p := c + taken;
    NotTaken(g, fat, c, taken);
    forall k | 0 <= k < |p| - 1
      ensures LinksOn(g, fat', p, k)
    {
      if k < |c| {
        assert c[k] !in taken;
      } else {
        assert LinksOn(g, mid, taken, k - |c|) && taken[k - |c|] in taken;
      }
    }
    PathPassed(g, fat', p);
  }

  // Clusters that hold something are not among those taken.
  lemma NotTaken(g: Geometry, fat: seq<Word>, c: seq<nat>, taken: seq<nat>)
    requires |fat| == g.clusters + 2 && (forall k :: 0 <= k < |c| ==> g.InRange(c[k]) && !IsFree(g, fat, c[k]))
    requires forall e :: e in taken ==> g.InRange(e) && IsFree(g, fat, e)
    ensures Disjoint(c, taken) && forall k :: 0 <= k < |c| ==> c[k] !in taken
  {
  }

  // The scan looks at the hint itself first.
  lemma HintTakenFirst(g: Geometry, fat: seq<Word>, hint: Word)
    requires |fat| == g.clusters + 2 && g.InRange(hint) && IsFree(g, fat, hint) && FreeInScan(g, fat, hint) != []
    ensures FreeInScan(g, fat, hint)[0] == hint
  {
    var order := ScanOrder(g, hint);
    assert order[0] == hint;
    if g.clusters > 1 {
      assert FreeOf(g, fat, order, 1) == [order[0]];
      FreeOfPrefix(g, fat, order, 1, g.clusters - 1);
    }
  }

  // The chain ends in a free entry: the first cluster taken is that end, which then holds itself.
  lemma GrownIntoLoop(g: Geometry, fat: seq<Word>, mid: seq<Word>, first: Word, n: nat, taken: seq<nat>)
    requires g.Valid() && Linked(g, fat) && g.IsNext(first) && g.InRange(first) && 0 < Walked(g, fat, first, n) < n
    requires taken != [] && Allocated(g, fat, mid, taken) && taken[0] == LastPassed(g, fat, first, n)
    ensures taken[0] < |mid| && taken[0] < 0x1_0000
    ensures var fat' := mid[taken[0] := taken[0]]; Linked(g, fat') && !Holds(g, fat', first, n)
  {
    hide Geometry.Valid, Follow, Walked, Passed;
    EarlyEnd(g, fat, first, n);
    var c := Passed(g, fat, first, n);
    var last := c[|c| - 1];
    LinkedOn(g, fat, mid, taken, taken[0]);
    var fat', p := mid[taken[0] := taken[0]], c + [last];
    forall k | 0 <= k < |p| - 1
      ensures LinksOn(g, fat', p, k)
    {
      if k < |c| - 1 {
        assert !IsFree(g, fat, c[k]);
        assert c[k] !in taken;
      }
    }
    PathPassed(g, fat', p);
    PassedPrefix(g, fat', first, |p|, n);
    var q := Passed(g, fat', first, n);
    assert q[|c| - 1] == p[|c| - 1] == last && q[|c|] == p[|c|] == last;
  }

  lemma TakenFacts(g: Geometry, fat: seq<Word>, mid: seq<Word>, last: Word, n: nat, taken: seq<nat>)
    requires g.Valid() && Linked(g, fat) && 0 < n && g.InRange(last) && n <= |FreeInScan(g, fat, last)|
    requires taken == FreeInScan(g, fat, last)[..n] && Allocated(g, fat, mid, taken)
    ensures |taken| == n && Distinct(taken) && taken[0] == FreeInScan(g, fat, last)[0] && g.InRange(taken[0])
    ensures 0 <= taken[0] < 0x1_0000 && Stored(g.bits, taken[0]) == taken[0] && |mid| == |fat| == g.clusters + 2
    ensures Linked(g, mid) && Linked(g, mid[last := taken[0]]) && g.IsNext(taken[0])
  {
    ScanDistinct(g, fat, last);
    LinkedOn(g, fat, mid, taken, last);
    assert taken[0] in taken;
    InRangeIsNext(g, taken[0]);
  }

  // The new chain of a file that had none.
  lemma NewHolds(g: Geometry, fat: seq<Word>, c: seq<nat>)
    requires g.Valid() && Linked(g, fat) && Chain(g, fat, c)
    ensures c[0] < 0x1_0000 && g.InRange(c[0]) && Holds(g, fat, c[0], |c|)
  {
    hide Geometry.Valid, Passed;
    PathPassed(g, fat, c);
    ChainDistinct(g, fat, c);
  }

  // A walk that ends early finds too few clusters.
  lemma TooShort(g: Geometry, fat: seq<Word>, e: Word, n: nat)
    requires Linked(g, fat) && (g.IsNext(e) ==> g.InRange(e)) && Walked(g, fat, e, n) < n
    ensures !Holds(g, fat, e, n)
  {
    PassedWalk(g, fat, e, n);
  }

  lemma NoneNeeded(g: Geometry, fat: seq<Word>, e: Word)
    requires Linked(g, fat) && (g.IsNext(e) ==> g.InRange(e))
    ensures Holds(g, fat, e, 0)
  {
  }

  lemma OneCluster(g: Geometry)
    requires g.Valid()
    ensures g.InRange(2)
  {
  }

  lemma NoLink(g: Geometry, fat: seq<Word>, e: Word, n: nat)
    requires Linked(g, fat) && !g.IsNext(e)
    ensures Walked(g, fat, e, n) == 0 && LastPassed(g, fat, e, n) == 2
  {
  }

  lemma SomeLink(g: Geometry, fat: seq<Word>, e: Word, n: nat)
    requires g.Valid() && Linked(g, fat) && g.IsNext(e) && g.InRange(e) && n > 0
    ensures Walked(g, fat, e, n) > 0 && e != FAT_CLUSTER_AVAILABLE
  {
  }

  lemma GrownHolds(g: Geometry, fat: seq<Word>, mid: seq<Word>, fat': seq<Word>, d: seq<Byte>, d': seq<Byte>,
          f: FileEntry, f': FileEntry, byteSize: nat, taken: seq<nat>)
    requires g.Valid() && g.bytesPerCluster > 0 && |mid| == |fat| && Linked(g, fat)
    requires g.IsNext(f.dirent.firstCluster) ==> g.InRange(f.dirent.firstCluster)
    requires Increased(g, fat, mid, fat', d, d', f, f', byteSize, taken, ESUCCESS)
    ensures Linked(g, fat') && (g.IsNext(f'.dirent.firstCluster) ==> g.InRange(f'.dirent.firstCluster))
    ensures Holds(g, fat', f'.dirent.firstCluster, ClustersNeeded(g, byteSize))
            <==> WillHold(g, fat, f.dirent.firstCluster, ClustersNeeded(g, byteSize))
  {
    hide Geometry.Valid, Follow, Walked, Passed, FreeInScan, ClustersNeeded, Encode, Zeroed, Updated, SameData, Linked,
        LastPassed, Holds, Stored, Chain;
    var n, first := ClustersNeeded(g, byteSize), f.dirent.firstCluster;
    var i, last := Walked(g, fat, first, n), LastPassed(g, fat, first, n);
    if i < n {
      OneCluster(g);
      TakenFacts(g, fat, mid, last, n - i, taken);
      TooShort(g, fat, first, n);
      if !g.IsNext(first) {
        NoLink(g, fat, first, n);
        if first == FAT_CLUSTER_AVAILABLE {
          NewHolds(g, mid, taken);
        } else {
          NoLink(g, fat', first, n);
          TooShort(g, fat', first, n);
        }
      } else {
        SomeLink(g, fat, first, n);
        if IsFree(g, fat, last) {
          HintTakenFirst(g, fat, last);
          GrownIntoLoop(g, fat, mid, first, n, taken);
        } else {
          GrownOn(g, fat, mid, first, n, taken);
        }
      }
    } else if first == FAT_CLUSTER_AVAILABLE {
      AvailableIsNoLink(g, first);
      NoLink(g, fat, first, n);
      NoneNeeded(g, fat, first);
    }
  }

  /** Growing that is reported as done gives the file the clusters its new size needs if
      and only if WillHold says so of the FAT before. */
  lemma GrowthHoldsIff(g: Geometry, fat: seq<Word>, mid: seq<Word>, fat': seq<Word>, d: seq<Byte>, d': seq<Byte>,
          f: FileEntry, f': FileEntry, byteSize: nat, taken: seq<nat>)
    requires g.Valid() && g.bytesPerCluster > 0 && |mid| == |fat| && Linked(g, fat)
    requires g.IsNext(f.dirent.firstCluster) ==> g.InRange(f.dirent.firstCluster)
    requires Increased(g, fat, mid, fat', d, d', f, f', byteSize, taken, ESUCCESS)
    ensures Linked(g, fat') && (g.IsNext(f'.dirent.firstCluster) ==> g.InRange(f'.dirent.firstCluster))
    ensures |Reachable(g, fat', f'.dirent.firstCluster)| >= ClustersNeeded(g, byteSize)
            <==> WillHold(g, fat, f.dirent.firstCluster, ClustersNeeded(g, byteSize))
  {
    hide Geometry.Valid, Increased, WillHold, Reachable, ClustersNeeded, Linked;
    GrownHolds(g, fat, mid, fat', d, d', f, f', byteSize, taken);
    HoldsIffReachable(g, fat', f'.dirent.firstCluster, ClustersNeeded(g, byteSize));
  }

  lemma SmallScan(g: Geometry, fat: seq<Word>)
    requires g == SMALL.Layout() && |fat| == 6
    ensures g.Valid() && g == Geometry(12, 4, 512, 512, 1536, 2, 3584, 512, 4096, 6144)
    ensures FreeInScan(g, fat, 2) == FreeOf(g, fat, [2, 3, 4, 5], 3)
  {
    SmallLayout();
    assert ScanOrder(g, 2) == [2, 3, 4, 5];
  }

  // What the entries of the examples mean on a FAT12 volume.
  lemma SmallTypes(g: Geometry)
    requires g.bits == 12
    ensures g.InterpretClusterType(0).Available? && g.InterpretClusterType(0xfff).Last?
    ensures g.InterpretClusterType(0xff7).Bad? && g.IsNext(2) && g.IsNext(3)
    ensures Stored(g.bits, 2) == 2 && Stored(g.bits, 3) == 3
  {
  }

  lemma BadMarkBefore(g: Geometry, fat: seq<Word>, mid: seq<Word>)
    requires g == SMALL.Layout() && fat == [0xff8, 0xfff, 0xfff, 0, 0, 0] && mid == fat[3 := 0xfff]
    ensures g.Valid() && g == Geometry(12, 4, 512, 512, 1536, 2, 3584, 512, 4096, 6144)
    ensures Linked(g, fat) && Chain(g, fat, [2]) && FreeInScan(g, fat, 2) == [3, 4] && Allocated(g, fat, mid, [3])
  {
    hide Bpb.Layout, Geometry.Valid, Geometry.InterpretClusterType, ScanOrder, FreeInScan;
    SmallScan(g, fat);
    SmallTypes(g);
    assert FreeOf(g, fat, [2, 3, 4, 5], 1) == [];
    assert FreeOf(g, fat, [2, 3, 4, 5], 2) == [3];
    assert FreeOf(g, fat, [2, 3, 4, 5], 3) == [3, 4];
  }

  lemma BadMarkAfter(g: Geometry, fat': seq<Word>)
    requires g == Geometry(12, 4, 512, 512, 1536, 2, 3584, 512, 4096, 6144) && fat' == [0xff8, 0xfff, 3, 0xfff, 0, 0]
    ensures Linked(g, fat') && Chain(g, fat', [2, 3]) && Passed(g, fat', 0xff7, 1) == []
  {
    hide Geometry.Valid, Geometry.InterpretClusterType;
    SmallTypes(g);
    assert LinksOn(g, fat', [2, 3], 0);
  }

  /** A file whose first cluster is a bad mark is grown to one byte: done, it is said, and
      the cluster taken continues the file in cluster 2. */
  lemma BadMarkGrowth(g: Geometry, f: FileEntry, d: seq<Byte>, d': seq<Byte>)
    requires g == SMALL.Layout() && f.dirent.firstCluster == 0xff7
    requires g.bytesPerCluster > 0 && Zeroed(g, d, d', [3])
    ensures var fat := [0xff8, 0xfff, 0xfff, 0, 0, 0];
            var mid, fat' := fat[3 := 0xfff], [0xff8, 0xfff, 3, 0xfff, 0, 0];
            && g.Valid() && Linked(g, fat) && Linked(g, fat')
            && !g.IsNext(f.dirent.firstCluster) && Chain(g, fat, [2])
            && Increased(g, fat, mid, fat', d, d', f, f, 1, [3], ESUCCESS)
            && Chain(g, fat', [2, 3]) && Passed(g, fat', f.dirent.firstCluster, 1) == []
  {
    hide Bpb.Layout, Geometry.Valid, Geometry.InterpretClusterType, Zeroed, Linked, Chain, Walked, LastPassed,
        FreeInScan, Passed, Allocated, Stored;
    var fat: seq<Word> := [0xff8, 0xfff, 0xfff, 0, 0, 0];
    BadMarkBefore(g, fat, fat[3 := 0xfff]);
    BadMarkAfter(g, [0xff8, 0xfff, 3, 0xfff, 0, 0]);
    SmallTypes(g);
    NoLink(g, fat, 0xff7, 1);
  }

  lemma SelfLoopBefore(g: Geometry, fat: seq<Word>, mid: seq<Word>)
    requires g == SMALL.Layout() && fat == [0xff8, 0xfff, 0, 0, 0, 0] && mid == fat[2 := 0xfff]
    ensures g.Valid() && g == Geometry(12, 4, 512, 512, 1536, 2, 3584, 512, 4096, 6144)
    ensures Linked(g, fat) && Allocated(g, fat, mid, [2])
    ensures FreeInScan(g, fat, 2) != [] && FreeInScan(g, fat, 2)[0] == 2
    ensures g.IsNext(2) && Walked(g, fat, 2, 2) == 1 && LastPassed(g, fat, 2, 2) == 2
  {
    hide Bpb.Layout, Geometry.Valid, Geometry.InterpretClusterType, ScanOrder, FreeInScan;
    SmallScan(g, fat);
    SmallTypes(g);
    assert FreeOf(g, fat, [2, 3, 4, 5], 1) == [2];
    FreeOfPrefix(g, fat, [2, 3, 4, 5], 1, 3);
    assert Walked(g, fat, 0, 1) == 0;
    FollowFirst(g, fat, 2);
  }

  lemma {:induction false} OnlyItself(g: Geometry, fat: seq<Word>, n: nat, x: nat)
    requires Linked(g, fat) && g.InRange(2) && fat[2] == 2 && x in Passed(g, fat, 2, n)
    ensures x == 2
    decreases n
  {
    if n > 0 && x in Passed(g, fat, fat[2], n - 1) {
      OnlyItself(g, fat, n - 1, x);
    }
  }

  lemma SelfLoopAfter(g: Geometry, fat': seq<Word>)
    requires g == Geometry(12, 4, 512, 512, 1536, 2, 3584, 512, 4096, 6144) && fat' == [0xff8, 0xfff, 2, 0, 0, 0]
    ensures Linked(g, fat') && g.InRange(2) && Reachable(g, fat', 2) == {2}
  {
    hide Geometry.Valid, Geometry.InterpretClusterType;
    SmallTypes(g);
    forall n: nat, x | x in Passed(g, fat', 2, n)
      ensures x == 2
    {
      OnlyItself(g, fat', n, x);
    }
    assert Passed(g, fat', 2, 1) == [2];
    assert Reaches(g, fat', 2, 2);
  }

  /** A file whose one cluster holds a free entry is grown to two: the cluster taken is its
      own, which is left pointing at itself. */
  lemma SelfLoopGrowth(g: Geometry, f: FileEntry, d: seq<Byte>, d': seq<Byte>)
    requires g == SMALL.Layout() && f.dirent.firstCluster == 2
    requires g.bytesPerCluster > 0 && Zeroed(g, d, d', [2])
    ensures var fat := [0xff8, 0xfff, 0, 0, 0, 0];
            var mid, fat' := fat[2 := 0xfff], [0xff8, 0xfff, 2, 0, 0, 0];
            && g.Valid() && Linked(g, fat) && Linked(g, fat') && ClustersNeeded(g, 513) == 2
            && g.IsNext(2) && g.InRange(2) && Increased(g, fat, mid, fat', d, d', f, f, 513, [2], ESUCCESS)
            && Reachable(g, fat', 2) == {2}
  {
    hide Bpb.Layout, Geometry.Valid, Geometry.InterpretClusterType, Zeroed, Linked, Chain, Walked, LastPassed,
        FreeInScan, Reachable, Allocated, Stored;
    var fat: seq<Word> := [0xff8, 0xfff, 0, 0, 0, 0];
    SelfLoopBefore(g, fat, fat[2 := 0xfff]);
    SelfLoopAfter(g, [0xff8, 0xfff, 2, 0, 0, 0]);
    SmallTypes(g);
  }
}
