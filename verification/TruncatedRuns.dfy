/** What cutting a file down means for a run list filled before: the run list is not
    refilled, and when it stays right. */
module TruncatedRuns {
  import opened FatFormat
  import opened FatChains
  import opened FileTable
  import opened FileAllocation
  import opened FileRuns
  import opened FileData
  import Arith

  lemma {:induction false} RunsAscend(g: Geometry, fat: seq<Word>, f: FileEntry, vs: seq<nat>, ls: seq<nat>, n: nat,
          i: nat)
    requires Walkable(g, fat, f) && RunsOk(g, fat, f, vs, ls, n) && i <= n
    ensures vs[i] <= vs[n]
    decreases n - i
  {
    if i < n {
      RunsAscend(g, fat, f, vs, ls, n, i + 1);
      assert RunOk(g, fat, f, vs, ls, i);
    }
  }

  lemma LastRunByte(g: Geometry, fat: seq<Word>, f: FileEntry, vs: seq<nat>, ls: seq<nat>, n: nat)
    requires Walkable(g, fat, f) && RunsOk(g, fat, f, vs, ls, n) && n > 0
    ensures vs[n] > 0 && LboAt(g, fat, f, vs[n] - 1).Some?
  {
    assert RunOk(g, fat, f, vs, ls, n - 1);
    var u := vs[n] - 1;
    assert LboAt(g, fat, f, u) == Some(ls[n - 1] + (u - vs[n - 1]));
  }

  // f' is f with its chain c cut down to the first `keep` clusters.
  ghost predicate CutDown(g: Geometry, fat: seq<Word>, fat': seq<Word>, f: FileEntry, f': FileEntry, c: seq<nat>,
          keep: nat)
  {
    && g.Valid() && Linked(g, fat) && Linked(g, fat') && keep <= |c|
    && f.direntLbo != 0 && f'.direntLbo != 0
    && FileChain(g, fat, f.dirent.firstCluster, c) && FileChain(g, fat', f'.dirent.firstCluster, c[..keep])
  }

  lemma CutPlaces(g: Geometry, fat: seq<Word>, fat': seq<Word>, f: FileEntry, f': FileEntry, c: seq<nat>, keep: nat,
          u: nat)
    requires CutDown(g, fat, fat', f, f', c, keep)
    ensures Walkable(g, fat, f) && Walkable(g, fat', f')
    ensures LboAt(g, fat', f', u) == if u < Capacity(g, c[..keep]) then LboAt(g, fat, f, u) else None
  {
    LboAtIsChainWalk(g, fat, f, c, u);
    LboAtIsChainWalk(g, fat', f', c[..keep], u);
    ChainWalkPlace(g, c[..keep], u);
    if u < Capacity(g, c[..keep]) {
      assert c == c[..keep] + c[keep..];
      ChainWalkPrefix(g, c[..keep], c[keep..], u);
    }
  }

  /** A run list that was right for a file is right after the file is cut down exactly
      if no run reaches past what is left, which the offsets in the list tell. */
  lemma RunsAfterTruncation(g: Geometry, fat: seq<Word>, fat': seq<Word>, f: FileEntry, f': FileEntry, c: seq<nat>,
          keep: nat, vs: seq<nat>, ls: seq<nat>, n: nat)
    requires CutDown(g, fat, fat', f, f', c, keep)
    requires Walkable(g, fat, f) && RunsOk(g, fat, f, vs, ls, n)
    ensures Walkable(g, fat', f')
    ensures RunsOk(g, fat', f', vs, ls, n) <==> n == 0 || vs[n] <= Capacity(g, c[..keep])
  {
    hide Geometry.Valid, LboAt, FileChain, Linked;
    CutPlaces(g, fat, fat', f, f', c, keep, 0);
    if n > 0 {
      assert RunOk(g, fat, f, vs, ls, n - 1);
      if vs[n] <= Capacity(g, c[..keep]) {
        forall i: nat | i < n
          ensures RunOk(g, fat', f', vs, ls, i)
        {
          RunStays(g, fat, fat', f, f', c, keep, vs, ls, n, i);
        }
      } else {
        var u := vs[n] - 1;
        CutPlaces(g, fat, fat', f, f', c, keep, u);
        if RunsOk(g, fat', f', vs, ls, n) {
          LastRunByte(g, fat', f', vs, ls, n);
        }
      }
    }
  }

  lemma RunStays(g: Geometry, fat: seq<Word>, fat': seq<Word>, f: FileEntry, f': FileEntry, c: seq<nat>, keep: nat,
          vs: seq<nat>, ls: seq<nat>, n: nat, i: nat)
    requires CutDown(g, fat, fat', f, f', c, keep) && i < n
    requires Walkable(g, fat, f) && RunsOk(g, fat, f, vs, ls, n) && vs[n] <= Capacity(g, c[..keep])
    ensures Walkable(g, fat', f') && RunOk(g, fat', f', vs, ls, i)
  {
    hide Geometry.Valid, LboAt, FileChain, Linked;
    CutPlaces(g, fat, fat', f, f', c, keep, 0);
    assert RunOk(g, fat, f, vs, ls, i);
    RunsAscend(g, fat, f, vs, ls, n, i + 1);
    forall u: nat | vs[i] <= u < vs[i] + (vs[i + 1] - vs[i])
      ensures LboAt(g, fat', f', u) == Some(ls[i] + (u - vs[i]))
    {
      CutPlaces(g, fat, fat', f, f', c, keep, u);
      assert LboAt(g, fat, f, u) == Some(ls[i] + (u - vs[i]));
    }
  }

  // The FAT of a small volume with one file, in clusters 2 and 3.
  const ONE_FILE: seq<Word> := [0xff8, 0xfff, 3, 0xfff, 0, 0]

  lemma OneFile(u: nat)
    ensures var g := SMALL.Layout();
            && g.Valid() && Linked(g, ONE_FILE) && Chain(g, ONE_FILE, [2, 3])
            && (u < 1024 ==> Walk(g, ONE_FILE, 2, u) == Some(4096 + u))
  {
    SmallLayout();
    var g := SMALL.Layout();
    assert LinksOn(g, ONE_FILE, [2, 3], 0);
    Arith.TimesIsProduct(0, 512);
    Arith.TimesIsProduct(1, 512);
    WalkChain(g, ONE_FILE, [2, 3], u);
  }

  /** A run list can go stale: that of this file, which has one run, when the file is cut
      down to one cluster. */
  lemma RunsGoStale(f: FileEntry)
    requires f.dirent.firstCluster == 2 && f.direntLbo != 0
    ensures var g := SMALL.Layout();
            && g.Valid() && Linked(g, ONE_FILE) && |ONE_FILE| == g.clusters + 2
            && var fat' := Truncated(g, ONE_FILE, 2, 1);
               && CutDown(g, ONE_FILE, fat', f, f, [2, 3], 1)
               && Walkable(g, ONE_FILE, f) && RunsOk(g, ONE_FILE, f, [0, 1024], [4096, 0], 1)
               && Walkable(g, fat', f) && !RunsOk(g, fat', f, [0, 1024], [4096, 0], 1)
  {
    hide Geometry.Valid, Linked, Chain, Truncated, Walk, CutAt, Bpb.Layout;
    SmallLayout();
    var g := SMALL.Layout();
    OneFile(0);
    TruncatedChain(g, ONE_FILE, [2, 3], 1);
    var fat' := Truncated(g, ONE_FILE, 2, 1);
    assert [2, 3][..1] == [2];
    assert CutDown(g, ONE_FILE, fat', f, f, [2, 3], 1);
    CutPlaces(g, ONE_FILE, fat', f, f, [2, 3], 1, 0);
    forall u: nat | 0 <= u < 1024
      ensures LboAt(g, ONE_FILE, f, u) == Some(4096 + u)
    {
      OneFile(u);
    }
    assert RunOk(g, ONE_FILE, f, [0, 1024], [4096, 0], 0);
    Arith.TimesIsProduct(1, 512);
    RunsAfterTruncation(g, ONE_FILE, fat', f, f, [2, 3], 1, [0, 1024], [4096, 0], 1);
  }
}
