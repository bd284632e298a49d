/** Cluster chains as a matter of the FAT alone: what a chain is, what walking one
    gives, and what editing the FAT does to chains. */
module FatChains {
  import opened FatFormat
  import Arith

  // Every link stays inside the volume.
  ghost predicate Linked(g: Geometry, fat: seq<Word>) {
    && |fat| == g.clusters + 2
    && forall i :: 2 <= i < |fat| && g.IsNext(fat[i]) ==> g.InRange(fat[i])
  }

  // The entry of c[k] holds c[k + 1].
  ghost predicate LinksOn(g: Geometry, fat: seq<Word>, c: seq<nat>, k: int)
    requires |fat| == g.clusters + 2
  {
    0 <= k < |c| - 1 && g.InRange(c[k]) && fat[c[k]] == c[k + 1]
  }

  // c is the whole chain that starts at c[0], ended by a last mark.
  ghost predicate Chain(g: Geometry, fat: seq<Word>, c: seq<nat>)
    requires |fat| == g.clusters + 2
  {
    && c != []
    && (forall k :: 0 <= k < |c| ==> g.InRange(c[k]))
    && (forall k :: 0 <= k < |c| - 1 ==> LinksOn(g, fat, c, k))
    && g.InterpretClusterType(fat[c[|c| - 1]]).Last?
  }

  // c is the chain of a file whose directory entry holds `first`.
  ghost predicate FileChain(g: Geometry, fat: seq<Word>, first: Word, c: seq<nat>)
    requires |fat| == g.clusters + 2
  {
    if c == [] then first == FAT_CLUSTER_AVAILABLE else first == c[0] && Chain(g, fat, c)
  }

  ghost predicate Distinct(c: seq<nat>) {
    forall i, j :: 0 <= i < j < |c| ==> c[i] != c[j]
  }

  ghost predicate Disjoint(c: seq<nat>, d: seq<nat>) {
    forall i, j :: 0 <= i < |c| && 0 <= j < |d| ==> c[i] != d[j]
  }

  ghost predicate IsFree(g: Geometry, fat: seq<Word>, i: nat)
    requires i < |fat|
  {
    g.InterpretClusterType(fat[i]).Available?
  }

  ghost function FreeSet(g: Geometry, fat: seq<Word>): set<nat>
    requires |fat| == g.clusters + 2
  {
    set i: nat | 2 <= i < g.clusters + 2 && IsFree(g, fat, i)
  }

  lemma InRangeIsNext(g: Geometry, i: nat)
    requires g.Valid() && g.InRange(i)
    ensures i < 0x1_0000 && g.IsNext(i) && Stored(g.bits, i) == i && g.bytesPerCluster > 0
  {
  }

  lemma LinkStep(g: Geometry, fat: seq<Word>, c: seq<nat>, k: nat)
    requires g.Valid() && |fat| == g.clusters + 2 && Chain(g, fat, c) && k + 1 < |c|
    ensures fat[c[k]] == c[k + 1] && g.IsNext(fat[c[k]])
  {
    assert LinksOn(g, fat, c, k) && g.InRange(c[k + 1]);
    InRangeIsNext(g, fat[c[k]]);
  }

  lemma ChainSuffix(g: Geometry, fat: seq<Word>, c: seq<nat>, k: nat)
    requires |fat| == g.clusters + 2 && Chain(g, fat, c) && k < |c|
    ensures Chain(g, fat, c[k..])
  {
    forall i | 0 <= i < |c[k..]| - 1
      ensures LinksOn(g, fat, c[k..], i)
    {
      assert LinksOn(g, fat, c, k + i);
    }
  }

  // A chain that ends cannot pass through a cluster twice.
  lemma ChainDistinct(g: Geometry, fat: seq<Word>, c: seq<nat>)
    requires g.Valid() && |fat| == g.clusters + 2 && Chain(g, fat, c)
    ensures Distinct(c)
  {
    forall i, j | 0 <= i < j < |c|
      ensures c[i] != c[j]
    {
      if c[i] == c[j] {
        SameTail(g, fat, c, c, i, j);
      }
    }
  }

  /** Two chains that meet agree from there to the end. */
  lemma {:induction false} SameTail(g: Geometry, fat: seq<Word>, c: seq<nat>, d: seq<nat>, i: nat, j: nat)
    requires g.Valid() && |fat| == g.clusters + 2 && Chain(g, fat, c) && Chain(g, fat, d)
    requires i < |c| && j < |d| && c[i] == d[j]
    ensures c[i..] == d[j..]
    decreases |c| - i
  {
    if i + 1 < |c| {
      LinkStep(g, fat, c, i);
      if j + 1 < |d| {
        LinkStep(g, fat, d, j);
        SameTail(g, fat, c, d, i + 1, j + 1);
        assert c[i..] == [c[i]] + c[i + 1..] && d[j..] == [d[j]] + d[j + 1..];
      }
    } else if j + 1 < |d| {
      LinkStep(g, fat, d, j);
    }
  }

  // No cluster of a chain is free.
  lemma ChainNotFree(g: Geometry, fat: seq<Word>, c: seq<nat>)
    requires g.Valid() && |fat| == g.clusters + 2 && Chain(g, fat, c)
    ensures forall k :: 0 <= k < |c| ==> !IsFree(g, fat, c[k])
  {
    forall k | 0 <= k < |c|
      ensures !IsFree(g, fat, c[k])
    {
      if k + 1 < |c| {
        LinkStep(g, fat, c, k);
      }
    }
  }

  lemma ChainFrame(g: Geometry, fat: seq<Word>, fat': seq<Word>, c: seq<nat>)
    requires |fat| == |fat'| == g.clusters + 2 && Chain(g, fat, c)
    requires forall k :: 0 <= k < |c| ==> fat'[c[k]] == fat[c[k]]
    ensures Chain(g, fat', c)
  {
    forall k | 0 <= k < |c| - 1
      ensures LinksOn(g, fat', c, k)
    {
      assert LinksOn(g, fat, c, k);
    }
  }

  // Linking the end of one chain to the start of another joins them.
  lemma ChainJoin(g: Geometry, fat: seq<Word>, c: seq<nat>, d: seq<nat>)
    requires g.Valid() && |fat| == g.clusters + 2
    requires Chain(g, fat, c) && Chain(g, fat, d) && Disjoint(c, d)
    ensures Chain(g, fat[c[|c| - 1] := d[0]], c + d)
  {
    var fat' := fat[c[|c| - 1] := d[0]];
    ChainDistinct(g, fat, c);
    forall k | 0 <= k < |c + d| - 1
      ensures LinksOn(g, fat', c + d, k)
    {
      if k < |c| - 1 {
        assert LinksOn(g, fat, c, k);
      } else if k >= |c| {
        assert LinksOn(g, fat, d, k - |c|) && d[k - |c|] != c[|c| - 1];
      }
    }
  }

  /** The reference: the device offset of byte v of the chain that starts at e,
      found by walking the chain one cluster at a time. */
  ghost function Walk(g: Geometry, fat: seq<Word>, e: Word, v: nat): Option<nat>
    requires g.Valid() && Linked(g, fat) && (g.IsNext(e) ==> g.InRange(e))
    decreases v
  {
    if !g.IsNext(e) then None
    else if v < g.bytesPerCluster then Some(g.IndexToLbo(e) + v)
    else Walk(g, fat, fat[e], v - g.bytesPerCluster)
  }

  // In closed form: byte v lies in cluster v / size of the chain, at v mod size.
  lemma {:induction false} WalkChain(g: Geometry, fat: seq<Word>, c: seq<nat>, v: nat)
    requires g.Valid() && Linked(g, fat) && Chain(g, fat, c)
    ensures g.InRange(c[0]) && g.IsNext(c[0])
    ensures Walk(g, fat, c[0], v) == ChainByte(g, c, v)
    decreases |c|
  {
    hide Geometry.Valid, Arith.Times;
    InRangeIsNext(g, c[0]);
    if v < g.bytesPerCluster {
      Arith.DivIsQuotient(0, g.bytesPerCluster, v);
    } else {
      Arith.DivStep(v, g.bytesPerCluster);
      if |c| > 1 {
        LinkStep(g, fat, c, 0);
        ChainSuffix(g, fat, c, 1);
        WalkChain(g, fat, c[1..], v - g.bytesPerCluster);
      }
    }
  }

  ghost function ChainByte(g: Geometry, c: seq<nat>, v: nat): Option<nat>
    requires g.bytesPerCluster > 0 && forall k :: 0 <= k < |c| ==> c[k] >= 2
  {
    var k := v / g.bytesPerCluster;
    if k < |c| then Some(g.IndexToLbo(c[k]) + v % g.bytesPerCluster) else None
  }

  // Which cluster a device offset belongs to; 0 and 1 for none.
  ghost function ClusterOf(g: Geometry, a: nat): nat
    requires g.bytesPerCluster > 0
  {
    if a < g.fileArea then 0 else ClusterIndex(g.bytesPerCluster, a - g.fileArea)
  }

  ghost function ClusterIndex(b: nat, offset: nat): (i: nat)
    requires b > 0
    ensures i >= 2
  {
    if offset < b then 2 else ClusterIndex(b, offset - b) + 1
  }

  lemma ClusterOfByte(g: Geometry, i: nat, o: nat)
    requires i >= 2 && o < g.bytesPerCluster
    ensures ClusterOf(g, g.IndexToLbo(i) + o) == i
  {
    ClusterIndexOf(g.bytesPerCluster, i, o);
  }

  lemma {:induction false} ClusterIndexOf(b: nat, i: nat, o: nat)
    requires i >= 2 && o < b
    ensures ClusterIndex(b, Arith.Times(i - 2, b) + o) == i
    decreases i
  {
    if i > 2 {
      ClusterIndexOf(b, i - 1, o);
    }
  }

  // Writing cluster-sized data: bytes of other clusters stay put.
  lemma ByteInCluster(g: Geometry, i: nat, a: nat)
    requires g.Valid() && i >= 2
    ensures g.IndexToLbo(i) <= a < g.IndexToLbo(i) + g.bytesPerCluster <==> ClusterOf(g, a) == i
  {
    if g.IndexToLbo(i) <= a < g.IndexToLbo(i) + g.bytesPerCluster {
      ClusterOfByte(g, i, a - g.IndexToLbo(i));
    }
    if ClusterOf(g, a) == i {
      ClusterStart(g.bytesPerCluster, a - g.fileArea);
    }
  }

  lemma {:induction false} ClusterStart(b: nat, offset: nat)
    requires b > 0
    ensures var i := ClusterIndex(b, offset); Arith.Times(i - 2, b) <= offset < Arith.Times(i - 2, b) + b
    decreases offset
  {
    if offset >= b {
      ClusterStart(b, offset - b);
    }
  }
}
