/** The bytes of a file as its chain of clusters spells them out on the device, and
    what writing through a chain does to the device. */
module FileData {
  import opened FatFormat
  import opened FatStore
  import opened FatChains
  import opened FileTable
  import opened FileAllocation
  import opened FileRuns
  import Arith

  ghost predicate Clusters(g: Geometry, c: seq<nat>) {
    forall k :: 0 <= k < |c| ==> g.InRange(c[k])
  }

  // Where byte v of a file with chain c lies on the device, if anywhere.
  ghost function ChainWalk(g: Geometry, c: seq<nat>, v: nat): Option<nat>
    requires g.Valid() && Clusters(g, c)
    decreases |c|
  {
    if c == [] then None
    else if v < g.bytesPerCluster then
      assert g.InRange(c[0]);
      Some(g.IndexToLbo(c[0]) + v)
    else ChainWalk(g, c[1..], v - g.bytesPerCluster)
  }

  // How many bytes the chain holds.
  ghost function Capacity(g: Geometry, c: seq<nat>): nat {
    Arith.Times(|c|, g.bytesPerCluster)
  }

  // Walking the chain in the FAT finds the same bytes.
  lemma {:induction false} WalkIsChainWalk(g: Geometry, fat: seq<Word>, c: seq<nat>, v: nat)
    requires g.Valid() && Linked(g, fat) && Chain(g, fat, c)
    ensures Clusters(g, c) && c[0] < 0x1_0000 && g.IsNext(c[0])
    ensures Walk(g, fat, c[0], v) == ChainWalk(g, c, v)
    decreases |c|
  {
    hide Geometry.Valid;
    InRangeIsNext(g, c[0]);
    if v >= g.bytesPerCluster && |c| > 1 {
      LinkStep(g, fat, c, 0);
      ChainSuffix(g, fat, c, 1);
      WalkIsChainWalk(g, fat, c[1..], v - g.bytesPerCluster);
    } else if v >= g.bytesPerCluster {
      EndOfChain(g, fat, c);
    }
  }

  lemma LboAtIsChainWalk(g: Geometry, fat: seq<Word>, f: FileEntry, c: seq<nat>, v: nat)
    requires g.Valid() && Linked(g, fat) && f.direntLbo != 0 && FileChain(g, fat, f.dirent.firstCluster, c)
    ensures Walkable(g, fat, f) && Clusters(g, c)
    ensures LboAt(g, fat, f, v) == ChainWalk(g, c, v)
  {
    if c != [] {
      WalkIsChainWalk(g, fat, c, v);
    }
  }

  // Every byte within the capacity has a place, in one of the chain's own clusters.
  lemma {:induction false} ChainWalkPlace(g: Geometry, c: seq<nat>, v: nat)
    requires g.Valid() && Clusters(g, c)
    ensures v < Capacity(g, c) <==> ChainWalk(g, c, v).Some?
    ensures ChainWalk(g, c, v).Some? ==>
              var a := ChainWalk(g, c, v).value;
              ClusterOf(g, a) in c && g.rootLbo <= a < g.deviceBytes
    decreases |c|
  {
    if c != [] {
      assert g.InRange(c[0]);
      if v < g.bytesPerCluster {
        Arith.TimesMono(1, |c|, g.bytesPerCluster);
        ClusterOfByte(g, c[0], v);
        ClusterFits(g, c[0]);
      } else {
        ChainWalkPlace(g, c[1..], v - g.bytesPerCluster);
      }
    }
  }

  // Different bytes of a file have different places.
  lemma {:induction false} ChainWalkInjective(g: Geometry, c: seq<nat>, u: nat, v: nat)
    requires g.Valid() && Clusters(g, c) && Distinct(c) && u < v
    requires ChainWalk(g, c, u).Some? && ChainWalk(g, c, v).Some?
    ensures ChainWalk(g, c, u) != ChainWalk(g, c, v)
    decreases |c|
  {
    if u >= g.bytesPerCluster {
      ChainWalkInjective(g, c[1..], u - g.bytesPerCluster, v - g.bytesPerCluster);
    } else if v >= g.bytesPerCluster {
      assert g.InRange(c[0]);
      ClusterOfByte(g, c[0], u);
      ChainWalkPlace(g, c[1..], v - g.bytesPerCluster);
    }
  }

  lemma {:induction false} ChainWalkPrefix(g: Geometry, c: seq<nat>, d: seq<nat>, v: nat)
    requires g.Valid() && Clusters(g, c) && Clusters(g, d) && v < Capacity(g, c)
    ensures Clusters(g, c + d) && ChainWalk(g, c + d, v) == ChainWalk(g, c, v)
    decreases |c|
  {
    if c != [] && v >= g.bytesPerCluster {
      ChainWalkPrefix(g, c[1..], d, v - g.bytesPerCluster);
      assert (c + d)[1..] == c[1..] + d;
    }
  }

  // Byte v of the file, where it has one.
  ghost function ByteOf(g: Geometry, disk: seq<Byte>, c: seq<nat>, v: nat): Byte
    requires g.Valid() && |disk| == g.deviceBytes && Clusters(g, c) && v < Capacity(g, c)
  {
    ChainWalkPlace(g, c, v);
    disk[ChainWalk(g, c, v).value]
  }

  /** The contents of a file with chain c and the given size. */
  ghost function Data(g: Geometry, disk: seq<Byte>, c: seq<nat>, size: nat): (r: seq<Byte>)
    requires g.Valid() && |disk| == g.deviceBytes && Clusters(g, c) && size <= Capacity(g, c)
    ensures |r| == size
  {
    seq(size, v requires 0 <= v < size => ByteOf(g, disk, c, v))
  }

  // The contents depend only on the bytes in the chain's clusters.
  lemma DataFrame(g: Geometry, d: seq<Byte>, d': seq<Byte>, c: seq<nat>, size: nat)
    requires g.Valid() && |d| == |d'| == g.deviceBytes && Clusters(g, c) && size <= Capacity(g, c)
    requires forall a: nat | g.rootLbo <= a < |d| && ClusterOf(g, a) in c :: d'[a] == d[a]
    ensures Data(g, d', c, size) == Data(g, d, c, size)
  {
    forall v: nat | v < size
      ensures ByteOf(g, d', c, v) == ByteOf(g, d, c, v)
    {
      ChainWalkPlace(g, c, v);
    }
  }

  // Bytes v .. v + n of the file lie at lbo .. lbo + n, within the device.
  ghost predicate Piece(g: Geometry, c: seq<nat>, v: nat, n: nat, lbo: nat)
    requires g.Valid() && Clusters(g, c)
  {
    forall u: nat | v <= u < v + n :: ChainWalk(g, c, u) == Some(lbo + (u - v))
  }

  lemma PieceOfRun(g: Geometry, fat: seq<Word>, f: FileEntry, c: seq<nat>, v: nat, n: nat, lbo: nat)
    requires g.Valid() && Linked(g, fat) && f.direntLbo != 0 && FileChain(g, fat, f.dirent.firstCluster, c)
    requires Walkable(g, fat, f) && Contiguous(g, fat, f, v, n, lbo)
    ensures Clusters(g, c) && Piece(g, c, v, n, lbo)
  {
    LboAtIsChainWalk(g, fat, f, c, v);
    forall u: nat | v <= u < v + n
      ensures ChainWalk(g, c, u) == Some(lbo + (u - v))
    {
      LboAtIsChainWalk(g, fat, f, c, u);
    }
  }

  lemma PieceFits(g: Geometry, c: seq<nat>, v: nat, n: nat, lbo: nat)
    requires g.Valid() && Clusters(g, c) && Piece(g, c, v, n, lbo) && n > 0
    ensures v + n <= Capacity(g, c) && g.rootLbo <= lbo && lbo + n <= g.deviceBytes
  {
    assert ChainWalk(g, c, v) == Some(lbo + (v - v));
    assert ChainWalk(g, c, v + n - 1) == Some(lbo + (v + n - 1 - v));
    ChainWalkPlace(g, c, v);
    ChainWalkPlace(g, c, v + n - 1);
  }

  // A read of part of a piece yields that slice of the file.
  lemma PieceRead(g: Geometry, d: seq<Byte>, c: seq<nat>, size: nat, v: nat, n: nat, lbo: nat)
    requires g.Valid() && |d| == g.deviceBytes && Clusters(g, c) && Piece(g, c, v, n, lbo) && n > 0
    requires v + n <= size <= Capacity(g, c)
    ensures lbo + n <= |d| && d[lbo..lbo + n] == Data(g, d, c, size)[v..v + n]
  {
    PieceFits(g, c, v, n, lbo);
    var read, slice := d[lbo..lbo + n], Data(g, d, c, size)[v..v + n];
    forall k: nat | k < n
      ensures read[k] == slice[k]
    {
      assert ChainWalk(g, c, v + k) == Some(lbo + (v + k - v));
    }
  }

  /** d is d0 with b written at offset p of the file, and nothing else changed
      outside the FAT copies. */
  ghost predicate Poured(g: Geometry, c: seq<nat>, d0: seq<Byte>, d: seq<Byte>, p: nat, b: seq<Byte>)
    requires g.Valid() && Clusters(g, c)
  {
    && |d0| == |d| == g.deviceBytes && (b != [] ==> p + |b| <= Capacity(g, c))
    && (forall v: nat | v < Capacity(g, c) ::
          ByteOf(g, d, c, v) == if p <= v < p + |b| then b[v - p] else ByteOf(g, d0, c, v))
    && (forall a: nat | a < |d| && !(g.firstFat <= a < g.rootLbo) && ClusterOf(g, a) !in c :: d[a] == d0[a])
  }

  lemma PourNothing(g: Geometry, c: seq<nat>, d0: seq<Byte>, p: nat)
    requires g.Valid() && Clusters(g, c) && |d0| == g.deviceBytes
    ensures Poured(g, c, d0, d0, p, [])
  {
  }

  // Changes confined to the FAT copies do not matter.
  lemma PourSame(g: Geometry, c: seq<nat>, d0: seq<Byte>, d: seq<Byte>, d': seq<Byte>, p: nat, b: seq<Byte>)
    requires g.Valid() && Clusters(g, c) && Poured(g, c, d0, d, p, b) && SameData(g, d, d')
    ensures Poured(g, c, d0, d', p, b)
  {
    forall v: nat | v < Capacity(g, c)
      ensures ByteOf(g, d', c, v) == ByteOf(g, d, c, v)
    {
      ChainWalkPlace(g, c, v);
    }
  }

  lemma PourPiece(g: Geometry, c: seq<nat>, d0: seq<Byte>, d: seq<Byte>, p: nat, b: seq<Byte>, lbo: nat,
          more: seq<Byte>)
    requires g.Valid() && Clusters(g, c) && Distinct(c) && Poured(g, c, d0, d, p, b)
    requires more != [] && Piece(g, c, p + |b|, |more|, lbo)
    ensures lbo + |more| <= |d| && Poured(g, c, d0, Splice(d, lbo, more), p, b + more)
  {
    hide ChainWalk, ByteOf, ClusterOf, Geometry.Valid, Piece, Distinct, Capacity;
    var v0 := p + |b|;
    PieceFits(g, c, v0, |more|, lbo);
    assert g.bytesPerCluster > 0 by { ClusterSizePositive(g); }
    var d' := Splice(d, lbo, more);
    forall v: nat | v < Capacity(g, c)
      ensures ByteOf(g, d', c, v) == if v0 <= v < v0 + |more| then more[v - v0] else ByteOf(g, d, c, v)
    {
      PieceByte(g, c, d, v0, lbo, more, v);
    }
    forall a: nat | a < |d| && ClusterOf(g, a) !in c
      ensures d'[a] == d[a]
    {
      PieceElsewhere(g, c, v0, |more|, lbo, a);
    }
  }

  lemma ClusterSizePositive(g: Geometry)
    requires g.Valid()
    ensures g.bytesPerCluster > 0
  {
  }

  lemma PieceElsewhere(g: Geometry, c: seq<nat>, v0: nat, n: nat, lbo: nat, a: nat)
    requires g.Valid() && Clusters(g, c) && Piece(g, c, v0, n, lbo) && ClusterOf(g, a) !in c
    ensures !(lbo <= a < lbo + n)
  {
    if lbo <= a < lbo + n {
      var u := v0 + (a - lbo);
      assert ChainWalk(g, c, u) == Some(lbo + (u - v0));
      ChainWalkPlace(g, c, u);
    }
  }

  lemma PieceByte(g: Geometry, c: seq<nat>, d: seq<Byte>, v0: nat, lbo: nat, more: seq<Byte>, v: nat)
    requires g.Valid() && Clusters(g, c) && Distinct(c) && |d| == g.deviceBytes
    requires Piece(g, c, v0, |more|, lbo) && lbo + |more| <= |d| && v < Capacity(g, c)
    ensures ByteOf(g, Splice(d, lbo, more), c, v) ==
            if v0 <= v < v0 + |more| then more[v - v0] else ByteOf(g, d, c, v)
  {
    ChainWalkPlace(g, c, v);
    var a := ChainWalk(g, c, v).value;
    if lbo <= a < lbo + |more| {
      var u := v0 + (a - lbo);
      assert ChainWalk(g, c, u) == Some(lbo + (u - v0));
      if u < v {
        ChainWalkInjective(g, c, u, v);
      } else if v < u {
        ChainWalkInjective(g, c, v, u);
      }
    }
  }

  /** What a write of b at p makes of a file's contents. */
  function Patched(x: seq<Byte>, p: nat, b: seq<Byte>): (r: seq<Byte>)
    requires p <= |x|
    ensures |r| == if p + |b| > |x| then p + |b| else |x|
    ensures forall v :: 0 <= v < |r| ==> r[v] == if p <= v < p + |b| then b[v - p] else x[v]
  {
    x[..p] + b + if p + |b| < |x| then x[p + |b|..] else []
  }
}
