/** Whole runs of FAT lookups, stores and write-backs: the cached store is a plain map. */
module FatTrace {
  import opened FatFormat
  import opened FatStore
  import Arith

  datatype FatOp = Lookup(i: nat) | Set(i: nat, v: Word) | Flush

  ghost predicate InFat(g: Geometry, op: FatOp) {
    op.Flush? || op.i < g.clusters + 2
  }

  // The plain map after the operations ...
  ghost function MapAfter(g: Geometry, fat: seq<Word>, ops: seq<FatOp>): (r: seq<Word>)
    requires |fat| == g.clusters + 2 && forall k :: 0 <= k < |ops| ==> InFat(g, ops[k])
    ensures |r| == |fat|
    decreases |ops|
  {
    if ops == [] then fat
    else
      var before := MapAfter(g, fat, ops[..|ops| - 1]);
      var op := ops[|ops| - 1];
      assert InFat(g, op);
      if op.Set? then before[op.i := Stored(g.bits, op.v)] else before
  }

  // ... and what an operation at that point yields.
  ghost function Answer(g: Geometry, fat: seq<Word>, op: FatOp): Option<Word>
    requires |fat| == g.clusters + 2 && InFat(g, op)
  {
    if op.Lookup? then Some(fat[op.i]) else None
  }

  // The last value that ops stored at i, if any.
  ghost function LastSet(g: Geometry, ops: seq<FatOp>, i: nat): Option<Word>
    decreases |ops|
  {
    if ops == [] then None
    else
      var op := ops[|ops| - 1];
      if op.Set? && op.i == i then Some(Stored(g.bits, op.v)) else LastSet(g, ops[..|ops| - 1], i)
  }

  /** Entry i of the map is the last value stored at i, or else what was there at first;
      stores elsewhere do not matter. */
  lemma {:induction false} MapHoldsLastSet(g: Geometry, fat: seq<Word>, ops: seq<FatOp>, i: nat)
    requires |fat| == g.clusters + 2 && (forall k :: 0 <= k < |ops| ==> InFat(g, ops[k])) && i < |fat|
    ensures MapAfter(g, fat, ops)[i] == match LastSet(g, ops, i) case Some(v) => v case None => fat[i]
    decreases |ops|
  {
    if ops != [] {
      MapHoldsLastSet(g, fat, ops[..|ops| - 1], i);
    }
  }

  /** Any run of lookups, stores and write-backs answers as the plain map does, and
      writes nothing outside the FAT copies. */
  method Execute(s: FatStore, ops: seq<FatOp>) returns (answers: seq<Option<Word>>)
    requires s.Valid() && forall k :: 0 <= k < |ops| ==> InFat(s.g, ops[k])
    modifies s, s.cachedFat
    ensures s.Valid() && SameData(s.g, old(s.disk), s.disk)
    ensures |old(s.Fat)| == s.g.clusters + 2 && s.Fat == MapAfter(s.g, old(s.Fat), ops)
    ensures |answers| == |ops| && forall k :: 0 <= k < |ops| ==>
              InFat(s.g, ops[k]) && answers[k] == Answer(s.g, MapAfter(s.g, old(s.Fat), ops[..k]), ops[k])
  {
    hide FatStore.Valid, Geometry.Valid;
    FatSize(s);
    answers := [];
    for n := 0 to |ops|
      invariant s.Valid() && SameData(s.g, old(s.disk), s.disk)
      invariant s.Fat == MapAfter(s.g, old(s.Fat), ops[..n])
      invariant |answers| == n && forall k :: 0 <= k < n ==>
                  answers[k] == Answer(s.g, MapAfter(s.g, old(s.Fat), ops[..k]), ops[k])
    {
      assert InFat(s.g, ops[n]);
      assert ops[..n + 1][..n] == ops[..n];
      match ops[n] {
        case Lookup(i) =>
          var v := s.LookupFatEntry(i);
          answers := answers + [Some(v)];
        case Set(i, v) =>
          s.SetFatEntry(i, v);
          answers := answers + [None];
        case Flush =>
          if s.cachedFatDirty {
            DirtyIsCached(s);
            s.FlushFatEntries();
          }
          answers := answers + [None];
      }
    }
    assert ops[..|ops|] == ops;
  }

  lemma FatSize(s: FatStore)
    requires s.Valid()
    ensures |s.Fat| == s.g.clusters + 2
  {
  }

  lemma DirtyIsCached(s: FatStore)
    requires s.Valid() && s.cachedFatDirty
    ensures s.cached
  {
  }

  // The bytes of the k-th copy of the FAT.
  ghost function Copy(g: Geometry, d: seq<Byte>, k: nat): (r: seq<Byte>)
    requires g.Valid() && |d| == g.deviceBytes && k < g.fats
    ensures |r| == g.bytesPerFat
  {
    seq(g.bytesPerFat, p requires 0 <= p < g.bytesPerFat => CopyByte(g, d, k, p))
  }

  // The same bytes by their offsets on the device.
  lemma CopyOnDevice(g: Geometry, d: seq<Byte>, k: nat)
    requires g.Valid() && |d| == g.deviceBytes && k < g.fats
    ensures var start := g.firstFat + k * g.bytesPerFat;
            start + g.bytesPerFat <= g.rootLbo <= |d| && Copy(g, d, k) == d[start..start + g.bytesPerFat]
  {
    hide Arith.Times;
    CopyFits(g, k, g.fats);
    Arith.TimesIsProduct(k, g.bytesPerFat);
    var start := g.firstFat + k * g.bytesPerFat;
    assert g.rootLbo <= |d|;
    assert forall p :: 0 <= p < g.bytesPerFat ==> Copy(g, d, k)[p] == d[start + p];
  }

  /** Once the window is written back, the bytes of the first copy on the device are the
      map in the layout of the format, and so are those of every other copy if they agreed
      when the volume was mounted. */
  lemma CopiesEncodeMap(s: FatStore, k: nat)
    requires s.Valid() && !s.cachedFatDirty && k < s.g.fats && (k == 0 || s.mirrored)
    ensures s.g.Valid() && |s.disk| == s.g.deviceBytes
    ensures Encodes(s.g, Copy(s.g, s.disk, k), s.Fat)
    ensures var start := s.g.firstFat + k * s.g.bytesPerFat;
            start + s.g.bytesPerFat <= |s.disk| && LaidOut(s.g.bits, s.disk[start..start + s.g.bytesPerFat], s.Fat)
  {
    assert Copy(s.g, s.disk, k) == s.bytes;
    EncodingIsLayout(s.g, s.bytes, s.Fat);
    CopyOnDevice(s.g, s.disk, k);
  }
}
