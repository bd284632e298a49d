/** The transfer loops of reading and writing: run by run, at most 32 KiB at a time. */
module FileTransfer {
  import opened FatFormat
  import opened FatStore
  import opened FatChains
  import opened FileTable
  import opened FileRuns
  import opened FileData

  const LARGEST_TRANSFER := 32 * 1024

  function Minimum(x: nat, y: nat): nat {
    if x < y then x else y
  }

  // f and f' are the same file: moving the position or changing the size does not
  // change where its bytes lie.
  ghost predicate SameFile(f: FileEntry, f': FileEntry) {
    f.direntLbo == f'.direntLbo && f.dirent.firstCluster == f'.dirent.firstCluster
  }

  lemma RunsOkSame(g: Geometry, fat: seq<Word>, f: FileEntry, f': FileEntry, vs: seq<nat>, ls: seq<nat>, n: nat)
    requires Walkable(g, fat, f) && SameFile(f, f') && RunsOk(g, fat, f, vs, ls, n)
    ensures Walkable(g, fat, f') && RunsOk(g, fat, f', vs, ls, n)
  {
    forall i: nat | i < n
      ensures RunOk(g, fat, f', vs, ls, i)
    {
      assert RunOk(g, fat, f, vs, ls, i);
      forall u: nat | vs[i] <= u < vs[i] + (vs[i + 1] - vs[i])
        ensures LboAt(g, fat, f', u) == Some(ls[i] + (u - vs[i]))
      {
        assert LboAt(g, fat, f, u) == Some(ls[i] + (u - vs[i]));
      }
    }
  }

  // Move the position of an open file.
  method SetPosition(s: FatStore, m: RunMap, fileTable: array<FileEntry>, fileId: nat, position: nat)
    requires fileId < fileTable.Length && McbOk(s, m, fileTable)
    modifies fileTable
    ensures McbOk(s, m, fileTable)
    ensures fileTable[..] == old(fileTable[..])[fileId := old(fileTable[fileId]).(position := position)]
  {
    hide RunsOk, Walkable;
    var f := fileTable[fileId];
    fileTable[fileId] := f.(position := position);
    if m.inUse > 0 && m.fileId == fileId {
      RunsOkSame(s.g, s.Fat, f, fileTable[fileId], m.vbo[..], m.lbo[..], m.inUse);
    }
  }

  lemma PieceSplit(g: Geometry, c: seq<nat>, v: nat, n: nat, lbo: nat, k: nat)
    requires g.Valid() && Clusters(g, c) && Piece(g, c, v, n, lbo) && k <= n
    ensures Piece(g, c, v, k, lbo) && Piece(g, c, v + k, n - k, lbo + k)
  {
  }

  // Write to one run of the file until the run or the buffer is exhausted.
  method WriteRun(s: FatStore, m: RunMap, fileTable: array<FileEntry>, fileId: nat, buffer: seq<Byte>, start: nat,
          startLbo: nat, runLength: nat, ghost c: seq<nat>, ghost d0: seq<Byte>, ghost p: nat)
    returns (transfer: nat)
    requires s.Valid() && s.g.Valid() && McbOk(s, m, fileTable) && fileId < fileTable.Length
    requires Clusters(s.g, c) && Distinct(c) && start < |buffer| && runLength > 0
    requires Poured(s.g, c, d0, s.disk, p, buffer[..start]) && Piece(s.g, c, p + start, runLength, startLbo)
    requires fileTable[fileId].position == p + start
    modifies s`disk, fileTable
    ensures s.Valid() && McbOk(s, m, fileTable)
    ensures start < transfer <= |buffer| && Poured(s.g, c, d0, s.disk, p, buffer[..transfer])
    ensures fileTable[..] == old(fileTable[..])[fileId := old(fileTable[fileId]).(position := p + transfer)]
  {
    hide FatStore.Valid, Geometry.Valid, Poured, Piece, Clusters, Distinct, McbOk;
    var lbo, currentRunByteCount := startLbo, runLength;
    transfer := start;
    while transfer < |buffer| && currentRunByteCount > 0
      invariant s.Valid() && McbOk(s, m, fileTable)
      invariant start <= transfer <= |buffer| && (transfer == start ==> currentRunByteCount > 0)
      invariant Poured(s.g, c, d0, s.disk, p, buffer[..transfer])
      invariant Piece(s.g, c, p + transfer, currentRunByteCount, lbo)
      invariant fileTable[..] == old(fileTable[..])[fileId := old(fileTable[fileId]).(position := p + transfer)]
    {
      var singleWriteSize := Minimum(|buffer| - transfer, LARGEST_TRANSFER);
      singleWriteSize := Minimum(singleWriteSize, currentRunByteCount);
      var more := buffer[transfer..transfer + singleWriteSize];
      PieceSplit(s.g, c, p + transfer, currentRunByteCount, lbo, singleWriteSize);
      PieceFits(s.g, c, p + transfer, singleWriteSize, lbo);
      PourPiece(s.g, c, d0, s.disk, p, buffer[..transfer], lbo, more);
      assert buffer[..transfer] + more == buffer[..transfer + singleWriteSize];
      s.DiskWrite(lbo, more);
      currentRunByteCount := currentRunByteCount - singleWriteSize;
      lbo := lbo + singleWriteSize;
      transfer := transfer + singleWriteSize;
      SetPosition(s, m, fileTable, fileId, fileTable[fileId].position + singleWriteSize);
    }
  }

  // The file is open, with chain c, and c holds at least `reach` bytes.
  ghost predicate Reaches(s: FatStore, f: FileEntry, c: seq<nat>, reach: nat)
    reads s`Fat
  {
    && s.g.Valid() && Linked(s.g, s.Fat) && f.direntLbo != 0
    && FileChain(s.g, s.Fat, f.dirent.firstCluster, c) && reach <= Capacity(s.g, c)
  }

  lemma ReachesFacts(s: FatStore, f: FileEntry, c: seq<nat>, reach: nat)
    requires s.Valid() && Reaches(s, f, c, reach)
    ensures s.g.Valid() && Walkable(s.g, s.Fat, f) && Clusters(s.g, c) && Distinct(c) && reach <= Capacity(s.g, c)
    ensures |s.disk| == s.g.deviceBytes
  {
    LboAtIsChainWalk(s.g, s.Fat, f, c, 0);
    if c != [] {
      ChainDistinct(s.g, s.Fat, c);
    }
  }

  // Offset v lies within the chain, so looking it up succeeds.
  lemma RunFound(s: FatStore, f: FileEntry, c: seq<nat>, reach: nat, v: nat)
    requires s.Valid() && Reaches(s, f, c, reach) && Walkable(s.g, s.Fat, f) && v < reach
    ensures LboAt(s.g, s.Fat, f, v).Some?
  {
    LboAtIsChainWalk(s.g, s.Fat, f, c, v);
    ChainWalkPlace(s.g, c, v);
  }

  lemma RunPiece(s: FatStore, f: FileEntry, c: seq<nat>, reach: nat, v: nat, n: nat, lbo: nat)
    requires s.Valid() && Reaches(s, f, c, reach) && Walkable(s.g, s.Fat, f) && Contiguous(s.g, s.Fat, f, v, n, lbo)
    ensures Clusters(s.g, c) && Piece(s.g, c, v, n, lbo)
  {
    PieceOfRun(s.g, s.Fat, f, c, v, n, lbo);
  }

  /** Write the buffer at the file's position, run by run. The chain must already be
      long enough. */
  method WriteRuns(s: FatStore, m: RunMap, fileTable: array<FileEntry>, fileId: nat, buffer: seq<Byte>,
          ghost c: seq<nat>)
    returns (status: Status, transfer: nat)
    requires s.Valid() && McbOk(s, m, fileTable) && fileId < fileTable.Length
    requires Reaches(s, fileTable[fileId], c, fileTable[fileId].position + |buffer|)
    modifies s`disk, s`cached, s`cachedFatVbo, s`cachedFatDirty, s.cachedFat, m, m.vbo, m.lbo, fileTable
    ensures s.Valid() && McbOk(s, m, fileTable)
    ensures m.fileId == fileId || (m.fileId == old(m.fileId) && m.inUse == old(m.inUse))
    ensures status == ESUCCESS && transfer == |buffer|
    ensures Clusters(s.g, c) && Poured(s.g, c, old(s.disk), s.disk, old(fileTable[fileId]).position, buffer)
    ensures var f := old(fileTable[fileId]);
            fileTable[..] == old(fileTable[..])[fileId := f.(position := f.position + |buffer|)]
  {
    hide FatStore.Valid, Geometry.Valid, Poured, Piece, Distinct, McbOk, Reaches, Contiguous, LboAt, Walkable, Capacity;
    ghost var f0, p, d0 := fileTable[fileId], fileTable[fileId].position, s.disk;
    ReachesFacts(s, f0, c, p + |buffer|);
    PourNothing(s.g, c, d0, p);
    transfer := 0;
    assert buffer[..0] == [];
    while transfer < |buffer|
      invariant s.Valid() && McbOk(s, m, fileTable)
      invariant m.fileId == fileId || (m.fileId == old(m.fileId) && m.inUse == old(m.inUse))
      invariant transfer <= |buffer| && Poured(s.g, c, d0, s.disk, p, buffer[..transfer])
      invariant fileTable[..] == old(fileTable[..])[fileId := f0.(position := p + transfer)]
    {
      var f := fileTable[fileId];
      ReachesMoved(s, f0, f, c, p + |buffer|);
      ReachesFacts(s, f, c, p + |buffer|);
      RunFound(s, f, c, p + |buffer|, p + transfer);
      ghost var d1 := s.disk;
      var lbo, currentRunByteCount;
      status, lbo, currentRunByteCount := VboToLbo(s, m, fileTable, fileId, f.position);
      if status != ESUCCESS {
        return status, transfer;
      }
      ReachesMoved(s, f0, f, c, p + |buffer|);
      RunPiece(s, f, c, p + |buffer|, p + transfer, currentRunByteCount, lbo);
      PourSame(s.g, c, d0, d1, s.disk, p, buffer[..transfer]);
      transfer := WriteRun(s, m, fileTable, fileId, buffer, transfer, lbo, currentRunByteCount, c, d0, p);
    }
    assert buffer[..transfer] == buffer;
    status := ESUCCESS;
  }

  lemma ReachesMoved(s: FatStore, f: FileEntry, f': FileEntry, c: seq<nat>, reach: nat)
    requires s.Valid() && SameFile(f, f')
    ensures Reaches(s, f, c, reach) <==> Reaches(s, f', c, reach)
  {
  }

  // How much a read of `length` bytes at position p of a file of that size delivers.
  function ReadCount(size: nat, p: nat, length: nat): (r: nat)
    ensures r <= length && (r == length || p + r >= size) && (r > 0 ==> p + r <= size)
  {
    if p >= size then 0 else Minimum(length, size - p)
  }

  // What the device holds for an open file; a root directory has no bytes to read.
  ghost predicate Holds(s: FatStore, f: FileEntry, c: seq<nat>, data: seq<Byte>)
    reads s`Fat, s`disk
  {
    && Walkable(s.g, s.Fat, f) && |s.disk| == s.g.deviceBytes
    && |data| == f.dirent.fileSize
    && (data != [] ==>
          && f.direntLbo != 0 && FileChain(s.g, s.Fat, f.dirent.firstCluster, c) && Clusters(s.g, c)
          && |data| <= Capacity(s.g, c) && data == Data(s.g, s.disk, c, |data|))
  }

  lemma HoldsStill(s: FatStore, d0: seq<Byte>, f: FileEntry, f': FileEntry, c: seq<nat>, data: seq<Byte>)
    requires Walkable(s.g, s.Fat, f) && |d0| == s.g.deviceBytes && |data| == f.dirent.fileSize
    requires data != [] ==>
               && f.direntLbo != 0 && FileChain(s.g, s.Fat, f.dirent.firstCluster, c) && Clusters(s.g, c)
               && |data| <= Capacity(s.g, c) && data == Data(s.g, d0, c, |data|)
    requires SameData(s.g, d0, s.disk) && SameFile(f, f') && f.dirent.fileSize == f'.dirent.fileSize
    ensures Holds(s, f', c, data)
  {
    if data != [] {
      DataFrame(s.g, d0, s.disk, c, |data|);
    }
  }

  lemma HoldsRead(s: FatStore, f: FileEntry, c: seq<nat>, data: seq<Byte>, v: nat, n: nat, lbo: nat, k: nat)
    requires s.Valid() && Holds(s, f, c, data) && Contiguous(s.g, s.Fat, f, v, n, lbo)
    requires 0 < k <= n && v + k <= |data|
    ensures lbo + k <= |s.disk| && s.disk[lbo..lbo + k] == data[v..v + k]
  {
    PieceOfRun(s.g, s.Fat, f, c, v, n, lbo);
    PieceSplit(s.g, c, v, n, lbo, k);
    PieceRead(s.g, s.disk, c, |data|, v, k, lbo);
  }

  lemma HoldsEnd(s: FatStore, f: FileEntry, c: seq<nat>, data: seq<Byte>, v: nat)
    requires s.Valid() && Holds(s, f, c, data) && LboAt(s.g, s.Fat, f, v).None?
    ensures v >= |data|
  {
    if data != [] {
      LboAtIsChainWalk(s.g, s.Fat, f, c, v);
      ChainWalkPlace(s.g, c, v);
    }
  }

  lemma ContiguousRest(g: Geometry, fat: seq<Word>, f: FileEntry, f': FileEntry, v: nat, n: nat, lbo: nat, k: nat)
    requires Walkable(g, fat, f) && SameFile(f, f') && Contiguous(g, fat, f, v, n, lbo) && k <= n
    ensures Walkable(g, fat, f') && Contiguous(g, fat, f', v + k, n - k, lbo + k)
  {
    forall u: nat | v + k <= u < v + k + (n - k)
      ensures LboAt(g, fat, f', u) == Some(lbo + k + (u - (v + k)))
    {
      assert LboAt(g, fat, f, u) == Some(lbo + (u - v));
    }
  }

  // Size of the next physical read, cut short at the end of the file; a cut makes it
  // the last one.
  method NextReadSize(length: nat, runByteCount: nat, fileSize: nat, position: nat)
    returns (singleReadSize: int, newLength: nat)
    requires length > 0 && runByteCount > 0
    ensures singleReadSize <= 0 ==> newLength == length && ReadCount(fileSize, position, length) == 0
    ensures singleReadSize > 0 ==>
              && singleReadSize <= runByteCount && singleReadSize <= LARGEST_TRANSFER
              && singleReadSize <= newLength <= length && position + singleReadSize <= fileSize
              && ReadCount(fileSize, position, length)
                 == singleReadSize + ReadCount(fileSize, position + singleReadSize, newLength - singleReadSize)
  {
    newLength := length;
    singleReadSize := Minimum(length, LARGEST_TRANSFER);
    singleReadSize := Minimum(singleReadSize, runByteCount);
    if singleReadSize + position > fileSize {
      singleReadSize := fileSize - position;
      if singleReadSize > 0 {
        newLength := singleReadSize;
      }
    }
  }

  // Read from one run of the file until the run, the request or the file is exhausted.
  method ReadRun(s: FatStore, m: RunMap, fileTable: array<FileEntry>, fileId: nat, startLbo: nat, runLength: nat,
          wanted: nat, ghost c: seq<nat>, ghost data: seq<Byte>)
    returns (length: nat, buffer: seq<Byte>, atEnd: bool)
    requires s.Valid() && McbOk(s, m, fileTable) && fileId < fileTable.Length && wanted > 0 && runLength > 0
    requires Holds(s, fileTable[fileId], c, data)
    requires Contiguous(s.g, s.Fat, fileTable[fileId], fileTable[fileId].position, runLength, startLbo)
    modifies fileTable
    ensures McbOk(s, m, fileTable)
    ensures var f := old(fileTable[fileId]);
            var p := f.position;
            && Holds(s, fileTable[fileId], c, data)
            && fileTable[..] == old(fileTable[..])[fileId := f.(position := p + |buffer|)]
            && (buffer != [] ==> p + |buffer| <= |data| && buffer == data[p..p + |buffer|])
            && |buffer| + ReadCount(|data|, p + |buffer|, length) == ReadCount(|data|, p, wanted)
            && (atEnd ==> ReadCount(|data|, p + |buffer|, length) == 0) && (!atEnd ==> length < wanted)
  {
    hide FatStore.Valid, Geometry.Valid, McbOk, Contiguous, LboAt, Walkable, FileChain, Clusters, Data, Capacity,
        ReadCount;
    ghost var f0, p := fileTable[fileId], fileTable[fileId].position;
    var lbo: nat, currentRunByteCount: nat := startLbo, runLength;
    length, buffer := wanted, [];
    while length > 0 && currentRunByteCount > 0
      invariant McbOk(s, m, fileTable) && Holds(s, fileTable[fileId], c, data)
      invariant fileTable[..] == old(fileTable[..])[fileId := f0.(position := p + |buffer|)]
      invariant Contiguous(s.g, s.Fat, fileTable[fileId], p + |buffer|, currentRunByteCount, lbo)
      invariant buffer != [] ==> p + |buffer| <= |data| && buffer == data[p..p + |buffer|]
      invariant |buffer| + ReadCount(|data|, p + |buffer|, length) == ReadCount(|data|, p, wanted)
      invariant length <= wanted && (length == wanted ==> currentRunByteCount > 0)
      decreases length
    {
      var f := fileTable[fileId];
      var singleReadSize;
      singleReadSize, length := NextReadSize(length, currentRunByteCount, f.dirent.fileSize, f.position);
      if singleReadSize <= 0 {
        return length, buffer, true;
      }
      HoldsRead(s, f, c, data, p + |buffer|, currentRunByteCount, lbo, singleReadSize);
      var more := s.DiskRead(lbo, singleReadSize);
      SetPosition(s, m, fileTable, fileId, f.position + singleReadSize);
      HoldsStill(s, s.disk, f, fileTable[fileId], c, data);
      ContiguousRest(s.g, s.Fat, f, fileTable[fileId], p + |buffer|, currentRunByteCount, lbo, singleReadSize);
      length := length - singleReadSize;
      currentRunByteCount := currentRunByteCount - singleReadSize;
      lbo := lbo + singleReadSize;
      buffer := buffer + more;
    }
    atEnd := false;
  }

  // Find the run at the file's position and read from it; `atEnd` too when there is none.
  method ReadNextRun(s: FatStore, m: RunMap, fileTable: array<FileEntry>, fileId: nat, wanted: nat, ghost c: seq<nat>,
          ghost data: seq<Byte>)
    returns (length: nat, buffer: seq<Byte>, atEnd: bool)
    requires s.Valid() && McbOk(s, m, fileTable) && fileId < fileTable.Length && wanted > 0
    requires Holds(s, fileTable[fileId], c, data)
    modifies s`disk, s`cached, s`cachedFatVbo, s`cachedFatDirty, s.cachedFat, m, m.vbo, m.lbo, fileTable
    ensures s.Valid() && McbOk(s, m, fileTable) && SameData(s.g, old(s.disk), s.disk)
    ensures m.fileId == fileId || (m.fileId == old(m.fileId) && m.inUse == old(m.inUse))
    ensures Holds(s, fileTable[fileId], c, data)
    ensures fileTable[..] == old(fileTable[..])[fileId :=
              old(fileTable[fileId]).(position := old(fileTable[fileId]).position + |buffer|)]
    ensures var p := old(fileTable[fileId]).position;
            && (buffer != [] ==> p + |buffer| <= |data| && buffer == data[p..p + |buffer|])
            && |buffer| + ReadCount(|data|, p + |buffer|, length) == ReadCount(|data|, p, wanted)
            && (atEnd ==> ReadCount(|data|, p + |buffer|, length) == 0) && (!atEnd ==> length < wanted)
  {
    hide FatStore.Valid, Geometry.Valid, McbOk, Contiguous, LboAt, FileChain, Clusters, Data, Capacity, SameData;
    var f := fileTable[fileId];
    SameDataStart(s);
    ghost var d0 := s.disk;
    var status, lbo, currentRunByteCount := VboToLbo(s, m, fileTable, fileId, f.position);
    HoldsStill(s, d0, f, f, c, data);
    if status != ESUCCESS {
      HoldsEnd(s, f, c, data, f.position);
      assert fileTable[..] == old(fileTable[..])[fileId := f.(position := f.position + 0)];
      return wanted, [], true;
    }
    length, buffer, atEnd := ReadRun(s, m, fileTable, fileId, lbo, currentRunByteCount, wanted, c, data);
  }

  // One piece after another.
  lemma PieceAfter(data: seq<Byte>, p: nat, buffer: seq<Byte>, more: seq<Byte>)
    requires buffer != [] ==> p + |buffer| <= |data| && buffer == data[p..p + |buffer|]
    requires more != [] ==> p + |buffer| + |more| <= |data| && more == data[p + |buffer|..p + |buffer| + |more|]
    ensures var all := buffer + more; all != [] ==> p + |all| <= |data| && all == data[p..p + |all|]
  {
  }

  /** Read `length` bytes at the file's position: exactly those the file has there,
      whatever the runs and the splits. */
  method ReadRuns(s: FatStore, m: RunMap, fileTable: array<FileEntry>, fileId: nat, wanted: nat, ghost c: seq<nat>,
          ghost data: seq<Byte>)
    returns (transfer: nat, buffer: seq<Byte>)
    requires s.Valid() && McbOk(s, m, fileTable) && fileId < fileTable.Length
    requires Holds(s, fileTable[fileId], c, data)
    modifies s`disk, s`cached, s`cachedFatVbo, s`cachedFatDirty, s.cachedFat, m, m.vbo, m.lbo, fileTable
    ensures s.Valid() && McbOk(s, m, fileTable) && SameData(s.g, old(s.disk), s.disk)
    ensures m.fileId == fileId || (m.fileId == old(m.fileId) && m.inUse == old(m.inUse))
    ensures var p := old(fileTable[fileId]).position;
            && transfer == |buffer| == ReadCount(|data|, p, wanted)
            && (buffer != [] ==> buffer == data[p..p + |buffer|])
            && fileTable[..] == old(fileTable[..])[fileId := old(fileTable[fileId]).(position := p + transfer)]
  {
    hide FatStore.Valid, Geometry.Valid, McbOk, Holds, SameData;
    ghost var f0, p := fileTable[fileId], fileTable[fileId].position;
    var length := wanted;
    transfer, buffer := 0, [];
    SameDataStart(s);
    while length > 0
      invariant s.Valid() && McbOk(s, m, fileTable) && SameData(s.g, old(s.disk), s.disk)
      invariant m.fileId == fileId || (m.fileId == old(m.fileId) && m.inUse == old(m.inUse))
      invariant transfer == |buffer| && Holds(s, fileTable[fileId], c, data)
      invariant fileTable[..] == old(fileTable[..])[fileId := f0.(position := p + transfer)]
      invariant buffer != [] ==> p + |buffer| <= |data| && buffer == data[p..p + |buffer|]
      invariant |buffer| + ReadCount(|data|, p + |buffer|, length) == ReadCount(|data|, p, wanted)
      decreases length
    {
      ghost var d1 := s.disk;
      assert fileTable[fileId] == fileTable[..][fileId];
      var more, atEnd;
      length, more, atEnd := ReadNextRun(s, m, fileTable, fileId, length, c, data);
      SameDataTrans(s.g, old(s.disk), d1, s.disk);
      PieceAfter(data, p, buffer, more);
      buffer := buffer + more;
      transfer := transfer + |more|;
      if atEnd {
        return transfer, buffer;
      }
    }
  }

  // Reading n bytes and then k more is reading n + k.
  lemma ReadsCompose(data: seq<Byte>, p: nat, n: nat, k: nat)
    ensures var a, b, ab := ReadCount(|data|, p, n), ReadCount(|data|, p + ReadCount(|data|, p, n), k),
        ReadCount(|data|, p, n + k);
            && a + b == ab
            && (p + ab <= |data| ==> data[p..p + a] + data[p + a..p + a + b] == data[p..p + ab])
  {
  }
}
