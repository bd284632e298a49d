/** Whole runs of operations on a mounted volume: files behave as byte strings with a
    position, and a directory is listed completely whatever happens in between. */
module VolumeRuns {
  import opened FatFormat
  import opened FatStore
  import opened FatChains
  import opened FatAllocation
  import opened FileTable
  import opened FileAllocation
  import opened FileRuns
  import opened FileData
  import opened FileTransfer
  import opened VolumeFiles
  import opened FatVolume
  import opened DirectorySlots
  import opened FatDirectory
  import opened DirectoryCreate
  import opened DirectoryListing
  import opened FileNames

  datatype Op = Read(i: nat, length: nat) | Write(i: nat, buffer: seq<Byte>) | Seek(i: nat, offset: nat, absolute: bool)
  datatype Reply = Data(bytes: seq<Byte>) | Done | Refused

  // A file as a caller sees it, and what all files have in common.
  datatype Plain = Plain(bytes: seq<Byte>, position: nat, clusters: nat)
  datatype State = State(files: map<nat, Plain>, free: nat, clusterSize: nat)

  // The clusters that a file lacks to reach to `end`.
  function Missing(size: nat, x: Plain, end: nat): nat
    requires size > 0
  {
    if end <= |x.bytes| || Needed(size, end) <= x.clusters then 0 else Needed(size, end) - x.clusters
  }

  /** Whether a write may be accepted or refused: one that needs fewer clusters than are
      free, or none, is accepted, one that needs more is refused. One that needs them all
      depends on where they are. */
  predicate Allowed(st: State, op: Op, accepted: bool)
    requires op.i in st.files && st.clusterSize > 0
  {
    op.Write? ==>
      var missing := Missing(st.clusterSize, st.files[op.i], st.files[op.i].position + |op.buffer|);
      (missing == 0 || missing < st.free ==> accepted) && (missing > st.free ==> !accepted)
  }

  /** One operation on plain byte strings and a number of free clusters. A write takes what
      it needs of them; one that is refused leaves none. */
  function Next(st: State, op: Op, accepted: bool): (r: (State, Reply))
    requires op.i in st.files && st.clusterSize > 0 && st.files[op.i].position <= |st.files[op.i].bytes|
    requires Allowed(st, op, accepted)
    ensures r.0.files.Keys == st.files.Keys && r.0.files[op.i].position <= |r.0.files[op.i].bytes|
    ensures r.0.clusterSize == st.clusterSize
  {
    var f := st.files[op.i];
    var x, p := f.bytes, f.position;
    match op
    case Read(i, length) =>
      var n := ReadCount(|x|, p, length);
      (st.(files := st.files[i := f.(position := p + n)]), Data(x[p..p + n]))
    case Write(i, b) =>
      if accepted then
        var missing := Missing(st.clusterSize, f, p + |b|);
        (st.(files := st.files[i := Plain(Patched(x, p, b), p + |b|, f.clusters + missing)], free := st.free - missing),
         Done)
      else
        (st.(free := 0), Refused)
    case Seek(i, offset, absolute) =>
      var target := if absolute then offset else (p + offset) % 0x1_0000_0000;
      if target <= |x| then (st.(files := st.files[i := f.(position := target)]), Done) else (st, Refused)
  }

  ghost predicate Positioned(st: State) {
    st.clusterSize > 0 && forall i :: i in st.files ==> st.files[i].position <= |st.files[i].bytes|
  }

  ghost predicate OnFiles(st: State, ops: seq<Op>) {
    forall k :: 0 <= k < |ops| ==> ops[k].i in st.files && (ops[k].Seek? ==> ops[k].offset < 0x1_0000_0000)
  }

  /** A whole run: every operation in turn. */
  ghost predicate Outcome(st: State, ops: seq<Op>, accepted: seq<bool>, end: State, replies: seq<Reply>)
    decreases |ops|
  {
    && |accepted| == |replies| == |ops| && Positioned(st) && OnFiles(st, ops)
    && if ops == [] then end == st
       else
         && Allowed(st, ops[0], accepted[0])
         && var (next, reply) := Next(st, ops[0], accepted[0]);
            replies[0] == reply && Outcome(next, ops[1..], accepted[1..], end, replies[1..])
  }

  // The longest any file can get.
  function Written(ops: seq<Op>): nat {
    if ops == [] then 0 else (if ops[0].Write? then |ops[0].buffer| else 0) + Written(ops[1..])
  }

  ghost predicate Fits32(st: State, ops: seq<Op>) {
    forall i :: i in st.files ==> |st.files[i].bytes| + Written(ops) < 0x1_0000_0000
  }

  // The files in `files`, open on v, as plain byte strings.
  ghost function Files(v: Volume, files: set<nat>): (st: State)
    requires v.Valid() && files <= v.open
    reads v, v.s, v.s.cachedFat, v.m, v.m.vbo, v.m.lbo, v.fileTable
    ensures st.files.Keys == files
  {
    v.OpenFacts();
    StoreFacts(v.s);
    State(map i | i in files :: Plain(v.Bytes(i), v.fileTable[i].position, |v.chains[i]|), FreeCount(v.s.g, v.s.Fat),
          v.s.g.bytesPerCluster)
  }

  // Open files that are neither directories nor the root.
  ghost predicate Regular(v: Volume, files: set<nat>)
    reads v, v.fileTable
  {
    && files <= v.open
    && forall i :: i in files ==>
        i < v.fileTable.Length && v.fileTable[i].direntLbo != 0 && !IsDirectory(v.fileTable[i])
  }

  lemma RegularPositioned(v: Volume, files: set<nat>)
    requires v.Valid() && Regular(v, files)
    ensures Positioned(Files(v, files))
  {
    hide FatStore.Valid, FilesOk, McbOk, FreeCount;
    StoreFacts(v.s);
    forall i | i in files
      ensures v.fileTable[i].position <= |v.Bytes(i)|
    {
      v.WriteRoom(i);
    }
  }

  // File i of the table, as a caller sees it.
  ghost predicate Shows(v: Volume, i: nat, x: Plain)
    requires v.Valid() && i in v.open
    reads v, v.s, v.s.cachedFat, v.m, v.m.vbo, v.m.lbo, v.fileTable
  {
    v.OpenFacts();
    v.Bytes(i) == x.bytes && v.fileTable[i].position == x.position && |v.chains[i]| == x.clusters
  }

  lemma FilesShown(v: Volume, files: set<nat>)
    requires v.Valid() && files <= v.open
    ensures forall i :: i in files ==> Shows(v, i, Files(v, files).files[i])
    ensures v.s.g.Valid() && v.s.g.bytesPerCluster > 0 && |v.s.Fat| == v.s.g.clusters + 2
    ensures Files(v, files).free == FreeCount(v.s.g, v.s.Fat) && Files(v, files).clusterSize == v.s.g.bytesPerCluster
  {
    hide Volume.Bytes, FatStore.Valid, McbOk, FreeCount;
    StoreFacts(v.s);
  }

  // The files after an operation on file i, the others being as they were.
  lemma OneChanged(v: Volume, files: set<nat>, st: State, i: nat, x: Plain)
    requires v.Valid() && files <= v.open && i in files && st.files.Keys == files
    requires Shows(v, i, x) && forall j :: j in files && j != i ==> Shows(v, j, st.files[j])
    requires |v.s.Fat| == v.s.g.clusters + 2 && v.s.g.bytesPerCluster == st.clusterSize
    ensures Files(v, files) == st.(files := st.files[i := x], free := FreeCount(v.s.g, v.s.Fat))
  {
    hide Volume.Valid, Volume.Bytes, FreeCount;
    var a, b := Files(v, files).files, st.files[i := x];
    assert a.Keys == b.Keys;
    assert forall j :: j in files ==> a[j] == b[j];
  }

  // Nothing but open file i changed, its entry in the table and its chain included.
  ghost predicate OnlyOpenFile(g: Geometry, fat: seq<Word>, fat': seq<Word>, d: seq<Byte>, d': seq<Byte>,
          files: seq<FileEntry>, files': seq<FileEntry>, open: set<nat>, chains: seq<seq<nat>>, chains': seq<seq<nat>>,
          i: nat)
  {
    && g.Valid() && g.bytesPerCluster > 0 && |fat| == |fat'| == g.clusters + 2 && |d| == |d'| == g.deviceBytes
    && i < |files| == |files'| == |chains| == |chains'|
    && OnlyThisFile(g, fat, fat', d, d', files[i], chains[i], files'[i], chains'[i])
    && files'[i].direntLbo == files[i].direntLbo && files'[i].dirent.attributes == files[i].dirent.attributes
    && forall j :: j in open && j != i && j < |files| ==> files'[j] == files[j] && chains'[j] == chains[j]
  }

  lemma OneFileOpen(v: Volume, fat: seq<Word>, d: seq<Byte>, files: seq<FileEntry>, chains: seq<seq<nat>>, i: nat)
    requires v.s.g.Valid() && v.s.g.bytesPerCluster > 0 && |fat| == |v.s.Fat| == v.s.g.clusters + 2
    requires |d| == |v.s.disk| == v.s.g.deviceBytes && i < |files| == v.fileTable.Length == |chains| == |v.chains|
    requires OnlyThisFile(v.s.g, fat, v.s.Fat, d, v.s.disk, files[i], chains[i], v.fileTable[i], v.chains[i])
    requires v.fileTable[i].direntLbo == files[i].direntLbo
    requires v.fileTable[i].dirent.attributes == files[i].dirent.attributes
    requires forall j :: j in v.open && j != i && j < |files| ==>
        v.fileTable[j] == files[j] && v.chains[j] == chains[j]
    ensures OnlyOpenFile(v.s.g, fat, v.s.Fat, d, v.s.disk, files, v.fileTable[..], v.open, chains, v.chains, i)
  {
    hide OnlyThisFile, Geometry.Valid;
  }

  lemma OnlyMoved(g: Geometry, fat: seq<Word>, d: seq<Byte>, d': seq<Byte>, f: FileEntry, c: seq<nat>, f': FileEntry)
    requires g.Valid() && g.bytesPerCluster > 0 && |fat| == g.clusters + 2 && |d| == |d'| == g.deviceBytes
    requires FileOk(g, fat, d, f, c) && f.direntLbo != 0 && !IsDirectory(f) && f' == f.(position := f'.position)
    requires d == d' || SameData(g, d, d')
    ensures OnlyThisFile(g, fat, fat, d, d', f, c, f', c)
  {
    hide FatStore.Valid, Geometry.Valid, FileOk, OnlyThisFile, OnlyFile, SameData;
    if d == d' {
      NothingChanged(g, fat, d, f.direntLbo, c);
    } else {
      SameOnlyFile(g, fat, d, d', f.direntLbo, c);
    }
    OnlyFileSuffices(g, fat, fat, d, d', f, c, f', c);
  }

  method PerformRead(v: Volume, i: nat, length: nat, ghost files: set<nat>) returns (reply: Reply)
    requires v.Valid() && Regular(v, files) && i in files
    modifies v.s, v.s.cachedFat, v.m, v.m.vbo, v.m.lbo, v.fileTable
    ensures v.Valid() && Regular(v, files) && Positioned(old(Files(v, files)))
    ensures (Files(v, files), reply) == Next(old(Files(v, files)), Read(i, length), true)
    ensures OnlyOpenFile(v.s.g, old(v.s.Fat), v.s.Fat, old(v.s.disk), v.s.disk, old(v.fileTable[..]), v.fileTable[..],
                         v.open, v.chains, v.chains, i)
  {
    hide Volume.Valid, Volume.Bytes, Geometry.Valid, FlagOn, Next, OnlyThisFile, SameData, FileOk, Files, FreeCount;
    RegularPositioned(v, files);
    FilesShown(v, files);
    v.WriteRoom(i);
    ghost var st, f0, d0 := Files(v, files), v.fileTable[i], v.s.disk;
    var transfer, buffer := v.Read(i, length);
    v.WriteRoom(i);
    OnlyMoved(v.s.g, v.s.Fat, d0, v.s.disk, f0, v.chains[i], v.fileTable[i]);
    reply := Data(buffer);
    ghost var x := st.files[i];
    ReadNext(st, i, length, buffer);
    OneChanged(v, files, st, i, x.(position := x.position + |buffer|));
  }

  lemma ReadNext(st: State, i: nat, length: nat, buffer: seq<Byte>)
    requires i in st.files && st.clusterSize > 0 && st.files[i].position <= |st.files[i].bytes|
    requires var x, p := st.files[i].bytes, st.files[i].position;
             |buffer| == ReadCount(|x|, p, length) && (buffer != [] ==> buffer == x[p..p + |buffer|])
    ensures var f := st.files[i];
            Next(st, Read(i, length), true)
            == (st.(files := st.files[i := f.(position := f.position + |buffer|)]), Data(buffer))
  {
    var f := st.files[i];
    if buffer == [] {
      assert f.bytes[f.position..f.position + 0] == buffer;
    }
  }

  // What the volume's answer to a write means to the caller.
  lemma WriteNext(g: Geometry, fat: seq<Word>, fat': seq<Word>, c: seq<nat>, c': seq<nat>, st: State, i: nat,
          b: seq<Byte>, fits: bool)
    requires g.Valid() && |fat| == |fat'| == g.clusters + 2 && g.InRange(Hint(c)) && Hint(c) < 0x1_0000
    requires g.bytesPerCluster > 0 && i in st.files && st.files[i].position <= |st.files[i].bytes|
    requires st.free == FreeCount(g, fat) && st.clusterSize == g.bytesPerCluster && st.files[i].clusters == |c|
    requires var end, size := st.files[i].position + |b|, |st.files[i].bytes|;
             && fits == (end <= size || GrowFits(g, fat, c, end))
             && (if fits && end > size then Lengthened(g, fat, c, c', end) else c' == c)
    requires Counted(g, fat, fat', fits, |c'| - |c|)
    ensures Allowed(st, Write(i, b), fits)
    ensures var f := st.files[i];
            Next(st, Write(i, b), fits) ==
            if fits then
              (st.(files := st.files[i := Plain(Patched(f.bytes, f.position, b), f.position + |b|, |c'|)],
                   free := FreeCount(g, fat')), Done)
            else
              (st.(free := FreeCount(g, fat')), Refused)
  {
    hide Geometry.Valid, FreeCount, GrowFits, Patched, Needed, IsTaken, Distinct;
    var end := st.files[i].position + |b|;
    if end > |st.files[i].bytes| {
      GrowFitsByCount(g, fat, c, end);
    }
  }

  lemma HintOfFile(v: Volume, i: nat)
    requires v.Valid() && i in v.open && i < v.fileTable.Length == |v.chains| && v.fileTable[i].direntLbo != 0
    ensures v.s.g.InRange(Hint(v.chains[i])) && Hint(v.chains[i]) < 0x1_0000
  {
    hide FatStore.Valid, McbOk, Apart, HomeOutside, Encode;
    StoreFacts(v.s);
    HintInRange(v.s.g, v.s.Fat, v.fileTable[i], v.chains[i]);
    if v.chains[i] != [] {
      EndOfChain(v.s.g, v.s.Fat, v.chains[i]);
    }
  }

  method PerformWrite(v: Volume, i: nat, b: seq<Byte>, ghost files: set<nat>) returns (reply: Reply)
    requires v.Valid() && Regular(v, files) && i in files && |v.Bytes(i)| + |b| < 0x1_0000_0000
    modifies v`chains, v.s, v.s.cachedFat, v.m, v.m.vbo, v.m.lbo, v.fileTable
    ensures v.Valid() && Regular(v, files) && Positioned(old(Files(v, files)))
    ensures Allowed(old(Files(v, files)), Write(i, b), reply == Done)
    ensures (Files(v, files), reply) == Next(old(Files(v, files)), Write(i, b), reply == Done)
    ensures OnlyOpenFile(v.s.g, old(v.s.Fat), v.s.Fat, old(v.s.disk), v.s.disk, old(v.fileTable[..]), v.fileTable[..],
                         v.open, old(v.chains), v.chains, i)
  {
    hide Volume.Valid, Volume.Bytes, Geometry.Valid, FlagOn, GrowFits, Lengthened, Patched, OnlyThisFile, FileOk,
        OnlyOpenFile, Next, Allowed, Files, FreeCount, Counted, Hint;
    RegularPositioned(v, files);
    FilesShown(v, files);
    v.WriteRoom(i);
    HintOfFile(v, i);
    ghost var st, all, fat0, c0 := Files(v, files), v.fileTable[..], v.s.Fat, v.chains[i];
    assert all[i] == v.fileTable[i];
    var status, transfer := v.Write(i, b);
    v.StillRegular(all[i], v.fileTable[i]);
    v.WriteRoom(i);
    OneFileOpen(v, old(v.s.Fat), old(v.s.disk), all, old(v.chains), i);
    reply := if status == ESUCCESS then Done else Refused;
    WriteNext(v.s.g, fat0, v.s.Fat, c0, v.chains[i], st, i, b, status == ESUCCESS);
    OneChanged(v, files, st, i, if status == ESUCCESS then Plain(Patched(st.files[i].bytes, st.files[i].position, b),
        st.files[i].position + |b|, |v.chains[i]|) else st.files[i]);
    assert st.files[i := st.files[i]] == st.files;
  }

  lemma SeekNext(st: State, i: nat, offset: nat, absolute: bool, accepted: bool, position: nat)
    requires i in st.files && st.clusterSize > 0 && st.files[i].position <= |st.files[i].bytes|
    requires var f := st.files[i];
             var target := if absolute then offset else (f.position + offset) % 0x1_0000_0000;
             accepted == (target <= |f.bytes|) && position == if accepted then target else f.position
    ensures Next(st, Seek(i, offset, absolute), true)
            == (st.(files := st.files[i := st.files[i].(position := position)]), if accepted then Done else Refused)
  {
    assert st.files[i := st.files[i]] == st.files;
  }

  method PerformSeek(v: Volume, i: nat, offset: nat, absolute: bool, ghost files: set<nat>) returns (reply: Reply)
    requires v.Valid() && Regular(v, files) && i in files && offset < 0x1_0000_0000
    modifies v.fileTable
    ensures v.Valid() && Regular(v, files) && Positioned(old(Files(v, files)))
    ensures (Files(v, files), reply) == Next(old(Files(v, files)), Seek(i, offset, absolute), true)
    ensures OnlyOpenFile(v.s.g, v.s.Fat, v.s.Fat, old(v.s.disk), v.s.disk, old(v.fileTable[..]), v.fileTable[..],
                         v.open, v.chains, v.chains, i)
  {
    hide Volume.Valid, Volume.Bytes, Geometry.Valid, FlagOn, OnlyThisFile, FileOk, Next, Files, FreeCount;
    RegularPositioned(v, files);
    FilesShown(v, files);
    v.WriteRoom(i);
    ghost var st, f0 := Files(v, files), v.fileTable[i];
    var status := v.Seek(i, offset, absolute);
    v.WriteRoom(i);
    OnlyMoved(v.s.g, v.s.Fat, v.s.disk, v.s.disk, f0, v.chains[i], v.fileTable[i]);
    reply := if status == ESUCCESS then Done else Refused;
    SeekNext(st, i, offset, absolute, status == ESUCCESS, v.fileTable[i].position);
    OneChanged(v, files, st, i, st.files[i].(position := v.fileTable[i].position));
  }

  // One operation of the volume is one operation on plain byte strings.
  method Perform(v: Volume, op: Op, ghost files: set<nat>) returns (reply: Reply, ghost accepted: bool)
    requires v.Valid() && Regular(v, files) && op.i in files
    requires op.Seek? ==> op.offset < 0x1_0000_0000
    requires op.Write? ==> |v.Bytes(op.i)| + |op.buffer| < 0x1_0000_0000
    modifies v`chains, v.s, v.s.cachedFat, v.m, v.m.vbo, v.m.lbo, v.fileTable
    ensures v.Valid() && Regular(v, files) && Positioned(old(Files(v, files)))
    ensures Allowed(old(Files(v, files)), op, accepted)
    ensures (Files(v, files), reply) == Next(old(Files(v, files)), op, accepted)
    ensures OnlyOpenFile(v.s.g, old(v.s.Fat), v.s.Fat, old(v.s.disk), v.s.disk, old(v.fileTable[..]), v.fileTable[..],
                         v.open, old(v.chains), v.chains, op.i)
  {
    hide Volume.Valid, Volume.Bytes, Next, OnlyOpenFile, Files;
    accepted := true;
    match op {
      case Read(i, length) =>
        reply := PerformRead(v, i, length, files);
      case Write(i, b) =>
        reply := PerformWrite(v, i, b, files);
        accepted := reply == Done;
      case Seek(i, offset, absolute) =>
        reply := PerformSeek(v, i, offset, absolute, files);
    }
  }

  lemma NextFits(st: State, ops: seq<Op>, accepted: bool)
    requires ops != [] && Positioned(st) && OnFiles(st, ops) && Fits32(st, ops) && Allowed(st, ops[0], accepted)
    ensures var next := Next(st, ops[0], accepted).0;
            Positioned(next) && OnFiles(next, ops[1..]) && Fits32(next, ops[1..])
  {
    var next := Next(st, ops[0], accepted).0;
    assert forall k :: 0 <= k < |ops[1..]| ==> ops[1..][k] == ops[k + 1];
  }

  lemma FirstFits(st: State, ops: seq<Op>)
    requires ops != [] && OnFiles(st, ops) && Fits32(st, ops)
    ensures ops[0].i in st.files && (ops[0].Seek? ==> ops[0].offset < 0x1_0000_0000)
    ensures ops[0].Write? ==> |st.files[ops[0].i].bytes| + |ops[0].buffer| < 0x1_0000_0000
  {
  }

  lemma OutcomeFirst(st: State, ops: seq<Op>, first: bool, reply: Reply, accepted: seq<bool>, end: State,
          replies: seq<Reply>)
    requires ops != [] && Positioned(st) && OnFiles(st, ops) && Allowed(st, ops[0], first)
    requires Next(st, ops[0], first).1 == reply
    requires Outcome(Next(st, ops[0], first).0, ops[1..], accepted, end, replies)
    ensures Outcome(st, ops, [first] + accepted, end, [reply] + replies)
  {
    hide Next, Allowed;
    assert ([first] + accepted)[1..] == accepted && ([reply] + replies)[1..] == replies;
  }

  /** Any sequence of reads, writes and seeks on open files gives the replies and leaves
      the contents, positions and free clusters that the same operations give on plain byte
      strings. */
  method Execute(v: Volume, ops: seq<Op>, ghost files: set<nat>)
    returns (replies: seq<Reply>, ghost accepted: seq<bool>)
    requires v.Valid() && Regular(v, files) && OnFiles(Files(v, files), ops) && Fits32(Files(v, files), ops)
    modifies v`chains, v.s, v.s.cachedFat, v.m, v.m.vbo, v.m.lbo, v.fileTable
    ensures v.Valid() && Regular(v, files)
    ensures Outcome(old(Files(v, files)), ops, accepted, Files(v, files), replies)
    decreases |ops|
  {
    hide Volume.Valid, Volume.Bytes, Next, Fits32, FlagOn, Files, OnFiles, Allowed, Positioned;
    RegularPositioned(v, files);
    ghost var st := Files(v, files);
    if ops == [] {
      return [], [];
    }
    FirstFits(st, ops);
    FilesShown(v, files);
    var reply;
    ghost var first;
    reply, first := Perform(v, ops[0], files);
    NextFits(st, ops, first);
    ghost var rest;
    replies, rest := Execute(v, ops[1..], files);
    OutcomeFirst(st, ops, first, reply, rest, Files(v, files), replies);
    replies := [reply] + replies;
    accepted := [first] + rest;
  }

  // The entries of open directory i.
  ghost function DirectoryPlaces(v: Volume, i: nat): (lbos: seq<nat>)
    requires v.Valid() && i in v.open
    reads v, v.s, v.s.cachedFat, v.m, v.m.vbo, v.m.lbo, v.fileTable
    ensures Placed(v.s.disk, lbos) && v.s.g.Valid() && v.s.g.firstFat <= v.s.g.rootLbo
    ensures forall k :: 0 <= k < |lbos| ==> OnGrid(v.s.g, lbos[k])
  {
    OpenSlots(v.s.g, v.s.Fat, v.s.disk, v.fileTable[i], v.chains[i]);
    FileSlots(v.s.g, v.fileTable[i], v.chains[i])
  }

  lemma OpenSlots(g: Geometry, fat: seq<Word>, d: seq<Byte>, f: FileEntry, c: seq<nat>)
    requires g.Valid() && Linked(g, fat) && |d| == g.deviceBytes && FileOk(g, fat, d, f, c)
    ensures Clusters(g, c) && g.firstFat <= g.rootLbo
    ensures Placed(d, FileSlots(g, f, c)) && forall k :: 0 <= k < |FileSlots(g, f, c)| ==>
        OnGrid(g, FileSlots(g, f, c)[k])
  {
    hide Geometry.Valid, OnGrid;
    FileOkClusters(g, fat, d, f, c);
    Copies(g);
    SlotsPlaced(g, c, d);
    RootPlaced(g, d);
  }

  lemma DirectoryListable(v: Volume, i: nat, k: nat)
    requires v.Valid() && i in v.open && IsDirectory(v.fileTable[i]) && i < v.fileTable.Length
    requires v.fileTable[i].position == k * DIRENT_SIZE && k <= |DirectoryPlaces(v, i)|
    ensures McbOk(v.s, v.m, v.fileTable) && Listable(v.s, v.fileTable[i], DirectoryPlaces(v, i), k)
    ensures FilesOk(v.s.g, v.s.Fat, v.s.disk, v.fileTable[..], v.open, v.chains)
    ensures forall j :: j in v.open ==> j < v.fileTable.Length == |v.chains|
  {
    hide Geometry.Valid, OnGrid, LboAt, SlotByte, Walkable;
    FileOkClusters(v.s.g, v.s.Fat, v.s.disk, v.fileTable[i], v.chains[i]);
    DirectorySpells(v.s.g, v.s.Fat, v.fileTable[i], v.chains[i]);
  }

  // List part of an open directory; every file keeps its bytes.
  method ListDirectory(v: Volume, i: nat, numberDir: nat, ghost k: nat)
    returns (status: Status, dirEntries: seq<ArcEntry>)
    requires v.Valid() && i in v.open && i < v.fileTable.Length && IsDirectory(v.fileTable[i])
    requires v.fileTable[i].position == k * DIRENT_SIZE && k <= |DirectoryPlaces(v, i)|
    modifies v.s`disk, v.s`cached, v.s`cachedFatVbo, v.s`cachedFatDirty, v.s.cachedFat, v.m, v.m.vbo, v.m.lbo,
        v.fileTable
    ensures v.Valid() && SameData(v.s.g, old(v.s.disk), v.s.disk)
    ensures var (entries, next) := Listing(old(v.s.disk), old(DirectoryPlaces(v, i)), k, numberDir);
            && Whole(entries) && dirEntries == Arcs(entries)
            && status == (if entries == [] && numberDir > 0 then ENOTDIR else ESUCCESS)
            && v.fileTable[..] == old(v.fileTable[..])[i := old(v.fileTable[i]).(position := next * DIRENT_SIZE)]
            && DirectoryPlaces(v, i) == old(DirectoryPlaces(v, i))
    ensures forall j :: j in v.open ==> v.Bytes(j) == old(v.Bytes(j))
  {
    hide FatStore.Valid, Geometry.Valid, McbOk, FilesOk, SameData, FileOk, Contents, IsDirectory, Listable, Listing,
        OnGrid, Spells;
    ghost var d0, files, lbos := v.s.disk, v.fileTable[..], DirectoryPlaces(v, i);
    DirectoryListable(v, i, k);
    StoreFacts(v.s);
    status, dirEntries := GetDirectoryEntry(v.s, v.m, v.fileTable, i, numberDir, lbos, k);
    SameKeepsFiles(v.s.g, v.s.Fat, d0, v.s.disk, files, v.open, v.chains);
    MoveKeepsFiles(v.s.g, v.s.Fat, v.s.disk, files, v.open, v.chains, i, v.fileTable[i].position);
    assert v.fileTable[..] == files[i := files[i].(position := v.fileTable[i].position)];
    forall j | j in v.open
      ensures v.Bytes(j) == old(v.Bytes(j))
    {
      v.KeptBytes(d0, files, j);
    }
  }

  // A step of browsing a directory: list some entries, or read from some other file.
  datatype Step = List(n: nat) | Other(i: nat, length: nat)

  function Batched(steps: seq<Step>): seq<nat> {
    if steps == [] then []
    else if steps[0].List? then [steps[0].n] + Batched(steps[1..])
    else Batched(steps[1..])
  }

  ghost predicate Browsable(v: Volume, dir: nat, k: nat, steps: seq<Step>)
    requires v.Valid()
    reads v, v.s, v.s.cachedFat, v.m, v.m.vbo, v.m.lbo, v.fileTable
  {
    && dir in v.open && dir < v.fileTable.Length && IsDirectory(v.fileTable[dir])
    && v.fileTable[dir].position == k * DIRENT_SIZE && k <= |DirectoryPlaces(v, dir)|
    && forall j :: 0 <= j < |steps| && steps[j].Other? ==> steps[j].i in v.open && steps[j].i != dir
  }

  // The entries that listing on from k in the given batches shows.
  ghost function Remaining(v: Volume, dir: nat, k: nat, steps: seq<Step>): seq<seq<Byte>>
    requires v.Valid() && dir in v.open && k <= |DirectoryPlaces(v, dir)|
    reads v, v.s, v.s.cachedFat, v.m, v.m.vbo, v.m.lbo, v.fileTable
  {
    Batches(v.s.disk, DirectoryPlaces(v, dir), k, Batched(steps))
  }

  lemma {:induction false} BatchesSame(d: seq<Byte>, d': seq<Byte>, lbos: seq<nat>, k: nat, ns: seq<nat>)
    requires Placed(d, lbos) && Placed(d', lbos) && |d'| == |d| && k <= |lbos|
    requires forall i :: 0 <= i < |lbos| ==> SameEntry(d, d', lbos[i])
    ensures Batches(d', lbos, k, ns) == Batches(d, lbos, k, ns)
    decreases |ns|
  {
    if ns != [] {
      ListingSame(d, d', lbos, k, ns[0]);
      BatchesSame(d, d', lbos, Listing(d, lbos, k, ns[0]).1, ns[1..]);
    }
  }

  lemma SamePlaces(g: Geometry, d: seq<Byte>, d': seq<Byte>, lbos: seq<nat>, k: nat, ns: seq<nat>)
    requires SameData(g, d, d') && g.firstFat <= g.rootLbo && Placed(d, lbos) && k <= |lbos|
    requires forall i :: 0 <= i < |lbos| ==> OnGrid(g, lbos[i])
    ensures Placed(d', lbos) && Batches(d', lbos, k, ns) == Batches(d, lbos, k, ns)
  {
    SameDataEntries(g, d, d', lbos);
    BatchesSame(d, d', lbos, k, ns);
  }

  /** Listing a directory in batches of any sizes, other files being read in between,
      shows, one after the other, what the batches show of the directory as it was. */
  method Browse(v: Volume, dir: nat, steps: seq<Step>, ghost k: nat) returns (shown: seq<ArcEntry>)
    requires v.Valid() && Browsable(v, dir, k, steps)
    modifies v.s`disk, v.s`cached, v.s`cachedFatVbo, v.s`cachedFatDirty, v.s.cachedFat, v.m, v.m.vbo, v.m.lbo,
        v.fileTable
    ensures v.Valid()
    ensures Whole(old(Remaining(v, dir, k, steps))) && shown == Arcs(old(Remaining(v, dir, k, steps)))
    decreases |steps|
  {
    hide Volume.Valid, Volume.Bytes, Geometry.Valid, FileSlots, SameData, FlagOn, OnGrid, Listing, Whole, Arcs;
    NothingListed();
    shown := [];
    if steps != [] {
      ghost var d0, lbos := v.s.disk, DirectoryPlaces(v, dir);
      ghost var k1, now: seq<seq<Byte>> := k, [];
      match steps[0] {
        case List(n) =>
          var status;
          status, shown := ListDirectory(v, dir, n, k);
          k1, now := Listing(d0, lbos, k, n).1, Listing(d0, lbos, k, n).0;
        case Other(i, length) =>
          var transfer, buffer := v.Read(i, length);
      }
      SamePlaces(v.s.g, d0, v.s.disk, lbos, k1, Batched(steps[1..]));
      ghost var still := Batches(v.s.disk, lbos, k1, Batched(steps[1..]));
      var rest := Browse(v, dir, steps[1..], k1);
      ArcsAppend(now, still);
      assert [] + still == still && [] + rest == rest;
      shown := shown + rest;
    }
  }

  lemma {:induction false} VisibleWhole(d: seq<Byte>, lbos: seq<nat>)
    requires Placed(d, lbos)
    ensures Whole(Visible(d, lbos))
    decreases |lbos|
  {
    if lbos != [] {
      VisibleWhole(d, lbos[1..]);
    }
  }

  /** From the start of the directory: exactly its entries before the end mark that are
      neither deleted nor volume labels, in order and once each, as far as asked for. */
  method BrowseAll(v: Volume, dir: nat, steps: seq<Step>) returns (shown: seq<ArcEntry>)
    requires v.Valid() && Browsable(v, dir, 0, steps)
    modifies v.s`disk, v.s`cached, v.s`cachedFatVbo, v.s`cachedFatDirty, v.s.cachedFat, v.m, v.m.vbo, v.m.lbo,
        v.fileTable
    ensures v.Valid()
    ensures var all, asked := Visible(old(v.s.disk), old(DirectoryPlaces(v, dir))), Sum(Batched(steps));
            Whole(all) && shown == Arcs(if asked < |all| then all[..asked] else all)
  {
    BatchesShowAll(v.s.disk, DirectoryPlaces(v, dir), Batched(steps));
    VisibleWhole(v.s.disk, DirectoryPlaces(v, dir));
    shown := Browse(v, dir, steps, 0);
  }
}
