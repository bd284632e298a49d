/** Sessions on a mounted volume: its files are opened, used and closed in any order, and
    are byte strings throughout, whether open or not. */
module VolumeSessions {
  import opened FatFormat
  import opened FatStore
  import opened FatChains
  import opened FatAllocation
  import opened FileTable
  import opened FileAllocation
  import opened FileRuns
  import opened FileData
  import opened VolumeFiles
  import opened FatVolume
  import opened VolumeRuns

  // A file as a caller sees it, and a handle on one.
  datatype File = File(bytes: seq<Byte>, readOnly: bool, clusters: nat)
  datatype Handle = Handle(file: nat, position: nat)
  datatype Session = Session(files: seq<File>, handles: map<nat, Handle>, free: nat, clusterSize: nat)

  datatype SessionOp = Open(file: nat, slot: nat, mode: OpenMode) | Close(slot: nat) | Use(op: Op)

  // What callers see to: a file is open at most once, handles are free when given out and
  // in use when used, and no file reaches 4 GiB.
  ghost predicate Ready(tableSize: nat, ss: Session, op: SessionOp) {
    match op
    case Open(k, h, _) =>
      && k < |ss.files| && h < tableSize && h !in ss.handles
      && forall j :: j in ss.handles ==> ss.handles[j].file != k
    case Close(h) => h in ss.handles
    case Use(o) =>
      && o.i in ss.handles && (o.Seek? ==> o.offset < 0x1_0000_0000)
      && (o.Write? && ss.handles[o.i].file < |ss.files| ==>
            |ss.files[ss.handles[o.i].file].bytes| + |o.buffer| < 0x1_0000_0000)
  }

  // Handles are on files, within them, and no two on the same file.
  ghost predicate WellPlaced(ss: Session) {
    && ss.clusterSize > 0
    && (forall h :: h in ss.handles ==>
          ss.handles[h].file < |ss.files| && ss.handles[h].position <= |ss.files[ss.handles[h].file].bytes|)
    && forall h, j :: h in ss.handles && j in ss.handles && h != j ==> ss.handles[h].file != ss.handles[j].file
  }

  // One file, as the operations through handle i see it.
  ghost function OneState(i: nat, f: File, position: nat, free: nat, clusterSize: nat): State {
    State(map[i := Plain(f.bytes, position, f.clusters)], free, clusterSize)
  }

  ghost function HandleState(ss: Session, i: nat): State
    requires i in ss.handles && ss.handles[i].file < |ss.files|
  {
    OneState(i, ss.files[ss.handles[i].file], ss.handles[i].position, ss.free, ss.clusterSize)
  }

  // Which writes may be accepted or refused: as VolumeRuns says of one file.
  ghost predicate AllowedOp(tableSize: nat, ss: Session, op: SessionOp, accepted: bool)
    requires Ready(tableSize, ss, op) && WellPlaced(ss)
  {
    op.Use? ==> Allowed(HandleState(ss, op.op.i), op.op, accepted)
  }

  /** One operation on byte strings: superseding empties a file and gives its clusters
      back, and what a handle does is what VolumeRuns says of one file. */
  ghost function NextSession(tableSize: nat, ss: Session, op: SessionOp, accepted: bool): (Session, Reply)
    requires Ready(tableSize, ss, op) && WellPlaced(ss) && AllowedOp(tableSize, ss, op, accepted)
  {
    match op
    case Open(k, h, mode) =>
      if OpenStatus(false, ss.files[k].readOnly, mode) != ESUCCESS then (ss, Refused)
      else if Supersedes(mode) then
        (ss.(files := ss.files[k := File([], false, 0)], handles := ss.handles[h := Handle(k, 0)],
             free := ss.free + ss.files[k].clusters), Done)
      else (ss.(handles := ss.handles[h := Handle(k, 0)]), Done)
    case Close(h) => (ss.(handles := ss.handles - {h}), Done)
    case Use(o) =>
      var k := ss.handles[o.i].file;
      var (st, reply) := VolumeRuns.Next(HandleState(ss, o.i), o, accepted);
      var f := st.files[o.i];
      (ss.(files := ss.files[k := File(f.bytes, ss.files[k].readOnly, f.clusters)],
           handles := ss.handles[o.i := Handle(k, f.position)], free := st.free), reply)
  }

  lemma NextWellPlaced(tableSize: nat, ss: Session, op: SessionOp, accepted: bool)
    requires Ready(tableSize, ss, op) && WellPlaced(ss) && AllowedOp(tableSize, ss, op, accepted)
    ensures WellPlaced(NextSession(tableSize, ss, op, accepted).0)
  {
    hide VolumeRuns.Next, Allowed;
  }

  // Whatever the volume has room for, callers keep to Ready.
  ghost predicate Legal(tableSize: nat, ss: Session, ops: seq<SessionOp>)
    requires WellPlaced(ss)
    decreases |ops|
  {
    ops == [] ||
    (&& Ready(tableSize, ss, ops[0])
     && forall accepted: bool | AllowedOp(tableSize, ss, ops[0], accepted) ::
         (NextWellPlaced(tableSize, ss, ops[0], accepted);
          Legal(tableSize, NextSession(tableSize, ss, ops[0], accepted).0, ops[1..])))
  }

  // One step of a session.
  ghost predicate Steps(tableSize: nat, ss: Session, op: SessionOp, accepted: bool, next: Session, reply: Reply) {
    && Ready(tableSize, ss, op) && WellPlaced(ss) && AllowedOp(tableSize, ss, op, accepted)
    && (next, reply) == NextSession(tableSize, ss, op, accepted)
  }

  /** A whole session: every operation in turn. */
  ghost predicate Outcome(tableSize: nat, ss: Session, ops: seq<SessionOp>, accepted: seq<bool>, end: Session,
          replies: seq<Reply>)
    decreases |ops|
  {
    |accepted| == |replies| == |ops|
    && if ops == [] then end == ss
       else
         && Ready(tableSize, ss, ops[0]) && WellPlaced(ss) && AllowedOp(tableSize, ss, ops[0], accepted[0])
         && var next := NextSession(tableSize, ss, ops[0], accepted[0]).0;
            && Steps(tableSize, ss, ops[0], accepted[0], next, replies[0])
            && Outcome(tableSize, next, ops[1..], accepted[1..], end, replies[1..])
  }

  /** All the files known, open or not: their entries and chains. */
  datatype Catalogue = Catalogue(files: seq<FileEntry>, chains: seq<seq<nat>>)

  ghost function All(n: nat): (r: set<nat>)
    ensures forall k: nat :: k in r <==> k < n
  {
    if n == 0 then {} else All(n - 1) + {n - 1}
  }

  ghost predicate Known(g: Geometry, fat: seq<Word>, d: seq<Byte>, cat: Catalogue)
    requires g.Valid()
  {
    && FilesOk(g, fat, d, cat.files, All(|cat.files|), cat.chains)
    && forall k :: 0 <= k < |cat.files| ==> cat.files[k].direntLbo != 0 && !IsDirectory(cat.files[k])
  }

  // The open files of the volume are files of the catalogue.
  ghost predicate Handles(files: seq<FileEntry>, open: set<nat>, chains: seq<seq<nat>>, cat: Catalogue,
          slots: map<nat, nat>)
  {
    && slots.Keys == open && |chains| == |files| && |cat.chains| == |cat.files|
    && (forall h :: h in slots ==>
          && h < |files| && slots[h] < |cat.files|
          && files[h] == cat.files[slots[h]] && chains[h] == cat.chains[slots[h]])
    && forall h, j :: h in slots && j in slots && h != j ==> slots[h] != slots[j]
  }

  ghost predicate InSession(v: Volume, cat: Catalogue, slots: map<nat, nat>)
    reads v, v.s, v.s.cachedFat, v.m, v.m.vbo, v.m.lbo, v.fileTable
  {
    && v.Valid() && v.s.g.Valid() && Known(v.s.g, v.s.Fat, v.s.disk, cat)
    && Handles(v.fileTable[..], v.open, v.chains, cat, slots)
  }

  lemma KnownFile(g: Geometry, fat: seq<Word>, d: seq<Byte>, cat: Catalogue, k: nat)
    requires g.Valid() && Known(g, fat, d, cat) && k < |cat.files|
    ensures Linked(g, fat) && |fat| == g.clusters + 2 && |d| == g.deviceBytes && g.bytesPerCluster > 0
    ensures |cat.chains| == |cat.files| && FileOk(g, fat, d, cat.files[k], cat.chains[k])
    ensures HomeOutside(g, cat.files[k], cat.files[k], cat.chains[k])
    ensures Clusters(g, cat.chains[k]) && cat.files[k].dirent.fileSize <= Capacity(g, cat.chains[k])
    ensures cat.files[k].direntLbo != 0 && !IsDirectory(cat.files[k])
    ensures cat.files[k].position <= cat.files[k].dirent.fileSize
  {
    assert k in All(|cat.files|);
    Sizes(g, fat);
    FileOkClusters(g, fat, d, cat.files[k], cat.chains[k]);
  }

  lemma KnownApart(g: Geometry, fat: seq<Word>, d: seq<Byte>, cat: Catalogue, k: nat, l: nat)
    requires g.Valid() && Known(g, fat, d, cat) && k < |cat.files| && l < |cat.files| && k != l
    ensures g.bytesPerCluster > 0 && |cat.chains| == |cat.files|
    ensures Apart(g, cat.files[k], cat.chains[k], cat.files[l], cat.chains[l])
  {
    assert k in All(|cat.files|) && l in All(|cat.files|);
    Sizes(g, fat);
  }

  ghost function PlainFile(g: Geometry, fat: seq<Word>, d: seq<Byte>, cat: Catalogue, k: nat): File
    requires g.Valid() && Known(g, fat, d, cat) && k < |cat.files|
  {
    KnownFile(g, fat, d, cat, k);
    File(Contents(g, d, cat.files[k], cat.chains[k]),
         FlagOn(cat.files[k].dirent.attributes, FAT_DIRENT_ATTR_READ_ONLY), |cat.chains[k]|)
  }

  lemma KnownSizes(g: Geometry, fat: seq<Word>, d: seq<Byte>, cat: Catalogue)
    requires g.Valid() && Known(g, fat, d, cat)
    ensures |fat| == g.clusters + 2 && g.bytesPerCluster > 0 && |cat.chains| == |cat.files|
  {
    Sizes(g, fat);
  }

  /** The volume as a caller sees it. */
  ghost function View(g: Geometry, fat: seq<Word>, d: seq<Byte>, cat: Catalogue, slots: map<nat, nat>): Session
    requires g.Valid() && Known(g, fat, d, cat) && forall h :: h in slots ==> slots[h] < |cat.files|
  {
    KnownSizes(g, fat, d, cat);
    Session(seq(|cat.files|, k requires 0 <= k < |cat.files| => PlainFile(g, fat, d, cat, k)),
            HandlesOf(cat, slots), FreeCount(g, fat), g.bytesPerCluster)
  }

  ghost function HandlesOf(cat: Catalogue, slots: map<nat, nat>): map<nat, Handle>
    requires forall h :: h in slots ==> slots[h] < |cat.files|
  {
    map h | h in slots :: Handle(slots[h], cat.files[slots[h]].position)
  }

  lemma ApartBothWays(g: Geometry, f: FileEntry, c: seq<nat>, f': FileEntry, c': seq<nat>)
    requires g.bytesPerCluster > 0 && Apart(g, f, c, f', c')
    ensures Apart(g, f', c', f, c)
  {
  }

  /** One file of the catalogue changes, and the others stay as they were. */
  lemma KnownChanges(g: Geometry, fat: seq<Word>, fat': seq<Word>, d: seq<Byte>, d': seq<Byte>, cat: Catalogue, k: nat,
          f': FileEntry, c': seq<nat>)
    requires g.Valid() && g.bytesPerCluster > 0 && Known(g, fat, d, cat) && k < |cat.files| == |cat.chains|
    requires |fat| == |fat'| == g.clusters + 2 && |d| == |d'| == g.deviceBytes && Linked(g, fat')
    requires OnlyThisFile(g, fat, fat', d, d', cat.files[k], cat.chains[k], f', c')
    requires FileOk(g, fat', d', f', c') && HomeOutside(g, f', f', c') && f'.direntLbo != 0 && !IsDirectory(f')
    ensures var cat' := Catalogue(cat.files[k := f'], cat.chains[k := c']);
            && Known(g, fat', d', cat')
            && forall l :: 0 <= l < |cat.files| && l != k ==>
                PlainFile(g, fat', d', cat', l) == PlainFile(g, fat, d, cat, l)
  {
    hide Geometry.Valid, FileOk, Apart, HomeOutside, OnlyFile, OtherChainsKept, Linked, Contents, IsDirectory, FlagOn;
    var cat' := Catalogue(cat.files[k := f'], cat.chains[k := c']);
    forall l | 0 <= l < |cat.files|
      ensures FileOk(g, fat', d', cat'.files[l], cat'.chains[l])
      ensures HomeOutside(g, cat'.files[l], cat'.files[l], cat'.chains[l])
      ensures l != k ==> Apart(g, f', c', cat.files[l], cat.chains[l]) && Apart(g, cat.files[l], cat.chains[l], f', c')
      ensures l != k ==> SameContents(g, d, d', cat.files[l], cat.chains[l])
    {
      KnownFile(g, fat, d, cat, l);
      if l != k {
        KnownApart(g, fat, d, cat, k, l);
        assert Bystander(g, fat, d, cat.files[k], cat.chains[k], cat.files[l], cat.chains[l]);
        ApartBothWays(g, f', c', cat.files[l], cat.chains[l]);
      }
    }
    forall i, j | i in All(|cat.files|) && j in All(|cat.files|) && i != j
      ensures Apart(g, cat'.files[i], cat'.chains[i], cat'.files[j], cat'.chains[j])
    {
      KnownApart(g, fat, d, cat, i, j);
    }
    assert Known(g, fat', d', cat');
  }

  // At most file k is another.
  ghost predicate OthersStay(g: Geometry, fat: seq<Word>, fat': seq<Word>, d: seq<Byte>, d': seq<Byte>, cat: Catalogue,
          cat': Catalogue, k: nat)
  {
    && g.Valid() && Known(g, fat, d, cat) && Known(g, fat', d', cat') && k < |cat.files| == |cat'.files|
    && cat'.files[k].direntLbo == cat.files[k].direntLbo
    && (forall l :: 0 <= l < |cat.files| && l != k ==> cat'.files[l] == cat.files[l])
    && forall l :: 0 <= l < |cat.files| && l != k ==> PlainFile(g, fat', d', cat', l) == PlainFile(g, fat, d, cat, l)
  }

  // What an operation through a handle does to its file: what Next says.
  ghost predicate AsPlain(before: File, p: nat, free: nat, after: File, p': nat, free': nat, clusterSize: nat, op: Op,
          reply: Reply, accepted: bool)
  {
    && p <= |before.bytes| && after.readOnly == before.readOnly && clusterSize > 0
    && Allowed(OneState(op.i, before, p, free, clusterSize), op, accepted)
    && (OneState(op.i, after, p', free', clusterSize), reply)
        == VolumeRuns.Next(OneState(op.i, before, p, free, clusterSize), op, accepted)
  }

  // Where a directory search finds the entries of the files.
  ghost predicate FoundAt(cat: Catalogue, places: seq<nat>) {
    |places| == |cat.files| && forall k :: 0 <= k < |places| ==> places[k] == cat.files[k].direntLbo
  }

  lemma SessionFacts(v: Volume, cat: Catalogue, slots: map<nat, nat>)
    requires InSession(v, cat, slots)
    ensures v.s.g.Valid() && v.s.g.bytesPerCluster > 0 && |v.s.Fat| == v.s.g.clusters + 2
    ensures |v.s.disk| == v.s.g.deviceBytes && Linked(v.s.g, v.s.Fat) && Known(v.s.g, v.s.Fat, v.s.disk, cat)
    ensures |v.chains| == v.fileTable.Length && |cat.chains| == |cat.files| && slots.Keys == v.open
    ensures forall h :: h in slots ==>
              && h < v.fileTable.Length && slots[h] < |cat.files|
              && v.fileTable[h] == cat.files[slots[h]] && v.chains[h] == cat.chains[slots[h]]
  {
    hide FileOk, Apart, HomeOutside, FlagOn, Geometry.Valid, McbOk, FatStore.Valid;
    StoreFacts(v.s);
    assert forall h :: h in slots ==> v.fileTable[..][h] == v.fileTable[h];
  }

  // The entry of file k as the device holds it.
  lemma EntryOnDisk(g: Geometry, fat: seq<Word>, d: seq<Byte>, cat: Catalogue, k: nat)
    requires g.Valid() && Known(g, fat, d, cat) && k < |cat.files|
    ensures var f := cat.files[k];
            && f.direntLbo + DIRENT_SIZE <= |d|
            && Decode(d[f.direntLbo..f.direntLbo + DIRENT_SIZE]) == f.dirent
  {
    hide Encode, Decode;
    KnownFile(g, fat, d, cat, k);
    DecodeEncode(cat.files[k].dirent);
  }

  // Before file k is opened: its position does not matter.
  lemma AtStart(g: Geometry, fat: seq<Word>, d: seq<Byte>, cat: Catalogue, k: nat)
    requires g.Valid() && Known(g, fat, d, cat) && k < |cat.files| == |cat.chains|
    ensures var f := cat.files[k].(position := 0);
            var cat' := cat.(files := cat.files[k := f]);
            && Known(g, fat, d, cat')
            && forall l :: 0 <= l < |cat.files| ==> PlainFile(g, fat, d, cat', l) == PlainFile(g, fat, d, cat, l)
  {
    hide FileOk, Apart, HomeOutside, Geometry.Valid, FlagOn, Linked;
    KnownFile(g, fat, d, cat, k);
    MoveKeepsFiles(g, fat, d, cat.files, All(|cat.files|), cat.chains, k, 0);
  }

  lemma PlainReadOnly(g: Geometry, fat: seq<Word>, d: seq<Byte>, cat: Catalogue, k: nat)
    requires g.Valid() && Known(g, fat, d, cat) && k < |cat.files|
    ensures PlainFile(g, fat, d, cat, k).readOnly == FlagOn(cat.files[k].dirent.attributes, FAT_DIRENT_ATTR_READ_ONLY)
    ensures |cat.chains| == |cat.files| && PlainFile(g, fat, d, cat, k).clusters == |cat.chains[k]|
  {
  }

  lemma OthersApart(v: Volume, cat: Catalogue, slots: map<nat, nat>, k: nat)
    requires InSession(v, cat, slots) && k < |cat.files| && forall j :: j in slots ==> slots[j] != k
    ensures v.s.g.bytesPerCluster > 0 && |cat.chains| == |cat.files| && |v.chains| == v.fileTable.Length
    ensures forall j :: j in v.open ==>
              && j < v.fileTable.Length
              && Apart(v.s.g, cat.files[k], cat.chains[k], v.fileTable[j], v.chains[j])
  {
    hide FileOk, Apart, HomeOutside, FilesOk, Geometry.Valid, McbOk, FatStore.Valid;
    SessionFacts(v, cat, slots);
    forall j | j in v.open
      ensures Apart(v.s.g, cat.files[k], cat.chains[k], v.fileTable[j], v.chains[j])
    {
      KnownApart(v.s.g, v.s.Fat, v.s.disk, cat, k, slots[j]);
    }
  }

  // How many clusters are free once a file was emptied, or was not.
  ghost predicate FreeGiven(g: Geometry, fat: seq<Word>, fat': seq<Word>, emptied: bool, clusters: nat) {
    && |fat| == |fat'| == g.clusters + 2
    && FreeCount(g, fat') == FreeCount(g, fat) + if emptied then clusters else 0
  }

  // Open file k, whose position is at the start.
  method Enter(v: Volume, places: seq<nat>, k: nat, h: nat, mode: OpenMode, now: seq<Byte>, ghost cat: Catalogue,
          ghost slots: map<nat, nat>)
    returns (reply: Reply, ghost cat': Catalogue, ghost slots': map<nat, nat>)
    requires InSession(v, cat, slots) && FoundAt(cat, places) && |now| == 4
    requires k < |places| && h < v.fileTable.Length && h !in slots
    requires forall j :: j in slots ==> slots[j] != k
    requires cat.files[k].position == 0
    modifies v`open, v`chains, v.fileTable, v.s, v.s.cachedFat
    ensures InSession(v, cat', slots') && FoundAt(cat', places)
    ensures var status := OpenStatus(false, PlainFile(v.s.g, old(v.s.Fat), old(v.s.disk), cat, k).readOnly, mode);
            && reply == (if status == ESUCCESS then Done else Refused)
            && slots' == (if status == ESUCCESS then slots[h := k] else slots)
            && OthersStay(v.s.g, old(v.s.Fat), v.s.Fat, old(v.s.disk), v.s.disk, cat, cat', k)
            && cat'.files[k].position == 0
            && PlainFile(v.s.g, v.s.Fat, v.s.disk, cat', k) ==
               (if status == ESUCCESS && Supersedes(mode) then File([], false, 0)
                else PlainFile(v.s.g, old(v.s.Fat), old(v.s.disk), cat, k))
            && FreeGiven(v.s.g, old(v.s.Fat), v.s.Fat, status == ESUCCESS && Supersedes(mode),
                         PlainFile(v.s.g, old(v.s.Fat), old(v.s.disk), cat, k).clusters)
  {
    hide FileOk, Apart, HomeOutside, Geometry.Valid, FlagOn, Linked, FatStore.Valid, McbOk, OnlyThisFile, Truncated,
        FilesOk, Decode, Contents, FileData.Data, Volume.Valid, Known, PlainFile, Handles, Volume.Bytes, OpenStatus,
        Capacity, Clusters, FreeCount;
    SessionFacts(v, cat, slots);
    ghost var fat0, d0, f, c := v.s.Fat, v.s.disk, cat.files[k], cat.chains[k];
    EntryOnDisk(v.s.g, v.s.Fat, v.s.disk, cat, k);
    KnownFile(v.s.g, v.s.Fat, v.s.disk, cat, k);
    PlainReadOnly(v.s.g, v.s.Fat, v.s.disk, cat, k);
    OthersApart(v, cat, slots, k);
    SlotsDiffer(v.fileTable[..], v.open, v.chains, cat, slots);
    var entry := v.s.DiskRead(places[k], DIRENT_SIZE);
    assert f == FileEntry(0, places[k], Decode(entry));
    var status, flags := v.OpenFound(h, places[k], Decode(entry), mode, now, c);
    reply := if status == ESUCCESS then Done else Refused;
    slots' := if status == ESUCCESS then slots[h := k] else slots;
    cat' := cat;
    v.OpenFacts();
    if status == ESUCCESS && Supersedes(mode) {
      NotReadOnly(f, mode);
      NowEmpty(v, h, now, f);
      KnownChanges(v.s.g, fat0, v.s.Fat, d0, v.s.disk, cat, k, v.fileTable[h], []);
      cat' := Catalogue(cat.files[k := v.fileTable[h]], cat.chains[k := []]);
      EmptyPlain(v.s.g, v.s.Fat, v.s.disk, cat', k);
    }
    HandleGiven(v.fileTable[..], v.open, v.chains, cat', slots, k, h, status == ESUCCESS);
  }

  lemma NotReadOnly(f: FileEntry, mode: OpenMode)
    requires OpenStatus(IsDirectory(f), FlagOn(f.dirent.attributes, FAT_DIRENT_ATTR_READ_ONLY), mode) == ESUCCESS
    requires Supersedes(mode)
    ensures !FlagOn(f.dirent.attributes, FAT_DIRENT_ATTR_READ_ONLY)
  {
  }

  lemma SlotsDiffer(files: seq<FileEntry>, open: set<nat>, chains: seq<seq<nat>>, cat: Catalogue, slots: map<nat, nat>)
    requires Handles(files, open, chains, cat, slots)
    ensures forall i, j :: i in slots && j in slots && i != j ==> slots[i] != slots[j]
  {
  }

  method OpenFile(v: Volume, places: seq<nat>, k: nat, h: nat, mode: OpenMode, now: seq<Byte>, ghost cat: Catalogue,
          ghost slots: map<nat, nat>)
    returns (reply: Reply, ghost cat': Catalogue, ghost slots': map<nat, nat>)
    requires InSession(v, cat, slots) && FoundAt(cat, places) && |now| == 4
    requires k < |places| && h < v.fileTable.Length && h !in slots
    requires forall j :: j in slots ==> slots[j] != k
    modifies v`open, v`chains, v.fileTable, v.s, v.s.cachedFat
    ensures InSession(v, cat', slots') && FoundAt(cat', places)
    ensures var status := OpenStatus(false, PlainFile(v.s.g, old(v.s.Fat), old(v.s.disk), cat, k).readOnly, mode);
            && reply == (if status == ESUCCESS then Done else Refused)
            && slots' == (if status == ESUCCESS then slots[h := k] else slots)
            && OthersStay(v.s.g, old(v.s.Fat), v.s.Fat, old(v.s.disk), v.s.disk, cat, cat', k)
            && cat'.files[k].position == 0
            && PlainFile(v.s.g, v.s.Fat, v.s.disk, cat', k) ==
               (if status == ESUCCESS && Supersedes(mode) then File([], false, 0)
                else PlainFile(v.s.g, old(v.s.Fat), old(v.s.disk), cat, k))
            && FreeGiven(v.s.g, old(v.s.Fat), v.s.Fat, status == ESUCCESS && Supersedes(mode),
                         PlainFile(v.s.g, old(v.s.Fat), old(v.s.disk), cat, k).clusters)
  {
    hide FileOk, Apart, HomeOutside, Geometry.Valid, FlagOn, Linked, FatStore.Valid, McbOk, FilesOk, Volume.Valid,
        PlainFile, OpenStatus, Known;
    SessionFacts(v, cat, slots);
    AtStart(v.s.g, v.s.Fat, v.s.disk, cat, k);
    ghost var cat1 := cat.(files := cat.files[k := cat.files[k].(position := 0)]);
    reply, cat', slots' := Enter(v, places, k, h, mode, now, cat1, slots);
  }

  // What a superseded file has become.
  lemma NowEmpty(v: Volume, h: nat, now: seq<Byte>, f: FileEntry)
    requires v.Valid() && h in v.open && h < v.fileTable.Length && h < |v.chains| && |now| == 4
    requires v.fileTable[h] == TruncatedEntry(f, 0, now) && v.chains[h] == [] && f.direntLbo != 0 && !IsDirectory(f)
    requires !FlagOn(f.dirent.attributes, FAT_DIRENT_ATTR_READ_ONLY)
    ensures v.s.g.Valid() && |v.s.Fat| == v.s.g.clusters + 2 && v.s.g.bytesPerCluster > 0
    ensures |v.s.disk| == v.s.g.deviceBytes && Linked(v.s.g, v.s.Fat)
    ensures var f' := v.fileTable[h];
            && FileOk(v.s.g, v.s.Fat, v.s.disk, f', []) && HomeOutside(v.s.g, f', f', [])
            && f'.direntLbo != 0 && !IsDirectory(f') && !FlagOn(f'.dirent.attributes, FAT_DIRENT_ATTR_READ_ONLY)
  {
    hide FlagOn, FileOk;
    ArchiveOnly();
    v.OpenFacts();
    StoreFacts(v.s);
  }

  lemma EmptyPlain(g: Geometry, fat: seq<Word>, d: seq<Byte>, cat: Catalogue, k: nat)
    requires g.Valid() && Known(g, fat, d, cat) && k < |cat.files| == |cat.chains| && cat.chains[k] == []
    requires !FlagOn(cat.files[k].dirent.attributes, FAT_DIRENT_ATTR_READ_ONLY)
    ensures PlainFile(g, fat, d, cat, k) == File([], false, 0)
  {
    hide FlagOn, FileOk;
    KnownFile(g, fat, d, cat, k);
    NoClusters(g);
  }

  lemma HandleGiven(files: seq<FileEntry>, open: set<nat>, chains: seq<seq<nat>>, cat: Catalogue, slots: map<nat, nat>,
          k: nat, h: nat, given: bool)
    requires h !in slots && (forall j :: j in slots ==> slots[j] != k) && k < |cat.files| == |cat.chains|
    requires h < |files| == |chains| && open == slots.Keys + if given then {h} else {}
    requires forall j :: j in slots ==>
               && j < |files| && slots[j] < |cat.files|
               && files[j] == cat.files[slots[j]] && chains[j] == cat.chains[slots[j]]
    requires forall i, j :: i in slots && j in slots && i != j ==> slots[i] != slots[j]
    requires given ==> files[h] == cat.files[k] && chains[h] == cat.chains[k]
    ensures Handles(files, open, chains, cat, if given then slots[h := k] else slots)
  {
    var slots' := if given then slots[h := k] else slots;
    assert slots'.Keys == open;
  }

  lemma SameKnown(g: Geometry, fat: seq<Word>, d: seq<Byte>, d': seq<Byte>, cat: Catalogue)
    requires g.Valid() && Known(g, fat, d, cat) && SameData(g, d, d')
    ensures Known(g, fat, d', cat)
    ensures forall k :: 0 <= k < |cat.files| ==> PlainFile(g, fat, d', cat, k) == PlainFile(g, fat, d, cat, k)
  {
    hide FileOk, Apart, HomeOutside, Geometry.Valid, FlagOn, SameData, Contents;
    SameKeepsFiles(g, fat, d, d', cat.files, All(|cat.files|), cat.chains);
    forall k | 0 <= k < |cat.files|
      ensures PlainFile(g, fat, d', cat, k) == PlainFile(g, fat, d, cat, k)
    {
      assert k in All(|cat.files|);
      assert SameContents(g, d, d', cat.files[k], cat.chains[k]);
    }
  }

  method CloseFile(v: Volume, h: nat, ghost cat: Catalogue, ghost slots: map<nat, nat>)
    requires InSession(v, cat, slots) && h in slots && v.fileTable.Length <= BL_FILE_TABLE_SIZE
    modifies v`open, v.s`disk, v.s`cachedFatDirty, v.m`fileId, v.m`inUse
    ensures InSession(v, cat, slots - {h})
    ensures forall k :: 0 <= k < |cat.files| ==>
              PlainFile(v.s.g, v.s.Fat, v.s.disk, cat, k) == PlainFile(v.s.g, v.s.Fat, old(v.s.disk), cat, k)
  {
    hide FileOk, Apart, HomeOutside, Geometry.Valid, FlagOn, FatStore.Valid, McbOk, FilesOk, Volume.Valid, PlainFile,
        Known, SameData, Volume.Bytes;
    SessionFacts(v, cat, slots);
    ghost var d0 := v.s.disk;
    var status := v.Close(h);
    SameKnown(v.s.g, v.s.Fat, d0, v.s.disk, cat);
  }

  lemma OneOpenFile(v: Volume, cat: Catalogue, slots: map<nat, nat>, h: nat)
    requires InSession(v, cat, slots) && h in slots
    ensures |v.s.Fat| == v.s.g.clusters + 2
    ensures Regular(v, {h}) && Files(v, {h}) == OneState(
              h, PlainFile(v.s.g, v.s.Fat, v.s.disk, cat, slots[h]), cat.files[slots[h]].position,
              FreeCount(v.s.g, v.s.Fat), v.s.g.bytesPerCluster)
    ensures v.Bytes(h) == PlainFile(v.s.g, v.s.Fat, v.s.disk, cat, slots[h]).bytes
  {
    hide FileOk, Apart, HomeOutside, Geometry.Valid, FlagOn, FatStore.Valid, McbOk, FilesOk;
    SessionFacts(v, cat, slots);
    KnownFile(v.s.g, v.s.Fat, v.s.disk, cat, slots[h]);
  }

  method UseFile(v: Volume, op: Op, ghost cat: Catalogue, ghost slots: map<nat, nat>)
    returns (reply: Reply, ghost accepted: bool, ghost cat': Catalogue)
    requires InSession(v, cat, slots) && op.i in slots
    requires op.Seek? ==> op.offset < 0x1_0000_0000
    requires op.Write? ==>
        |PlainFile(v.s.g, v.s.Fat, v.s.disk, cat, slots[op.i]).bytes| + |op.buffer| < 0x1_0000_0000
    modifies v`chains, v.s, v.s.cachedFat, v.m, v.m.vbo, v.m.lbo, v.fileTable
    ensures InSession(v, cat', slots)
    ensures OthersStay(v.s.g, old(v.s.Fat), v.s.Fat, old(v.s.disk), v.s.disk, cat, cat', slots[op.i])
    ensures |v.s.Fat| == |old(v.s.Fat)| == v.s.g.clusters + 2
    ensures AsPlain(PlainFile(v.s.g, old(v.s.Fat), old(v.s.disk), cat, slots[op.i]), cat.files[slots[op.i]].position,
                    FreeCount(v.s.g, old(v.s.Fat)), PlainFile(v.s.g, v.s.Fat, v.s.disk, cat', slots[op.i]),
                    cat'.files[slots[op.i]].position, FreeCount(v.s.g, v.s.Fat), v.s.g.bytesPerCluster, op, reply,
                    accepted)
  {
    hide FileOk, Apart, HomeOutside, Geometry.Valid, FlagOn, FatStore.Valid, McbOk, FilesOk, Volume.Valid, PlainFile,
        Known, Volume.Bytes, VolumeRuns.Next, OnlyOpenFile, Handles, OnlyThisFile, Linked, Allowed, FreeCount, Files;
    SessionFacts(v, cat, slots);
    OneOpenFile(v, cat, slots, op.i);
    RegularPositioned(v, {op.i});
    ghost var k, fat0, d0, files, chains := slots[op.i], v.s.Fat, v.s.disk, v.fileTable[..], v.chains;
    reply, accepted := Perform(v, op, {op.i});
    Used(v, fat0, d0, files, chains, cat, slots, op.i);
    cat' := Catalogue(cat.files[k := v.fileTable[op.i]], cat.chains[k := v.chains[op.i]]);
    OneOpenFile(v, cat', slots, op.i);
  }

  // The catalogue after file slots[h] was used through handle h.
  lemma Used(v: Volume, fat: seq<Word>, d: seq<Byte>, files: seq<FileEntry>, chains: seq<seq<nat>>, cat: Catalogue,
          slots: map<nat, nat>, h: nat)
    requires v.Valid() && v.s.g.Valid() && Known(v.s.g, fat, d, cat) && Handles(files, v.open, chains, cat, slots)
    requires h in slots
    requires OnlyOpenFile(v.s.g, fat, v.s.Fat, d, v.s.disk, files, v.fileTable[..], v.open, chains, v.chains, h)
    ensures h < v.fileTable.Length == |v.chains| && slots[h] < |cat.files| == |cat.chains|
    ensures var k := slots[h];
            var cat' := Catalogue(cat.files[k := v.fileTable[h]], cat.chains[k := v.chains[h]]);
            && InSession(v, cat', slots)
            && PlainFile(v.s.g, v.s.Fat, v.s.disk, cat', k).readOnly == PlainFile(v.s.g, fat, d, cat, k).readOnly
            && OthersStay(v.s.g, fat, v.s.Fat, d, v.s.disk, cat, cat', k)
  {
    hide FileOk, Apart, HomeOutside, Geometry.Valid, FlagOn, FatStore.Valid, McbOk, OnlyThisFile, Linked, Contents;
    var k := slots[h];
    assert files[h] == cat.files[k] && chains[h] == cat.chains[k];
    KnownFile(v.s.g, fat, d, cat, k);
    SameKind(cat.files[k], v.fileTable[h]);
    assert HomeOutside(v.s.g, v.fileTable[..][h], v.fileTable[..][h], v.chains[h]);
    KnownChanges(v.s.g, fat, v.s.Fat, d, v.s.disk, cat, k, v.fileTable[h], v.chains[h]);
  }

  lemma SameKind(f: FileEntry, f': FileEntry)
    requires f'.dirent.attributes == f.dirent.attributes
    ensures IsDirectory(f') <==> IsDirectory(f)
  {
  }

  ghost predicate Slotted(cat: Catalogue, slots: map<nat, nat>) {
    && (forall h :: h in slots ==> slots[h] < |cat.files|)
    && forall h, j :: h in slots && j in slots && h != j ==> slots[h] != slots[j]
  }

  lemma ViewPlaced(g: Geometry, fat: seq<Word>, d: seq<Byte>, cat: Catalogue, slots: map<nat, nat>)
    requires g.Valid() && Known(g, fat, d, cat) && Slotted(cat, slots)
    ensures WellPlaced(View(g, fat, d, cat, slots))
  {
    hide FileOk, Apart, HomeOutside, Geometry.Valid, FlagOn, Contents, Known, FreeCount;
    KnownSizes(g, fat, d, cat);
    forall h | h in slots
      ensures cat.files[slots[h]].position <= |PlainFile(g, fat, d, cat, slots[h]).bytes|
    {
      KnownFile(g, fat, d, cat, slots[h]);
    }
  }

  lemma ViewFacts(g: Geometry, fat: seq<Word>, d: seq<Byte>, cat: Catalogue, slots: map<nat, nat>)
    requires g.Valid() && Known(g, fat, d, cat) && Slotted(cat, slots)
    ensures var ss := View(g, fat, d, cat, slots);
            && |ss.files| == |cat.files|
            && (forall l :: 0 <= l < |cat.files| ==> ss.files[l] == PlainFile(g, fat, d, cat, l))
            && ss.handles == HandlesOf(cat, slots)
            && |fat| == g.clusters + 2 && ss.free == FreeCount(g, fat) && ss.clusterSize == g.bytesPerCluster
  {
    hide PlainFile, Known, Geometry.Valid, FreeCount;
    KnownSizes(g, fat, d, cat);
  }

  lemma MoreHandles(cat: Catalogue, cat': Catalogue, slots: map<nat, nat>, k: nat, h: nat)
    requires Slotted(cat, slots) && |cat'.files| == |cat.files| && k < |cat.files| && cat'.files[k].position == 0
    requires h !in slots && forall j :: j in slots ==> slots[j] != k
    requires forall l :: 0 <= l < |cat.files| && l != k ==> cat'.files[l] == cat.files[l]
    ensures Slotted(cat', slots[h := k]) && Slotted(cat', slots)
    ensures HandlesOf(cat', slots[h := k]) == HandlesOf(cat, slots)[h := Handle(k, 0)]
    ensures HandlesOf(cat', slots) == HandlesOf(cat, slots)
  {
  }

  // Opening given or refused; `slots` is with or without the new handle.
  lemma OpenView(g: Geometry, fat: seq<Word>, fat': seq<Word>, d: seq<Byte>, d': seq<Byte>, cat: Catalogue,
          cat': Catalogue, slots: map<nat, nat>, slots': map<nat, nat>, n: nat, k: nat, h: nat, mode: OpenMode)
    requires OthersStay(g, fat, fat', d, d', cat, cat', k) && Slotted(cat, slots) && Slotted(cat', slots')
    requires Ready(n, View(g, fat, d, cat, slots), Open(k, h, mode)) && cat'.files[k].position == 0
    requires h !in slots && forall j :: j in slots ==> slots[j] != k
    requires var status := OpenStatus(false, PlainFile(g, fat, d, cat, k).readOnly, mode);
             && slots' == (if status == ESUCCESS then slots[h := k] else slots)
             && PlainFile(g, fat', d', cat', k) ==
                (if status == ESUCCESS && Supersedes(mode) then File([], false, 0) else PlainFile(g, fat, d, cat, k))
             && FreeGiven(g, fat, fat', status == ESUCCESS && Supersedes(mode), PlainFile(g, fat, d, cat, k).clusters)
    ensures Steps(n, View(g, fat, d, cat, slots), Open(k, h, mode), true, View(g, fat', d', cat', slots'),
                  if OpenStatus(false, PlainFile(g, fat, d, cat, k).readOnly, mode) == ESUCCESS then Done else Refused)
  {
    hide PlainFile, Known, Geometry.Valid, OpenStatus, WellPlaced, View, Ready, Steps, HandlesOf, FreeCount;
    ViewPlaced(g, fat, d, cat, slots);
    ViewFacts(g, fat, d, cat, slots);
    ViewFacts(g, fat', d', cat', slots');
    var ss, ss' := View(g, fat, d, cat, slots), View(g, fat', d', cat', slots');
    MoreHandles(cat, cat', slots, k, h);
    OpenSteps(n, ss, ss', k, h, mode);
  }

  lemma OpenSteps(n: nat, ss: Session, ss': Session, k: nat, h: nat, mode: OpenMode)
    requires Ready(n, ss, Open(k, h, mode)) && WellPlaced(ss)
    requires var status := OpenStatus(false, ss.files[k].readOnly, mode);
             && |ss'.files| == |ss.files|
             && (forall l :: 0 <= l < |ss.files| && l != k ==> ss'.files[l] == ss.files[l])
             && ss'.files[k] == (if status == ESUCCESS && Supersedes(mode) then File([], false, 0) else ss.files[k])
             && ss'.free == ss.free + (if status == ESUCCESS && Supersedes(mode) then ss.files[k].clusters else 0)
             && ss'.clusterSize == ss.clusterSize
             && ss'.handles == if status == ESUCCESS then ss.handles[h := Handle(k, 0)] else ss.handles
    ensures Steps(n, ss, Open(k, h, mode), true, ss',
                  if OpenStatus(false, ss.files[k].readOnly, mode) == ESUCCESS then Done else Refused)
  {
    hide OpenStatus, WellPlaced;
    var status := OpenStatus(false, ss.files[k].readOnly, mode);
    assert ss'.files == if status == ESUCCESS && Supersedes(mode) then ss.files[k := File([], false, 0)] else ss.files;
  }

  lemma CloseView(g: Geometry, fat: seq<Word>, d: seq<Byte>, d': seq<Byte>, cat: Catalogue, slots: map<nat, nat>,
          n: nat, h: nat)
    requires g.Valid() && Known(g, fat, d, cat) && Known(g, fat, d', cat) && Slotted(cat, slots) && h in slots
    requires forall k :: 0 <= k < |cat.files| ==> PlainFile(g, fat, d', cat, k) == PlainFile(g, fat, d, cat, k)
    ensures Slotted(cat, slots - {h})
    ensures Steps(n, View(g, fat, d, cat, slots), Close(h), true, View(g, fat, d', cat, slots - {h}), Done)
  {
    hide PlainFile, Known, Geometry.Valid, View, WellPlaced, FreeCount;
    ViewPlaced(g, fat, d, cat, slots);
    ViewFacts(g, fat, d, cat, slots);
    ViewFacts(g, fat, d', cat, slots - {h});
    var ss, ss' := View(g, fat, d, cat, slots), View(g, fat, d', cat, slots - {h});
    assert ss'.files == ss.files;
    assert ss'.handles == ss.handles - {h};
  }

  lemma UseView(g: Geometry, fat: seq<Word>, fat': seq<Word>, d: seq<Byte>, d': seq<Byte>, cat: Catalogue,
          cat': Catalogue, slots: map<nat, nat>, n: nat, op: Op, reply: Reply, accepted: bool)
    requires op.i in slots && Slotted(cat, slots) && OthersStay(g, fat, fat', d, d', cat, cat', slots[op.i])
    requires |fat| == |fat'| == g.clusters + 2
    requires AsPlain(PlainFile(g, fat, d, cat, slots[op.i]), cat.files[slots[op.i]].position,
                     FreeCount(g, fat), PlainFile(g, fat', d', cat', slots[op.i]), cat'.files[slots[op.i]].position,
                     FreeCount(g, fat'), g.bytesPerCluster, op, reply, accepted)
    requires Ready(n, View(g, fat, d, cat, slots), Use(op))
    ensures Slotted(cat', slots)
    ensures Steps(n, View(g, fat, d, cat, slots), Use(op), accepted, View(g, fat', d', cat', slots), reply)
  {
    hide PlainFile, Known, Geometry.Valid, VolumeRuns.Next, View, WellPlaced, Allowed, FreeCount;
    ViewPlaced(g, fat, d, cat, slots);
    ViewFacts(g, fat, d, cat, slots);
    ViewFacts(g, fat', d', cat', slots);
    var k, ss, ss' := slots[op.i], View(g, fat, d, cat, slots), View(g, fat', d', cat', slots);
    var next := NextSession(n, ss, Use(op), accepted).0;
    assert forall l :: 0 <= l < |cat.files| ==> ss'.files[l] == next.files[l];
    assert ss'.files == next.files;
    assert ss'.handles == next.handles;
  }

  lemma SlotGiven(cat: Catalogue, cat': Catalogue, slots: map<nat, nat>, slots': map<nat, nat>, k: nat, h: nat)
    requires Slotted(cat, slots) && |cat'.files| == |cat.files| && k < |cat.files|
    requires h !in slots && (forall j :: j in slots ==> slots[j] != k) && slots' in {slots, slots[h := k]}
    ensures Slotted(cat', slots')
  {
  }

  method OpenOne(v: Volume, places: seq<nat>, k: nat, h: nat, mode: OpenMode, now: seq<Byte>, ghost cat: Catalogue,
          ghost slots: map<nat, nat>)
    returns (reply: Reply, ghost cat': Catalogue, ghost slots': map<nat, nat>)
    requires InSession(v, cat, slots) && FoundAt(cat, places) && |now| == 4 && Slotted(cat, slots)
    requires Ready(v.fileTable.Length, View(v.s.g, v.s.Fat, v.s.disk, cat, slots), Open(k, h, mode))
    modifies v`open, v`chains, v.fileTable, v.s, v.s.cachedFat
    ensures InSession(v, cat', slots') && FoundAt(cat', places) && Slotted(cat', slots')
    ensures Steps(v.fileTable.Length, View(v.s.g, old(v.s.Fat), old(v.s.disk), cat, slots), Open(k, h, mode), true,
                  View(v.s.g, v.s.Fat, v.s.disk, cat', slots'), reply)
  {
    hide Volume.Valid, Known, PlainFile, Handles, OpenStatus, Steps, Geometry.Valid, FlagOn, View;
    SessionFacts(v, cat, slots);
    ViewFacts(v.s.g, v.s.Fat, v.s.disk, cat, slots);
    ghost var fat0, d0, ss := v.s.Fat, v.s.disk, View(v.s.g, v.s.Fat, v.s.disk, cat, slots);
    assert forall j :: j in slots ==> ss.handles[j].file == slots[j];
    reply, cat', slots' := OpenFile(v, places, k, h, mode, now, cat, slots);
    SlotGiven(cat, cat', slots, slots', k, h);
    OpenView(v.s.g, fat0, v.s.Fat, d0, v.s.disk, cat, cat', slots, slots', v.fileTable.Length, k, h, mode);
  }

  method UseOne(v: Volume, places: seq<nat>, op: Op, ghost cat: Catalogue, ghost slots: map<nat, nat>)
    returns (reply: Reply, ghost accepted: bool, ghost cat': Catalogue)
    requires InSession(v, cat, slots) && FoundAt(cat, places) && Slotted(cat, slots)
    requires Ready(v.fileTable.Length, View(v.s.g, v.s.Fat, v.s.disk, cat, slots), Use(op))
    modifies v`chains, v.s, v.s.cachedFat, v.m, v.m.vbo, v.m.lbo, v.fileTable
    ensures InSession(v, cat', slots) && FoundAt(cat', places) && Slotted(cat', slots)
    ensures Steps(v.fileTable.Length, View(v.s.g, old(v.s.Fat), old(v.s.disk), cat, slots), Use(op), accepted,
                  View(v.s.g, v.s.Fat, v.s.disk, cat', slots), reply)
  {
    hide Volume.Valid, Known, PlainFile, Handles, Steps, AsPlain, Geometry.Valid, View, OthersStay;
    SessionFacts(v, cat, slots);
    ViewFacts(v.s.g, v.s.Fat, v.s.disk, cat, slots);
    ghost var fat0, d0, ss := v.s.Fat, v.s.disk, View(v.s.g, v.s.Fat, v.s.disk, cat, slots);
    assert ss.handles[op.i].file == slots[op.i];
    reply, accepted, cat' := UseFile(v, op, cat, slots);
    StillFound(v.s.g, fat0, v.s.Fat, d0, v.s.disk, cat, cat', slots[op.i], places);
    UseView(v.s.g, fat0, v.s.Fat, d0, v.s.disk, cat, cat', slots, v.fileTable.Length, op, reply, accepted);
  }

  lemma StillFound(g: Geometry, fat: seq<Word>, fat': seq<Word>, d: seq<Byte>, d': seq<Byte>, cat: Catalogue,
          cat': Catalogue, k: nat, places: seq<nat>)
    requires OthersStay(g, fat, fat', d, d', cat, cat', k) && FoundAt(cat, places)
    ensures FoundAt(cat', places)
  {
    hide Known, PlainFile;
    assert forall l :: 0 <= l < |cat.files| ==> cat'.files[l].direntLbo == cat.files[l].direntLbo;
  }

  method CloseOne(v: Volume, h: nat, ghost cat: Catalogue, ghost slots: map<nat, nat>) returns (reply: Reply)
    requires InSession(v, cat, slots) && Slotted(cat, slots) && v.fileTable.Length <= BL_FILE_TABLE_SIZE
    requires Ready(v.fileTable.Length, View(v.s.g, v.s.Fat, v.s.disk, cat, slots), Close(h))
    modifies v`open, v.s`disk, v.s`cachedFatDirty, v.m`fileId, v.m`inUse
    ensures InSession(v, cat, slots - {h}) && Slotted(cat, slots - {h})
    ensures Steps(v.fileTable.Length, View(v.s.g, v.s.Fat, old(v.s.disk), cat, slots), Close(h), true,
                  View(v.s.g, v.s.Fat, v.s.disk, cat, slots - {h}), reply)
  {
    hide Volume.Valid, Known, PlainFile, Handles, Steps, Geometry.Valid, View;
    SessionFacts(v, cat, slots);
    ViewFacts(v.s.g, v.s.Fat, v.s.disk, cat, slots);
    ghost var d0 := v.s.disk;
    CloseFile(v, h, cat, slots);
    SessionFacts(v, cat, slots - {h});
    CloseView(v.s.g, v.s.Fat, d0, v.s.disk, cat, slots, v.fileTable.Length, h);
    reply := Done;
  }

  // One operation of the volume is one operation on byte strings.
  method PerformOp(v: Volume, places: seq<nat>, op: SessionOp, now: seq<Byte>, ghost cat: Catalogue,
          ghost slots: map<nat, nat>)
    returns (reply: Reply, ghost accepted: bool, ghost cat': Catalogue, ghost slots': map<nat, nat>)
    requires InSession(v, cat, slots) && FoundAt(cat, places) && |now| == 4
    requires Slotted(cat, slots) && v.fileTable.Length <= BL_FILE_TABLE_SIZE
    requires Ready(v.fileTable.Length, View(v.s.g, v.s.Fat, v.s.disk, cat, slots), op)
    modifies v`open, v`chains, v.s, v.s.cachedFat, v.m, v.m.vbo, v.m.lbo, v.fileTable
    ensures InSession(v, cat', slots') && FoundAt(cat', places) && Slotted(cat', slots')
    ensures Steps(v.fileTable.Length, View(v.s.g, old(v.s.Fat), old(v.s.disk), cat, slots), op, accepted,
                  View(v.s.g, v.s.Fat, v.s.disk, cat', slots'), reply)
  {
    hide Volume.Valid, InSession, Ready, FoundAt, Slotted, Steps, View;
    accepted, cat', slots' := true, cat, slots;
    match op {
      case Open(k, h, mode) =>
        reply, cat', slots' := OpenOne(v, places, k, h, mode, now, cat, slots);
      case Close(h) =>
        reply := CloseOne(v, h, cat, slots);
        slots' := slots - {h};
      case Use(o) =>
        reply, accepted, cat' := UseOne(v, places, o, cat, slots);
    }
  }

  lemma LegalNext(tableSize: nat, ss: Session, ops: seq<SessionOp>, accepted: bool, next: Session, reply: Reply)
    requires WellPlaced(ss) && Legal(tableSize, ss, ops) && ops != []
    ensures Ready(tableSize, ss, ops[0])
    ensures Steps(tableSize, ss, ops[0], accepted, next, reply) ==>
              WellPlaced(next) && Legal(tableSize, next, ops[1..])
  {
    hide NextSession, Ready, WellPlaced, AllowedOp;
    if Steps(tableSize, ss, ops[0], accepted, next, reply) {
      NextWellPlaced(tableSize, ss, ops[0], accepted);
    }
  }

  lemma OutcomeFirst(tableSize: nat, ss: Session, ops: seq<SessionOp>, first: bool, next: Session, reply: Reply,
          accepted: seq<bool>, end: Session, replies: seq<Reply>)
    requires ops != [] && Steps(tableSize, ss, ops[0], first, next, reply)
    requires Outcome(tableSize, next, ops[1..], accepted, end, replies)
    ensures Outcome(tableSize, ss, ops, [first] + accepted, end, [reply] + replies)
  {
    hide NextSession, Ready, WellPlaced, AllowedOp;
    assert ([first] + accepted)[1..] == accepted && ([reply] + replies)[1..] == replies;
  }

  /** Any sequence of opens, in every mode, closes, reads, writes and seeks gives the
      replies and leaves the files, open or not, that the same operations give on byte
      strings. `clock` holds the times of day they happen at. */
  method Execute(v: Volume, places: seq<nat>, ops: seq<SessionOp>, clock: seq<seq<Byte>>, ghost cat: Catalogue,
          ghost slots: map<nat, nat>)
    returns (replies: seq<Reply>, ghost accepted: seq<bool>, ghost cat': Catalogue, ghost slots': map<nat, nat>)
    requires InSession(v, cat, slots) && FoundAt(cat, places) && Slotted(cat, slots)
    requires v.fileTable.Length <= BL_FILE_TABLE_SIZE
    requires |clock| == |ops| && forall k :: 0 <= k < |clock| ==> |clock[k]| == 4
    requires var ss := View(v.s.g, v.s.Fat, v.s.disk, cat, slots);
             WellPlaced(ss) && Legal(v.fileTable.Length, ss, ops)
    modifies v`open, v`chains, v.s, v.s.cachedFat, v.m, v.m.vbo, v.m.lbo, v.fileTable
    ensures InSession(v, cat', slots') && FoundAt(cat', places) && Slotted(cat', slots')
    ensures Outcome(v.fileTable.Length, View(v.s.g, old(v.s.Fat), old(v.s.disk), cat, slots), ops, accepted,
                    View(v.s.g, v.s.Fat, v.s.disk, cat', slots'), replies)
    decreases |ops|
  {
    hide Volume.Valid, Known, Handles, FoundAt, Steps, View, Ready, WellPlaced, NextSession, Legal;
    ghost var ss := View(v.s.g, v.s.Fat, v.s.disk, cat, slots);
    if ops == [] {
      return [], [], cat, slots;
    }
    LegalNext(v.fileTable.Length, ss, ops, true, ss, Done);
    var reply;
    ghost var first, cat1, slots1;
    reply, first, cat1, slots1 := PerformOp(v, places, ops[0], clock[0], cat, slots);
    ghost var next := View(v.s.g, v.s.Fat, v.s.disk, cat1, slots1);
    LegalNext(v.fileTable.Length, ss, ops, first, next, reply);
    ghost var rest;
    replies, rest, cat', slots' := Execute(v, places, ops[1..], clock[1..], cat1, slots1);
    OutcomeFirst(v.fileTable.Length, ss, ops, first, next, reply, rest, View(v.s.g, v.s.Fat, v.s.disk, cat', slots'),
                 replies);
    accepted := [first] + rest;
    replies := [reply] + replies;
  }
}
