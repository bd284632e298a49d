/** A directory as the list of places of its entries, and what looking up a name,
    finding a free place and listing it mean on that list. */
module DirectorySlots {
  import opened FatFormat
  import opened FatChains
  import opened FileTable
  import Arith

  // n places, one entry apart, from lbo on.
  ghost function Run(lbo: nat, n: nat): (r: seq<nat>)
    ensures |r| == n
    decreases n
  {
    if n == 0 then [] else [lbo] + Run(lbo + DIRENT_SIZE, n - 1)
  }

  lemma {:induction false} RunAt(lbo: nat, n: nat)
    ensures forall i :: 0 <= i < n ==> Run(lbo, n)[i] == lbo + i * DIRENT_SIZE
    decreases n
  {
    if n > 0 {
      RunAt(lbo + DIRENT_SIZE, n - 1);
    }
  }

  ghost function RootSlots(g: Geometry): seq<nat> {
    Run(g.rootLbo, g.rootSize / DIRENT_SIZE)
  }

  ghost function ClusterSlots(g: Geometry, e: nat): seq<nat>
    requires e >= 2
  {
    Run(g.IndexToLbo(e), g.bytesPerCluster / DIRENT_SIZE)
  }

  // The places of a directory whose chain is c.
  ghost function Slots(g: Geometry, c: seq<nat>): seq<nat>
    requires forall k :: 0 <= k < |c| ==> g.InRange(c[k])
  {
    if c == [] then []
    else
      assert g.InRange(c[0]);
      ClusterSlots(g, c[0]) + Slots(g, c[1..])
  }

  // Every place holds a whole entry.
  ghost predicate Placed(d: seq<Byte>, lbos: seq<nat>) {
    forall i :: 0 <= i < |lbos| ==> lbos[i] + DIRENT_SIZE <= |d|
  }

  ghost predicate SameEntry(d: seq<Byte>, d': seq<Byte>, l: nat) {
    l + DIRENT_SIZE <= |d| == |d'| && d'[l..l + DIRENT_SIZE] == d[l..l + DIRENT_SIZE]
  }

  predicate Matches(d: seq<Byte>, l: nat, name: seq<Byte>, root: bool)
    requires l + DIRENT_SIZE <= |d|
  {
    (root ==> !FlagOn(d[l + 11], FAT_DIRENT_ATTR_VOLUME_ID)) && d[l..l + 11] == name
  }

  /** Where a directory search finds a name: the first place whose entry matches,
      unless a never-used entry comes before. Volume labels are passed over in the
      root directory only. */
  ghost function Find(d: seq<Byte>, lbos: seq<nat>, name: seq<Byte>, root: bool): Option<nat>
    requires Placed(d, lbos)
  {
    if lbos == [] then None
    else if Matches(d, lbos[0], name, root) then Some(lbos[0])
    else if d[lbos[0]] == FAT_DIRENT_NEVER_USED then None
    else Find(d, lbos[1..], name, root)
  }

  /** It ends at the n-th place: every place before has a used entry that is of another name
      or, in the root directory, a volume label; the n-th is the one sought, or never used,
      or past the last. */
  lemma {:induction false} FindIsFirst(d: seq<Byte>, lbos: seq<nat>, name: seq<Byte>, root: bool) returns (n: nat)
    requires Placed(d, lbos)
    ensures n <= |lbos|
    ensures forall j {:trigger lbos[j]} | 0 <= j < n ::
              d[lbos[j]] != 0 && (d[lbos[j]..lbos[j] + 11] == name ==> root && d[lbos[j] + 11] / 8 % 2 == 1)
    ensures match Find(d, lbos, name, root)
            case Some(l) =>
              n < |lbos| && l == lbos[n] && d[l..l + 11] == name && (root ==> d[l + 11] / 8 % 2 == 0)
            case None =>
              n < |lbos| ==>
                d[lbos[n]] == 0 && (d[lbos[n]..lbos[n] + 11] == name ==> root && d[lbos[n] + 11] / 8 % 2 == 1)
    decreases |lbos|
  {
    if lbos == [] || Matches(d, lbos[0], name, root) || d[lbos[0]] == FAT_DIRENT_NEVER_USED {
      n := 0;
    } else {
      var rest := lbos[1..];
      n := FindIsFirst(d, rest, name, root);
      forall j | 0 < j <= n && j < |lbos|
        ensures rest[j - 1] == lbos[j]
      {
      }
      n := n + 1;
    }
  }

  predicate IsFreeSlot(d: seq<Byte>, l: nat)
    requires l < |d|
  {
    d[l] == FAT_DIRENT_DELETED || d[l] == FAT_DIRENT_NEVER_USED
  }

  // The first place a new entry may take.
  ghost function FirstFree(d: seq<Byte>, lbos: seq<nat>): Option<nat>
    requires Placed(d, lbos)
  {
    if lbos == [] then None
    else if IsFreeSlot(d, lbos[0]) then Some(lbos[0])
    else FirstFree(d, lbos[1..])
  }

  // It is deleted or was never used, and no place before it is.
  lemma {:induction false} FirstFreeIsFirst(d: seq<Byte>, lbos: seq<nat>) returns (n: nat)
    requires Placed(d, lbos)
    ensures n <= |lbos| && forall j :: 0 <= j < n ==> d[lbos[j]] !in {0, 0xe5}
    ensures FirstFree(d, lbos) == if n < |lbos| then Some(lbos[n]) else None
    ensures n < |lbos| ==> d[lbos[n]] in {0, 0xe5}
    decreases |lbos|
  {
    if lbos == [] || IsFreeSlot(d, lbos[0]) {
      n := 0;
    } else {
      n := FirstFreeIsFirst(d, lbos[1..]);
      assert forall j :: 0 < j < |lbos| ==> lbos[j] == lbos[1..][j - 1];
      n := n + 1;
    }
  }

  // d' differs from d, on these places, only by the entry written at l.
  ghost predicate EntryPut(d: seq<Byte>, d': seq<Byte>, lbos: seq<nat>, l: nat, entry: seq<Byte>)
    requires |entry| == DIRENT_SIZE && l + DIRENT_SIZE <= |d'|
    requires Placed(d, lbos)
  {
    && |d'| == |d| && d'[l..l + DIRENT_SIZE] == entry
    && forall i :: 0 <= i < |lbos| && lbos[i] != l ==> SameEntry(d, d', lbos[i])
  }

  lemma SameSlot(d: seq<Byte>, d': seq<Byte>, k: nat)
    requires SameEntry(d, d', k)
    ensures d'[k] == d[k] && d'[k + 11] == d[k + 11] && d'[k..k + 11] == d[k..k + 11]
  {
    var e, e' := d[k..k + DIRENT_SIZE], d'[k..k + DIRENT_SIZE];
    assert e[0] == d[k] && e'[0] == d'[k] && e[11] == d[k + 11] && e'[11] == d'[k + 11];
    assert d[k..k + 11] == e[..11] && d'[k..k + 11] == e'[..11];
  }

  // A name as the searches are given it: never that of an unused or deleted entry.
  predicate SearchName(name: seq<Byte>) {
    |name| == 11 && name[0] != FAT_DIRENT_NEVER_USED && name[0] != FAT_DIRENT_DELETED
  }

  lemma {:induction false} FindAppend(d: seq<Byte>, lbos: seq<nat>, rest: seq<nat>, name: seq<Byte>, root: bool)
    requires Placed(d, lbos) && Placed(d, rest)
    requires Find(d, lbos, name, root).Some?
    ensures Placed(d, lbos + rest)
    ensures Find(d, lbos + rest, name, root) == Find(d, lbos, name, root)
    decreases |lbos|
  {
    if !Matches(d, lbos[0], name, root) {
      assert (lbos + rest)[1..] == lbos[1..] + rest;
      FindAppend(d, lbos[1..], rest, name, root);
    }
  }

  // A search that does not find the name passes every entry in use before the first
  // free place, so an entry put there is found there ...
  lemma {:induction false} FindNew(d: seq<Byte>, d': seq<Byte>, lbos: seq<nat>, l: nat, entry: seq<Byte>,
          name: seq<Byte>, root: bool)
    requires Placed(d, lbos)
    requires |entry| == DIRENT_SIZE && l + DIRENT_SIZE <= |d'| && EntryPut(d, d', lbos, l, entry)
    requires Find(d, lbos, name, root).None? && FirstFree(d, lbos) == Some(l)
    requires entry[..11] == name && (root ==> !FlagOn(entry[11], FAT_DIRENT_ATTR_VOLUME_ID))
    ensures Find(d', lbos, name, root) == Some(l)
    decreases |lbos|
  {
    var k := lbos[0];
    if k == l {
      assert d'[l..l + 11] == entry[..11] by { assert d'[l..l + DIRENT_SIZE][..11] == d'[l..l + 11]; }
      assert d'[l + 11] == d'[l..l + DIRENT_SIZE][11];
    } else {
      SameSlot(d, d', k);
      FindNew(d, d', lbos[1..], l, entry, name, root);
    }
  }

  // ... and every name found before is still found where it was.
  lemma {:induction false} FindOld(d: seq<Byte>, d': seq<Byte>, lbos: seq<nat>, l: nat, entry: seq<Byte>,
          name: seq<Byte>, root: bool)
    requires Placed(d, lbos)
    requires |entry| == DIRENT_SIZE && l + DIRENT_SIZE <= |d'| && EntryPut(d, d', lbos, l, entry)
    requires SearchName(name) && Find(d, lbos, name, root).Some?
    requires l < |d| && IsFreeSlot(d, l) && entry[0] != FAT_DIRENT_NEVER_USED && entry[..11] != name
    ensures Find(d', lbos, name, root) == Find(d, lbos, name, root)
    decreases |lbos|
  {
    var k := lbos[0];
    if k == l {
      var e := d'[l..l + DIRENT_SIZE];
      assert d'[l..l + 11] == e[..11] && d'[l] == e[0];
      assert d[l..l + 11][0] == d[l];
      FindOld(d, d', lbos[1..], l, entry, name, root);
    } else {
      SameSlot(d, d', k);
      if !Matches(d, k, name, root) {
        FindOld(d, d', lbos[1..], l, entry, name, root);
      }
    }
  }

  // Nothing after a never-used entry is in use, as freshly zeroed clusters make it.
  ghost predicate Clean(d: seq<Byte>, lbos: seq<nat>)
    requires Placed(d, lbos)
  {
    forall i, j :: 0 <= i < j < |lbos| && d[lbos[i]] == FAT_DIRENT_NEVER_USED ==> d[lbos[j]] == FAT_DIRENT_NEVER_USED
  }

  lemma {:induction false} FindNothing(d: seq<Byte>, lbos: seq<nat>, name: seq<Byte>, root: bool)
    requires Placed(d, lbos) && |name| == 11
    requires forall i :: 0 <= i < |lbos| ==> d[lbos[i]..lbos[i] + 11] != name
    ensures Find(d, lbos, name, root).None?
    decreases |lbos|
  {
    if lbos != [] {
      FindNothing(d, lbos[1..], name, root);
    }
  }

  // What a search finds is one of the places.
  lemma {:induction false} FindPlace(d: seq<Byte>, lbos: seq<nat>, name: seq<Byte>, root: bool)
    requires Placed(d, lbos) && Find(d, lbos, name, root).Some?
    ensures var l := Find(d, lbos, name, root).value; l in lbos && l + DIRENT_SIZE <= |d|
    decreases |lbos|
  {
    if !Matches(d, lbos[0], name, root) {
      FindPlace(d, lbos[1..], name, root);
    }
  }

  lemma UnusedIsNoMatch(d: seq<Byte>, l: nat, name: seq<Byte>)
    requires l + DIRENT_SIZE <= |d| && SearchName(name) && d[l] == FAT_DIRENT_NEVER_USED
    ensures d[l..l + 11] != name
  {
    assert d[l..l + 11][0] == d[l];
  }

  lemma NewIsNoMatch(d': seq<Byte>, l: nat, entry: seq<Byte>, name: seq<Byte>)
    requires |entry| == DIRENT_SIZE && l + DIRENT_SIZE <= |d'| && d'[l..l + DIRENT_SIZE] == entry && entry[..11] != name
    ensures d'[l..l + 11] != name && d'[l] == entry[0]
  {
    assert d'[l..l + 11] == d'[l..l + DIRENT_SIZE][..11] && d'[l] == d'[l..l + DIRENT_SIZE][0];
  }

  // A search passes over places that are all in use by other names.
  lemma {:induction false} FindPast(d: seq<Byte>, lbos: seq<nat>, rest: seq<nat>, name: seq<Byte>, root: bool)
    requires Placed(d, lbos) && Placed(d, rest)
    requires Find(d, lbos, name, root).None? && FirstFree(d, lbos).None?
    ensures Placed(d, lbos + rest) && Find(d, lbos + rest, name, root) == Find(d, rest, name, root)
    decreases |lbos|
  {
    if lbos == [] {
      assert lbos + rest == rest;
    } else {
      FindPast(d, lbos[1..], rest, name, root);
      assert (lbos + rest)[1..] == lbos[1..] + rest;
    }
  }

  lemma {:induction false} FindSame(d: seq<Byte>, d': seq<Byte>, lbos: seq<nat>, name: seq<Byte>, root: bool)
    requires Placed(d, lbos) && |d'| == |d| && forall i :: 0 <= i < |lbos| ==> SameEntry(d, d', lbos[i])
    ensures Find(d', lbos, name, root) == Find(d, lbos, name, root) && FirstFree(d', lbos) == FirstFree(d, lbos)
    decreases |lbos|
  {
    if lbos != [] {
      SameSlot(d, d', lbos[0]);
      FindSame(d, d', lbos[1..], name, root);
    }
  }

  /** The places after the first free one, if that is an end mark: what is there comes to
      light when an entry takes the mark's place. */
  ghost function Hidden(d: seq<Byte>, lbos: seq<nat>): (r: seq<nat>)
    requires Placed(d, lbos)
    ensures Placed(d, r)
  {
    if lbos == [] then []
    else if !IsFreeSlot(d, lbos[0]) then Hidden(d, lbos[1..])
    else if d[lbos[0]] == FAT_DIRENT_NEVER_USED then lbos[1..] else []
  }

  lemma FindStep(d: seq<Byte>, lbos: seq<nat>, name: seq<Byte>, root: bool)
    requires Placed(d, lbos) && lbos != []
    ensures Find(d, [], name, root) == None
    ensures Find(d, lbos, name, root) ==
            if Matches(d, lbos[0], name, root) then Some(lbos[0])
            else if d[lbos[0]] == FAT_DIRENT_NEVER_USED then None
            else Find(d, lbos[1..], name, root)
    ensures FirstFree(d, lbos) == if IsFreeSlot(d, lbos[0]) then Some(lbos[0]) else FirstFree(d, lbos[1..])
    ensures Hidden(d, lbos) ==
            if !IsFreeSlot(d, lbos[0]) then Hidden(d, lbos[1..])
            else if d[lbos[0]] == FAT_DIRENT_NEVER_USED then lbos[1..] else []
  {
  }

  /** Every other name is found where it was, and a name that was not found is found now
      exactly where the hidden places show it. */
  lemma {:induction false} FindOther(d: seq<Byte>, d': seq<Byte>, lbos: seq<nat>, l: nat, entry: seq<Byte>,
          name: seq<Byte>, root: bool)
    requires Placed(d, lbos) && Distinct(lbos) && FirstFree(d, lbos) == Some(l)
    requires |entry| == DIRENT_SIZE && l + DIRENT_SIZE <= |d'| && EntryPut(d, d', lbos, l, entry)
    requires SearchName(name) && entry[..11] != name && entry[0] != FAT_DIRENT_NEVER_USED
    ensures Find(d', lbos, name, root) ==
            if Find(d, lbos, name, root).Some? then Find(d, lbos, name, root)
            else Find(d, Hidden(d, lbos), name, root)
    decreases |lbos|
  {
    hide Find, Hidden, FirstFree;
    if lbos == [] {
      NoPlaces(d);
    } else {
      var k := lbos[0];
      FindStep(d, lbos, name, root);
      FindStep(d', lbos, name, root);
      if k != l {
        SameSlot(d, d', k);
        FindOther(d, d', lbos[1..], l, entry, name, root);
      } else {
        FreeIsFree(d, lbos);
        NewIsNoMatch(d', l, entry, name);
        assert d[l..l + 11][0] == d[l];
        FindSame(d, d', lbos[1..], name, root);
      }
    }
  }

  // A block of sixteen entries, the second of which has a name, before and after one is put
  // in the place of the first, the end mark.
  lemma SixteenPlaces(name: seq<Byte>, entry: seq<Byte>, d: seq<Byte>, d': seq<Byte>, lbos: seq<nat>)
    requires |name| == 11 && |entry| == DIRENT_SIZE && lbos == Run(0, 16)
    requires d == seq(32, _ => 0) + name + seq(469, _ => 0) && d' == entry + name + seq(469, _ => 0)
    ensures Placed(d, lbos) && Placed(d', lbos) && Distinct(lbos) && lbos[0] == 0 && lbos[1] == 32
    ensures EntryPut(d, d', lbos, 0, entry) && d[0] == 0 && d'[32..43] == name && d'[0..11] == entry[..11]
  {
    hide Run;
    RunAt(0, 16);
    assert forall a :: 32 <= a < 512 ==> d'[a] == d[a];
    forall i | 0 <= i < 16 && lbos[i] != 0
      ensures SameEntry(d, d', lbos[i])
    {
      assert d'[lbos[i]..lbos[i] + DIRENT_SIZE] == d[lbos[i]..lbos[i] + DIRENT_SIZE];
    }
    assert d'[0..32] == entry;
  }

  /** That can happen: the first of sixteen places is the end mark, an entry left behind it
      has the name of eleven As, and one of eleven Bs takes the mark's place. */
  lemma HiddenNameFound(name: seq<Byte>, entry: seq<Byte>, d: seq<Byte>, d': seq<Byte>, lbos: seq<nat>)
    requires name == seq(11, _ => 0x41) && entry == seq(11, _ => 0x42) + seq(21, _ => 0) && lbos == Run(0, 16)
    requires d == seq(32, _ => 0) + name + seq(469, _ => 0) && d' == entry + name + seq(469, _ => 0)
    ensures Placed(d, lbos) && Placed(d', lbos) && Distinct(lbos) && SearchName(name)
    ensures FirstFree(d, lbos) == Some(0) && EntryPut(d, d', lbos, 0, entry)
    ensures Find(d, lbos, name, true) == None && Find(d', lbos, name, true) == Some(32)
  {
    hide Find, FirstFree, Run, EntryPut;
    SixteenPlaces(name, entry, d, d', lbos);
    assert entry[..11][0] != name[0] && d'[0] == d'[0..11][0];
    assert d[0..11][0] == 0;
    FindStep(d, lbos, name, true);
    FindStep(d', lbos, name, true);
    FindStep(d', lbos[1..], name, true);
    assert d[11] == 0 && d'[11] == 0 && d'[43] == 0;
  }

  lemma {:induction false} FreeIsFree(d: seq<Byte>, lbos: seq<nat>)
    requires Placed(d, lbos) && FirstFree(d, lbos).Some?
    ensures FirstFree(d, lbos).value < |d| && IsFreeSlot(d, FirstFree(d, lbos).value)
    decreases |lbos|
  {
    if !IsFreeSlot(d, lbos[0]) {
      FreeIsFree(d, lbos[1..]);
    }
  }

  lemma NoPlaces(d: seq<Byte>)
    ensures FirstFree(d, []).None?
  {
  }

  lemma {:induction false} HiddenPlaces(d: seq<Byte>, lbos: seq<nat>) returns (k: nat)
    requires Placed(d, lbos) && Hidden(d, lbos) != []
    ensures k < |lbos| && d[lbos[k]] == FAT_DIRENT_NEVER_USED && Hidden(d, lbos) == lbos[k + 1..]
    decreases |lbos|
  {
    if IsFreeSlot(d, lbos[0]) {
      k := 0;
    } else {
      k := HiddenPlaces(d, lbos[1..]);
      assert lbos[1..][k + 1..] == lbos[k + 2..];
      k := k + 1;
    }
  }

  // Nothing is hidden in a clean directory.
  lemma CleanHidesNothing(d: seq<Byte>, lbos: seq<nat>, name: seq<Byte>, root: bool)
    requires Placed(d, lbos) && Clean(d, lbos) && SearchName(name)
    ensures Find(d, Hidden(d, lbos), name, root).None?
  {
    if Hidden(d, lbos) != [] {
      var k := HiddenPlaces(d, lbos);
      var rest := lbos[k + 1..];
      forall i | 0 <= i < |rest|
        ensures d[rest[i]..rest[i] + 11] != name
      {
        UnusedIsNoMatch(d, lbos[k + 1 + i], name);
      }
      FindNothing(d, rest, name, root);
    }
  }

  lemma {:induction false} FirstFreeAppend(d: seq<Byte>, lbos: seq<nat>, rest: seq<nat>)
    requires Placed(d, lbos) && Placed(d, rest)
    ensures Placed(d, lbos + rest)
    ensures FirstFree(d, lbos + rest) == if FirstFree(d, lbos).Some? then FirstFree(d, lbos) else FirstFree(d, rest)
    decreases |lbos|
  {
    if lbos == [] {
      assert lbos + rest == rest;
    } else {
      FirstFreeAppend(d, lbos[1..], rest);
      assert (lbos + rest)[1..] == lbos[1..] + rest;
    }
  }

  // An entry that a listing shows.
  predicate Shown(d: seq<Byte>, l: nat)
    requires l + DIRENT_SIZE <= |d|
  {
    d[l] != FAT_DIRENT_DELETED && !FlagOn(d[l + 11], FAT_DIRENT_ATTR_VOLUME_ID)
  }

  /** Listing n entries from place k on: the entries, and the place to go on from. */
  ghost function Listing(d: seq<Byte>, lbos: seq<nat>, k: nat, n: nat): (r: (seq<seq<Byte>>, nat))
    requires Placed(d, lbos) && k <= |lbos|
    ensures k <= r.1 <= |lbos| && |r.0| <= n
    decreases |lbos| - k
  {
    if n == 0 || k == |lbos| || d[lbos[k]] == FAT_DIRENT_NEVER_USED then ([], k)
    else if !Shown(d, lbos[k]) then Listing(d, lbos, k + 1, n)
    else
      var (rest, next) := Listing(d, lbos, k + 1, n - 1);
      ([d[lbos[k]..lbos[k] + DIRENT_SIZE]] + rest, next)
  }

  /** What a directory holds: the entries before the first end mark that are neither
      deleted nor volume labels, in order. */
  ghost function Visible(d: seq<Byte>, lbos: seq<nat>): seq<seq<Byte>>
    requires Placed(d, lbos)
  {
    if lbos == [] || d[lbos[0]] == FAT_DIRENT_NEVER_USED then []
    else (if Shown(d, lbos[0]) then [d[lbos[0]..lbos[0] + DIRENT_SIZE]] else []) + Visible(d, lbos[1..])
  }

  // Of the places before the n-th, these, in order and once each, are of entries that are
  // neither deleted nor volume labels.
  ghost predicate VisibleAt(d: seq<Byte>, lbos: seq<nat>, n: nat, at: seq<nat>)
    requires Placed(d, lbos)
  {
    && Arith.Ascending(at)
    && forall i: nat | i < |lbos| ::
        i in at <==> i < n && d[lbos[i]] != 0xe5 && d[lbos[i] + 11] / 8 % 2 == 0
  }

  lemma VisibleNext(d: seq<Byte>, lbos: seq<nat>, n: nat, rest: seq<nat>)
    requires Placed(d, lbos) && lbos != [] && VisibleAt(d, lbos[1..], n, rest)
    ensures VisibleAt(d, lbos, n + 1, Arith.Onward(Shown(d, lbos[0]), rest))
  {
    hide Arith.Ascending, Arith.Onward;
    var first := Shown(d, lbos[0]);
    Arith.OnwardAscends(first, rest);
    forall i: nat | i < |lbos|
      ensures i in Arith.Onward(first, rest) <==> i < n + 1 && d[lbos[i]] != 0xe5 && d[lbos[i] + 11] / 8 % 2 == 0
    {
      Arith.OnwardHas(first, rest, i);
      if i > 0 {
        assert lbos[1..][i - 1] == lbos[i];
      }
    }
  }

  ghost predicate EntriesAt(d: seq<Byte>, lbos: seq<nat>, at: seq<nat>, entries: seq<seq<Byte>>)
    requires Placed(d, lbos)
  {
    && |entries| == |at|
    && forall k :: 0 <= k < |at| ==> at[k] < |lbos| && entries[k] == d[lbos[at[k]]..lbos[at[k]] + DIRENT_SIZE]
  }

  lemma EntriesNext(d: seq<Byte>, lbos: seq<nat>, rest: seq<nat>, first: bool, entries: seq<seq<Byte>>)
    requires Placed(d, lbos) && lbos != [] && EntriesAt(d, lbos[1..], rest, entries)
    ensures EntriesAt(d, lbos, Arith.Onward(first, rest),
                      (if first then [d[lbos[0]..lbos[0] + DIRENT_SIZE]] else []) + entries)
  {
    var at, own := Arith.Onward(first, rest), if first then 1 else 0;
    forall k | own <= k < |at|
      ensures at[k] < |lbos| && entries[k - own] == d[lbos[at[k]]..lbos[at[k]] + DIRENT_SIZE]
    {
      assert at[k] == rest[k - own] + 1;
    }
  }

  /** Visible are exactly the entries before the first end mark, the n-th, that are neither
      deleted nor volume labels. */
  lemma {:induction false} VisibleExactly(d: seq<Byte>, lbos: seq<nat>) returns (n: nat, at: seq<nat>)
    requires Placed(d, lbos)
    ensures n <= |lbos| && (n < |lbos| ==> d[lbos[n]] == 0) && forall i :: 0 <= i < n ==> d[lbos[i]] != 0
    ensures VisibleAt(d, lbos, n, at) && EntriesAt(d, lbos, at, Visible(d, lbos))
    decreases |lbos|
  {
    hide VisibleAt, EntriesAt, Shown, Arith.Onward;
    if lbos == [] || d[lbos[0]] == FAT_DIRENT_NEVER_USED {
      n, at := 0, [];
      NoneVisible(d, lbos);
    } else {
      var rest;
      n, rest := VisibleExactly(d, lbos[1..]);
      VisibleNext(d, lbos, n, rest);
      EntriesNext(d, lbos, rest, Shown(d, lbos[0]), Visible(d, lbos[1..]));
      assert forall i :: 0 < i < |lbos| ==> lbos[i] == lbos[1..][i - 1];
      n, at := n + 1, Arith.Onward(Shown(d, lbos[0]), rest);
    }
  }

  lemma NoneVisible(d: seq<Byte>, lbos: seq<nat>)
    requires Placed(d, lbos)
    ensures VisibleAt(d, lbos, 0, []) && EntriesAt(d, lbos, [], [])
  {
  }

  // Listing n and then m entries is listing n + m.
  lemma {:induction false} ListingsCompose(d: seq<Byte>, lbos: seq<nat>, k: nat, n: nat, m: nat)
    requires Placed(d, lbos) && k <= |lbos|
    ensures var (a, next) := Listing(d, lbos, k, n);
            var (b, end) := Listing(d, lbos, next, m);
            var (ab, e) := Listing(d, lbos, k, n + m);
            ab == a + b && (n > 0 && m > 0 ==> e == end)
    decreases |lbos| - k
  {
    if n == 0 || k == |lbos| || d[lbos[k]] == FAT_DIRENT_NEVER_USED {
    } else if !Shown(d, lbos[k]) {
      ListingsCompose(d, lbos, k + 1, n, m);
    } else {
      ListingsCompose(d, lbos, k + 1, n - 1, m);
    }
  }

  lemma {:induction false} ListingIsVisible(d: seq<Byte>, lbos: seq<nat>, k: nat, n: nat)
    requires Placed(d, lbos) && k <= |lbos|
    ensures Placed(d, lbos[k..])
    ensures var v := Visible(d, lbos[k..]); Listing(d, lbos, k, n).0 == if n < |v| then v[..n] else v
    decreases |lbos| - k
  {
    hide Shown, FlagOn;
    if n == 0 || k == |lbos| || d[lbos[k]] == FAT_DIRENT_NEVER_USED {
    } else {
      assert lbos[k..][1..] == lbos[k + 1..];
      var rest := Visible(d, lbos[k + 1..]);
      if Shown(d, lbos[k]) {
        ListingIsVisible(d, lbos, k + 1, n - 1);
        var e := d[lbos[k]..lbos[k] + DIRENT_SIZE];
        assert n - 1 <= |rest| ==> ([e] + rest)[..n] == [e] + rest[..n - 1];
      } else {
        ListingIsVisible(d, lbos, k + 1, n);
        assert [] + rest == rest;
      }
    }
  }

  ghost function Sum(ns: seq<nat>): nat {
    if ns == [] then 0 else ns[0] + Sum(ns[1..])
  }

  // What successive listings of ns[0], ns[1], ... entries show, one after the other.
  ghost function Batches(d: seq<Byte>, lbos: seq<nat>, k: nat, ns: seq<nat>): seq<seq<Byte>>
    requires Placed(d, lbos) && k <= |lbos|
    decreases |ns|
  {
    if ns == [] then []
    else
      var (a, next) := Listing(d, lbos, k, ns[0]);
      a + Batches(d, lbos, next, ns[1..])
  }

  /** Listing a directory in batches, of whatever sizes, shows what it holds, in order
      and once each, as far as the batches reach. */
  lemma {:induction false} BatchesShowAll(d: seq<Byte>, lbos: seq<nat>, ns: seq<nat>)
    requires Placed(d, lbos)
    ensures var v := Visible(d, lbos); Batches(d, lbos, 0, ns) == if Sum(ns) < |v| then v[..Sum(ns)] else v
  {
    BatchesAreListing(d, lbos, 0, ns);
    ListingIsVisible(d, lbos, 0, Sum(ns));
    assert lbos[0..] == lbos;
  }

  lemma {:induction false} BatchesAreListing(d: seq<Byte>, lbos: seq<nat>, k: nat, ns: seq<nat>)
    requires Placed(d, lbos) && k <= |lbos|
    ensures Batches(d, lbos, k, ns) == Listing(d, lbos, k, Sum(ns)).0
    decreases |ns|
  {
    if ns != [] {
      BatchesAreListing(d, lbos, Listing(d, lbos, k, ns[0]).1, ns[1..]);
      ListingsCompose(d, lbos, k, ns[0], Sum(ns[1..]));
    }
  }
}
