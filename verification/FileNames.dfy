/** File names of eight and three characters: how a path gives one, how a listing shows
    one, and when the name shown leads back to the entry. */
module FileNames {
  import opened FatFormat
  import opened FileTable
  import opened DirectorySlots

  const SPACE: Byte := 0x20
  const DOT: Byte := 0x2e
  const BACKSLASH: Byte := 0x5c
  const FAT_DIRENT_REALLY_0E5: Byte := 0x05

  // An entry as listings give it.
  datatype ArcEntry = ArcEntry(fileName: seq<Byte>, readOnly: bool, directory: bool)

  function ToUpper(c: Byte): Byte {
    if 0x61 <= c <= 0x7a then c - 0x20 else c
  }

  // The characters before the first one of `stops`.
  function UpTo(s: seq<Byte>, stops: set<Byte>): (r: seq<Byte>)
    ensures r <= s && forall i :: 0 <= i < |r| ==> r[i] !in stops
    ensures |r| < |s| ==> s[|r|] in stops
  {
    if s == [] || s[0] in stops then [] else [s[0]] + UpTo(s[1..], stops)
  }

  // In capitals, cut off or filled up with spaces to the width given.
  function Field(s: seq<Byte>, width: nat): (r: seq<Byte>)
    ensures |r| == width
    ensures forall i :: 0 <= i < width ==> r[i] == if i < |s| then ToUpper(s[i]) else SPACE
  {
    seq(width, i requires 0 <= i < width => if i < |s| then ToUpper(s[i]) else SPACE)
  }

  function Stem(path: seq<Byte>): seq<Byte> {
    UpTo(path, {DOT, BACKSLASH})
  }

  function Extension(path: seq<Byte>): seq<Byte> {
    var rest := path[|Stem(path)|..];
    if rest != [] && rest[0] == DOT then UpTo(rest[1..], {BACKSLASH}) else []
  }

  // A first character 0xe5 would mark the entry as deleted, so it is kept as 0x05.
  function Unmarked(name: seq<Byte>): (r: seq<Byte>)
    ensures |r| == |name|
  {
    if name != [] && name[0] == FAT_DIRENT_DELETED then name[0 := FAT_DIRENT_REALLY_0E5] else name
  }

  /** The directory name that the first component of a path stands for ... */
  function EightThree(path: seq<Byte>): (r: seq<Byte>)
    ensures |r| == 11
  {
    Unmarked(Field(Stem(path), 8) + Field(Extension(path), 3))
  }

  /** ... and what is left of the path. */
  function AfterFirst(path: seq<Byte>): seq<Byte> {
    var rest := path[|Stem(path)|..];
    if rest != [] && rest[0] == DOT then rest[1 + |Extension(path)|..] else rest
  }

  lemma {:induction false} UpToIs(s: seq<Byte>, stops: set<Byte>, n: nat)
    requires n <= |s| && (forall i :: 0 <= i < n ==> s[i] !in stops) && (n < |s| ==> s[n] in stops)
    ensures UpTo(s, stops) == s[..n]
    decreases |s|
  {
    if n > 0 {
      UpToIs(s[1..], stops, n - 1);
      assert s[..n] == [s[0]] + s[1..][..n - 1];
    }
  }

  // A character as names have it: in capitals, and no deleted mark at the start.
  function Capital(c: Byte, first: bool): Byte {
    if 0x61 <= c <= 0x7a then c - 0x20 else if first && c == 0xe5 then 0x05 else c
  }

  // The i-th character of the name when the first component ends at b, with a dot, if there
  // is one, at a.
  function Character(path: seq<Byte>, a: nat, b: nat, i: nat): Byte
    requires a <= b <= |path|
  {
    if i < 8 then Capital(if i < a then path[i] else 0x20, i == 0)
    else Capital(if a + i - 7 < b then path[a + i - 7] else 0x20, false)
  }

  /** Both spelled out: the first component ends at the b-th character, with a dot, if there
      is one, at the a-th; up to eight and three characters count, in capitals. */
  lemma ComponentParts(path: seq<Byte>) returns (a: nat, b: nat)
    ensures a <= b <= |path| && AfterFirst(path) == path[b..]
    ensures forall i :: 0 <= i < b && i != a ==> path[i] != 0x5c && (i < a ==> path[i] != 0x2e)
    ensures if a < |path| && path[a] == 0x2e then a < b else a == b
    ensures b < |path| ==> path[b] == 0x5c
    ensures forall i: nat | i < 11 :: EightThree(path)[i] == Character(path, a, b, i)
  {
    hide EightThree, Capital, UpTo, Stem, Extension, AfterFirst;
    a, b := Cut(path);
    forall i: nat | i < 11
      ensures EightThree(path)[i] == Character(path, a, b, i)
    {
      FieldCharacter(path, i);
      if 8 <= i && a + i - 7 < b {
        assert path[a + 1..b][i - 8] == path[a + 1 + (i - 8)];
      }
    }
  }

  lemma Cut(path: seq<Byte>) returns (a: nat, b: nat)
    ensures a <= b <= |path| && AfterFirst(path) == path[b..]
    ensures Stem(path) == path[..a] && Extension(path) == if a < b then path[a + 1..b] else []
    ensures forall i :: 0 <= i < b && i != a ==> path[i] != BACKSLASH && (i < a ==> path[i] != DOT)
    ensures if a < |path| && path[a] == DOT then a < b else a == b
    ensures b < |path| ==> path[b] == BACKSLASH
  {
    hide UpTo;
    a := |Stem(path)|;
    b := a;
    if a < |path| && path[a] == DOT {
      var tail := path[a + 1..];
      assert path[a..][1..] == tail;
      b := a + 1 + |Extension(path)|;
      assert path[a..][1 + |Extension(path)|..] == path[b..];
      assert tail[..|Extension(path)|] == path[a + 1..b];
      assert forall i :: a < i < b ==> path[i] == Extension(path)[i - (a + 1)];
    }
  }

  lemma FieldCharacter(path: seq<Byte>, i: nat)
    requires i < 11
    ensures EightThree(path)[i] == Capital(if i < 8 then (if i < |Stem(path)| then Stem(path)[i] else 0x20)
                                           else if i - 8 < |Extension(path)| then Extension(path)[i - 8] else 0x20,
                                           i == 0)
  {
    hide Stem, Extension;
    var x, y := Field(Stem(path), 8), Field(Extension(path), 3);
    assert (x + y)[i] == if i < 8 then x[i] else y[i - 8];
  }

  // The part before the dot, in capitals, in a name that is all spaces otherwise.
  method TakeStem(path: seq<Byte>) returns (name: seq<Byte>, index: nat)
    ensures index == |Stem(path)| <= |path| && name == Field(Stem(path), 8) + Field([], 3)
  {
    hide UpTo;
    name := seq(11, _ => SPACE);
    index := 0;
    while index < |path| && path[index] != BACKSLASH && path[index] != DOT
      invariant index <= |path| && |name| == 11
      invariant forall i :: 0 <= i < index ==> path[i] !in {DOT, BACKSLASH}
      invariant forall i :: 0 <= i < 11 ==> name[i] == if i < 8 && i < index then ToUpper(path[i]) else SPACE
    {
      if index < 8 {
        name := name[index := ToUpper(path[index])];
      }
      index := index + 1;
    }
    UpToIs(path, {DOT, BACKSLASH}, index);
  }

  // The part after it.
  method TakeExtension(name0: seq<Byte>, tail: seq<Byte>) returns (name: seq<Byte>, index: nat)
    requires |name0| == 11 && name0[8..] == Field([], 3)
    ensures index == |UpTo(tail, {BACKSLASH})| <= |tail|
    ensures name == name0[..8] + Field(UpTo(tail, {BACKSLASH}), 3)
  {
    hide UpTo;
    name := name0;
    index := 0;
    var extension := 8;
    assert forall i :: 8 <= i < 11 ==> name0[i] == name0[8..][i - 8];
    while index < |tail| && tail[index] != BACKSLASH
      invariant index <= |tail| && |name| == 11 && extension == if index < 3 then 8 + index else 11
      invariant forall i :: 0 <= i < index ==> tail[i] != BACKSLASH
      invariant forall i :: 0 <= i < 8 ==> name[i] == name0[i]
      invariant forall i :: 8 <= i < 11 ==> name[i] == if i < extension then ToUpper(tail[i - 8]) else SPACE
    {
      if extension < 11 {
        name := name[extension := ToUpper(tail[index])];
        extension := extension + 1;
      }
      index := index + 1;
    }
    UpToIs(tail, {BACKSLASH}, index);
  }

  method FirstComponent(path: seq<Byte>) returns (name: seq<Byte>, rest: seq<Byte>)
    ensures name == EightThree(path) && rest == AfterFirst(path)
  {
    hide UpTo, Field;
    var index;
    name, index := TakeStem(path);
    rest := path[index..];
    assert name[..8] == Field(Stem(path), 8) && name[8..] == Field([], 3);
    if index < |path| && path[index] == DOT {
      var length;
      name, length := TakeExtension(name, path[index + 1..]);
      assert path[index..][1..] == path[index + 1..];
      rest := path[index + 1 + length..];
      assert path[index..][1 + length..] == rest;
    } else {
      assert name == Field(Stem(path), 8) + Field([], 3);
    }
    if name[0] == FAT_DIRENT_DELETED {
      name := name[0 := FAT_DIRENT_REALLY_0E5];
    }
  }

  /** The name that a listing shows for an entry. */
  function ArcName(name: seq<Byte>): seq<Byte>
    requires |name| == 11
  {
    UpTo(name[..8], {SPACE}) + if name[8] == SPACE then [] else [DOT] + UpTo(name[8..], {SPACE})
  }

  /** Spelled out: the two parts of the name up to their first spaces, with a dot between
      them if there is a second. */
  lemma ListedName(name: seq<Byte>) returns (a: nat, b: nat)
    requires |name| == 11
    ensures a <= 8 && b <= 3 && ArcName(name) == name[..a] + if b == 0 then [] else [0x2e] + name[8..8 + b]
    ensures forall i :: 0 <= i < a || 8 <= i < 8 + b ==> name[i] != 0x20
    ensures (a < 8 ==> name[a] == 0x20) && (b < 3 ==> name[8 + b] == 0x20)
  {
    hide UpTo;
    var x, y := name[..8], name[8..];
    a, b := |UpTo(x, {SPACE})|, |UpTo(y, {SPACE})|;
    assert UpTo(x, {SPACE}) == name[..a] && UpTo(y, {SPACE}) == y[..b] == name[8..8 + b];
    assert forall i :: 0 <= i < a ==> name[i] == UpTo(x, {SPACE})[i];
    assert forall i :: 8 <= i < 8 + b ==> name[i] == UpTo(y, {SPACE})[i - 8];
  }

  // The attributes are the lowest and the fifth bit of byte 11.
  function ToArc(entry: seq<Byte>): (r: ArcEntry)
    requires |entry| == DIRENT_SIZE
    ensures r.readOnly <==> entry[11] % 2 == 1
    ensures r.directory <==> entry[11] / 0x10 % 2 == 1
  {
    ArcEntry(ArcName(entry[..11]), FlagOn(entry[11], FAT_DIRENT_ATTR_READ_ONLY),
             FlagOn(entry[11], FAT_DIRENT_ATTR_DIRECTORY))
  }

  method DirToArc(entry: seq<Byte>) returns (r: ArcEntry)
    requires |entry| == DIRENT_SIZE
    ensures r == ToArc(entry)
    ensures r.readOnly == (entry[11] % 2 == 1) && r.directory == (entry[11] / 0x10 % 2 == 1)
  {
    hide UpTo, FlagOn;
    var fileName: seq<Byte> := [];
    var i := 0;
    while i < 8 && entry[i] != SPACE
      invariant i <= 8 && fileName == entry[..i] && forall j :: 0 <= j < i ==> entry[j] != SPACE
    {
      fileName := fileName + [entry[i]];
      i := i + 1;
    }
    var name := entry[..11];
    UpToIs(name[..8], {SPACE}, i);
    assert name[..8][..i] == entry[..i];
    if entry[8] != SPACE {
      fileName := fileName + [DOT];
      var e := 8;
      while e < 11 && entry[e] != SPACE
        invariant 8 <= e <= 11 && fileName == entry[..i] + [DOT] + entry[8..e]
        invariant forall j :: 8 <= j < e ==> entry[j] != SPACE
      {
        fileName := fileName + [entry[e]];
        e := e + 1;
      }
      UpToIs(name[8..], {SPACE}, e - 8);
      assert name[8..][..e - 8] == entry[8..e];
      assert entry[..i] + [DOT] + entry[8..e] == entry[..i] + ([DOT] + entry[8..e]);
    } else {
      assert entry[..i] + [] == entry[..i];
    }
    r := ArcEntry(fileName, FlagOn(entry[11], FAT_DIRENT_ATTR_READ_ONLY),
                  FlagOn(entry[11], FAT_DIRENT_ATTR_DIRECTORY));
  }

  ghost predicate Whole(entries: seq<seq<Byte>>) {
    forall i :: 0 <= i < |entries| ==> |entries[i]| == DIRENT_SIZE
  }

  // Entries as listings give them.
  ghost function Arcs(entries: seq<seq<Byte>>): (r: seq<ArcEntry>)
    requires Whole(entries)
    ensures |r| == |entries|
  {
    seq(|entries|, i requires 0 <= i < |entries| => ToArc(entries[i]))
  }

  lemma ArcsAppend(a: seq<seq<Byte>>, b: seq<seq<Byte>>)
    requires Whole(a) && Whole(b)
    ensures Whole(a + b) && Arcs(a + b) == Arcs(a) + Arcs(b)
  {
  }

  // Nothing but spaces after a space.
  ghost predicate Filled(s: seq<Byte>) {
    forall i, j :: 0 <= i < j < |s| && s[i] == SPACE ==> s[j] == SPACE
  }

  /** A directory name as paths give it: capitals, no separator, spaces at the ends of its
      two parts only. */
  ghost predicate Regular(name: seq<Byte>)
    requires |name| == 11
  {
    && (forall i :: 0 <= i < 11 ==> name[i] != BACKSLASH && ToUpper(name[i]) == name[i])
    && (forall i :: 0 <= i < 8 ==> name[i] != DOT)
    && Filled(name[..8]) && Filled(name[8..]) && name[0] != FAT_DIRENT_DELETED
  }

  // Filling up the visible part of a field that is spaces from there on gives the field.
  lemma FilledUp(s: seq<Byte>)
    requires Filled(s) && forall i :: 0 <= i < |s| ==> ToUpper(s[i]) == s[i]
    ensures Field(UpTo(s, {SPACE}), |s|) == s
  {
    hide UpTo, ToUpper;
    var n := |UpTo(s, {SPACE})|;
    assert n < |s| ==> s[n] == SPACE;
    forall i | 0 <= i < |s|
      ensures Field(UpTo(s, {SPACE}), |s|)[i] == s[i]
    {
      if i > n {
        assert s[i] == SPACE;
      }
    }
  }

  // Only such a field comes back.
  lemma OnlyFilledUp(s: seq<Byte>)
    requires Field(UpTo(s, {SPACE}), |s|) == s
    ensures Filled(s)
  {
    hide UpTo, ToUpper, Field;
    var r := UpTo(s, {SPACE});
    SplitAt(s, r);
    forall j | |r| <= j < |s|
      ensures s[j] == SPACE
    {
      FieldAt(r, |s|, j);
    }
  }

  lemma FieldAt(s: seq<Byte>, width: nat, j: nat)
    requires |s| <= j < width
    ensures Field(s, width)[j] == SPACE
  {
  }

  lemma SplitAt(s: seq<Byte>, r: seq<Byte>)
    requires r <= s && (forall i :: 0 <= i < |r| ==> r[i] != SPACE)
    ensures (forall j :: |r| <= j < |s| ==> s[j] == SPACE) ==> Filled(s)
  {
    assert forall i :: 0 <= i < |r| ==> s[i] == r[i];
  }

  // Taking the name shown apart again, when it has no separators of its own.
  lemma ShownParts(name: seq<Byte>)
    requires |name| == 11 && forall i :: 0 <= i < 8 ==> name[i] != DOT
    requires forall i :: 0 <= i < 11 ==> name[i] != BACKSLASH
    ensures Stem(ArcName(name)) == UpTo(name[..8], {SPACE})
    ensures Extension(ArcName(name)) == (if name[8] == SPACE then [] else UpTo(name[8..], {SPACE}))
    ensures AfterFirst(ArcName(name)) == []
  {
    hide UpTo;
    var s, b := ArcName(name), UpTo(name[..8], {SPACE});
    forall i | 0 <= i < |b|
      ensures s[i] !in {DOT, BACKSLASH}
    {
      assert b[i] == name[i] && s[i] == b[i];
    }
    UpToIs(s, {DOT, BACKSLASH}, |b|);
    if name[8] != SPACE {
      var e := UpTo(name[8..], {SPACE});
      assert s[|b|..] == [DOT] + e && s[|b|..][1..] == e;
      assert forall i :: 0 <= i < |e| ==> e[i] == name[8 + i];
      UpToIs(e, {BACKSLASH}, |e|);
    } else {
      assert s[|b|..] == [];
    }
  }

  // Whatever the path, its directory name has these marks.
  lemma EightThreeMarks(path: seq<Byte>)
    ensures var r := EightThree(path);
            && (forall i :: 0 <= i < 11 ==> r[i] != BACKSLASH && ToUpper(r[i]) == r[i])
            && (forall i :: 0 <= i < 8 ==> r[i] != DOT) && r[0] != FAT_DIRENT_DELETED
  {
    hide UpTo;
  }

  // The directory name made of the name shown, put together from the two fields.
  lemma ShownAgain(name: seq<Byte>)
    requires |name| == 11 && (forall i :: 0 <= i < 8 ==> name[i] != DOT) && name[0] != FAT_DIRENT_DELETED
    requires forall i :: 0 <= i < 11 ==> name[i] != BACKSLASH
    ensures EightThree(ArcName(name)) == Field(UpTo(name[..8], {SPACE}), 8) + Field(UpTo(name[8..], {SPACE}), 3)
  {
    hide UpTo, ArcName, AfterFirst, Stem, Extension;
    ShownParts(name);
    if name[8] == SPACE {
      SpacesOnly(name[8..]);
    }
    var b := UpTo(name[..8], {SPACE});
    assert b != [] ==> b[0] == name[0];
  }

  /** A name shown in a listing leads back to its entry if and only if the entry's name is
      regular. */
  lemma ShownNameOpens(name: seq<Byte>)
    requires |name| == 11
    ensures EightThree(ArcName(name)) == name <==> Regular(name)
    ensures Regular(name) ==> AfterFirst(ArcName(name)) == []
  {
    hide UpTo, Field, Stem, Extension, ArcName, AfterFirst, ToUpper, Filled, EightThree;
    EightThreeMarks(ArcName(name));
    var a, b := name[..8], name[8..];
    var x, y := Field(UpTo(a, {SPACE}), 8), Field(UpTo(b, {SPACE}), 3);
    if Regular(name) {
      ShownParts(name);
      ShownAgain(name);
      FilledUp(a);
      FilledUp(b);
      assert a + b == name;
    }
    if EightThree(ArcName(name)) == name {
      ShownAgain(name);
      assert (x + y)[..8] == x && (x + y)[8..] == y;
      OnlyFilledUp(a);
      OnlyFilledUp(b);
    }
  }

  lemma SpacesOnly(s: seq<Byte>)
    requires |s| == 3 && s[0] == SPACE
    ensures UpTo(s, {SPACE}) == []
  {
  }

  /** The first entry of every subdirectory is listed under a name that leads elsewhere. */
  lemma DotLeadsElsewhere()
    ensures var name := [DOT] + seq(10, _ => SPACE); EightThree(ArcName(name)) != name
  {
    ShownNameOpens([DOT] + seq(10, _ => SPACE));
  }

  /** Searches are never given the name of an unused or deleted entry. */
  lemma PathsAreSearched(path: seq<Byte>)
    requires 0 !in path
    ensures SearchName(EightThree(path))
  {
    hide UpTo;
    EightThreeMarks(path);
    var stem := Stem(path);
    assert stem != [] ==> stem[0] == path[0] && path[0] in path;
  }
}
