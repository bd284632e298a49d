/** Binding one imported entry point to an export table: by ordinal, by a hint, or by
    binary search. Whatever the hint, it is a plain lookup. */
module ExportBinding {
  import opened FatFormat

  // Characters are bytes; the terminating zero is not part of a name.
  type Name = seq<Byte>

  type Ulong = n: int | 0 <= n < 0x1_0000_0000

  // The sign of strcmp.
  datatype Order = Less | Equal | Greater

  function Compare(a: Name, b: Name): Order {
    if a == [] && b == [] then Equal
    else if a == [] then Less
    else if b == [] then Greater
    else if a[0] < b[0] then Less
    else if a[0] > b[0] then Greater
    else Compare(a[1..], b[1..])
  }

  lemma {:induction false} CompareEqual(a: Name, b: Name)
    ensures Compare(a, b) == Equal <==> a == b
    decreases |a|
  {
    if a != [] && b != [] && a[0] == b[0] {
      CompareEqual(a[1..], b[1..]);
      assert a == [a[0]] + a[1..] && b == [b[0]] + b[1..];
    }
  }

  lemma {:induction false} CompareFlips(a: Name, b: Name)
    ensures Compare(a, b) == Less <==> Compare(b, a) == Greater
    decreases |a|
  {
    if a != [] && b != [] && a[0] == b[0] {
      CompareFlips(a[1..], b[1..]);
    }
  }

  /** The order is that of the first place where the names differ, the end of a name
      coming before every character. */
  lemma {:induction false} CompareAtDifference(a: Name, b: Name) returns (n: nat)
    ensures n <= |a| && n <= |b| && a[..n] == b[..n]
    ensures n < |a| && n < |b| ==> a[n] != b[n]
    ensures Compare(a, b) == Less <==> if n < |a| then n < |b| && a[n] < b[n] else n < |b|
    ensures Compare(a, b) == Equal <==> n == |a| == |b|
    decreases |a|
  {
    if a == [] || b == [] || a[0] != b[0] {
      n := 0;
    } else {
      var k := CompareAtDifference(a[1..], b[1..]);
      n := k + 1;
      assert a[..n] == [a[0]] + a[1..][..k] && b[..n] == [b[0]] + b[1..][..k];
    }
  }

  datatype Exports = Exports(base: Ulong, names: seq<Name>, ordinals: seq<Word>, functions: seq<Ulong>)

  // Every name has an ordinal, and the names ascend strictly.
  ghost predicate Sorted(e: Exports) {
    && |e.names| == |e.ordinals| < 0x8000_0000
    && forall i, j :: 0 <= i < j < |e.names| ==> Compare(e.names[i], e.names[j]) == Less
  }

  datatype Thunk = ByOrdinal(ordinal: Word) | ByName(hint: Word, name: Name) | Bound(dll: nat, rva: Ulong)

  // The place of a name, looking from the front.
  ghost function Lookup(names: seq<Name>, name: Name): Option<nat>
    decreases |names|
  {
    if names == [] then None
    else
      match Lookup(names[..|names| - 1], name)
      case Some(i) => Some(i)
      case None => if names[|names| - 1] == name then Some(|names| - 1) else None
  }

  lemma {:induction false} LookupFinds(names: seq<Name>, name: Name)
    ensures match Lookup(names, name)
            case Some(i) => i < |names| && names[i] == name && forall j :: 0 <= j < i ==> names[j] != name
            case None => name !in names
    decreases |names|
  {
    if names != [] {
      LookupFinds(names[..|names| - 1], name);
    }
  }

  // In a sorted table a name has one place.
  lemma LookupUnique(e: Exports, i: nat)
    requires Sorted(e) && i < |e.names|
    ensures Lookup(e.names, e.names[i]) == Some(i)
  {
    LookupFinds(e.names, e.names[i]);
    var r := Lookup(e.names, e.names[i]);
    if r.Some? && r.value < i {
      CompareEqual(e.names[r.value], e.names[i]);
    }
  }

  /** The entry point an import stands for: ordinals count from the table's base, with
      unsigned wrap-around, and must lie in the table; names must be listed. */
  ghost function Resolve(e: Exports, t: Thunk): Option<Ulong>
    requires !t.Bound? && |e.ordinals| == |e.names|
  {
    LookupFinds(e.names, if t.ByName? then t.name else []);
    var ordinal: Option<nat> :=
      match t
      case ByOrdinal(n) => Some((n - e.base) % 0x1_0000_0000)
      case ByName(_, name) => (match Lookup(e.names, name) case Some(i) => Some(e.ordinals[i]) case None => None);
    if ordinal.Some? && ordinal.value < |e.functions| then Some(e.functions[ordinal.value]) else None
  }

  /** b is the entry point of the module that the import stands for, whatever its hint: the
      ordinal counts from the table's base, 32 bits wide; a name leads to its own ordinal. */
  ghost predicate PointsTo(e: Exports, dll: nat, t: Thunk, b: Thunk) {
    match t
    case ByOrdinal(n) =>
      exists k: Ulong :: k < |e.functions| && (e.base + k) % 0x1_0000_0000 == n && b == Bound(dll, e.functions[k])
    case ByName(_, name) =>
      exists i :: 0 <= i < |e.names| && i < |e.ordinals| && e.names[i] == name && e.ordinals[i] < |e.functions|
                  && b == Bound(dll, e.functions[e.ordinals[i]])
    case Bound(_, _) => false
  }

  lemma OrdinalPlace(n: Ulong, base: Ulong, k: Ulong)
    ensures (base + k) % 0x1_0000_0000 == n <==> k == (n - base) % 0x1_0000_0000
  {
  }

  // What an import resolves to is such an entry point ...
  lemma ResolvedPoints(e: Exports, dll: nat, t: Thunk)
    requires |e.ordinals| == |e.names| && !t.Bound?
    ensures Resolve(e, t).Some? ==> PointsTo(e, dll, t, Bound(dll, Resolve(e, t).value))
  {
    match t
    case ByOrdinal(n) => OrdinalPlace(n, e.base, (n - e.base) % 0x1_0000_0000);
    case ByName(_, name) => LookupFinds(e.names, name);
  }

  // ... and in a sorted table the only one.
  lemma PointsOnce(e: Exports, dll: nat, t: Thunk, b: Thunk)
    requires Sorted(e) && PointsTo(e, dll, t, b)
    ensures Resolve(e, t).Some? && b == Bound(dll, Resolve(e, t).value)
  {
    match t
    case ByOrdinal(n) =>
      var k: Ulong :| k < |e.functions| && (e.base + k) % 0x1_0000_0000 == n && b == Bound(dll, e.functions[k]);
      OrdinalPlace(n, e.base, k);
    case ByName(_, name) =>
      var i :| 0 <= i < |e.names| && e.names[i] == name && e.ordinals[i] < |e.functions|
               && b == Bound(dll, e.functions[e.ordinals[i]]);
      LookupUnique(e, i);
  }

  // Names in places below a greater one, or above a smaller one, are not it.
  lemma Excludes(e: Exports, name: Name, middle: nat, j: nat)
    requires Sorted(e) && middle < |e.names| && j < |e.names|
    ensures Compare(name, e.names[middle]) == Less && j >= middle ==> e.names[j] != name
    ensures Compare(name, e.names[middle]) == Greater && j <= middle ==> e.names[j] != name
  {
    CompareEqual(name, name);
    CompareFlips(e.names[middle], name);
    if j != middle && e.names[j] == name {
      if j > middle {
        CompareFlips(e.names[middle], e.names[j]);
      } else {
        CompareFlips(e.names[j], e.names[middle]);
      }
    }
  }

  method SearchNames(e: Exports, name: Name) returns (found: bool, middle: nat)
    requires Sorted(e)
    ensures Lookup(e.names, name) == if found then Some(middle) else None
    ensures found ==> middle < |e.ordinals|
  {
    var low, high: int := 0, |e.names| - 1;
    middle := 0;
    while high >= low
      invariant 0 <= low && high < |e.names|
      invariant forall j :: 0 <= j < |e.names| && e.names[j] == name ==> low <= j <= high
      decreases high - low
    {
      middle := (low + high) / 2;
      var result := Compare(name, e.names[middle]);
      forall j: nat | j < |e.names|
        ensures result == Less && j >= middle ==> e.names[j] != name
        ensures result == Greater && j <= middle ==> e.names[j] != name
      {
        Excludes(e, name, middle, j);
      }
      if result == Less {
        high := middle - 1;
      } else if result == Greater {
        low := middle + 1;
      } else {
        CompareEqual(name, e.names[middle]);
        LookupUnique(e, middle);
        return true, middle;
      }
    }
    LookupFinds(e.names, name);
    return false, middle;
  }

  /** Binding by ordinal, by hint or by search gives the one entry point that the import
      stands for, or fails because there is none. */
  method BindImportName(e: Exports, dll: nat, t: Thunk) returns (ok: bool, bound: Thunk)
    requires Sorted(e) && !t.Bound?
    ensures ok <==> Resolve(e, t).Some?
    ensures bound == if ok then Bound(dll, Resolve(e, t).value) else t
    ensures forall b :: PointsTo(e, dll, t, b) <==> ok && b == bound
  {
    hide PointsTo;
    ResolvedPoints(e, dll, t);
    forall b | PointsTo(e, dll, t, b)
      ensures Resolve(e, t).Some? && b == Bound(dll, Resolve(e, t).value)
    {
      PointsOnce(e, dll, t, b);
    }
    var ordinal: Ulong;
    if t.ByOrdinal? {
      ordinal := (t.ordinal - e.base) % 0x1_0000_0000;
    } else if t.hint < |e.names| && t.name == e.names[t.hint] {
      LookupUnique(e, t.hint);
      ordinal := e.ordinals[t.hint];
    } else {
      var found, middle := SearchNames(e, t.name);
      if !found {
        return false, t;
      }
      ordinal := e.ordinals[middle];
    }
    if ordinal < |e.functions| {
      return true, Bound(dll, e.functions[ordinal]);
    }
    return false, t;
  }

  /** When binding fails: the name is not listed, or its ordinal is out of range. */
  lemma ResolveFailsIff(e: Exports, t: Thunk)
    requires Sorted(e) && !t.Bound?
    ensures Resolve(e, t).None? <==>
            if t.ByOrdinal? then (t.ordinal - e.base) % 0x1_0000_0000 >= |e.functions|
            else forall i :: 0 <= i < |e.names| && e.names[i] == t.name ==> e.ordinals[i] >= |e.functions|
  {
    if t.ByName? {
      LookupFinds(e.names, t.name);
      forall i | 0 <= i < |e.names| && e.names[i] == t.name
        ensures Lookup(e.names, t.name) == Some(i)
      {
        LookupUnique(e, i);
      }
    }
  }

  // ASCII upper case.
  function Upper(c: Byte): Byte {
    if 'a' as int <= c <= 'z' as int then c - 'a' as int + 'A' as int else c
  }

  // A module name as far as comparing it goes.
  function Key(name: Name): (r: Name)
    ensures |r| == |name|
  {
    seq(|name|, i requires 0 <= i < |name| => Upper(name[i]))
  }

  // The same character, or the two cases of one letter.
  predicate SameLetter(a: Byte, b: Byte) {
    a == b || ('a' as int <= a <= 'z' as int && b == a - 0x20) || ('a' as int <= b <= 'z' as int && a == b - 0x20)
  }

  lemma KeysAgree(a: Name, b: Name)
    ensures Key(a) == Key(b) <==> |a| == |b| && forall i :: 0 <= i < |a| ==> SameLetter(a[i], b[i])
  {
    if Key(a) == Key(b) {
      forall i | 0 <= i < |a|
        ensures SameLetter(a[i], b[i])
      {
        assert Key(a)[i] == Upper(a[i]) && Key(b)[i] == Upper(b[i]);
      }
    }
  }

  /** Module names match exactly when they agree up to case. */
  method CompareDllName(dllName: Name, other: Name) returns (same: bool)
    ensures same <==> Key(dllName) == Key(other)
    ensures same <==> |dllName| == |other| && forall i :: 0 <= i < |dllName| ==> SameLetter(dllName[i], other[i])
  {
    KeysAgree(dllName, other);
    if |dllName| != |other| {
      return false;
    }
    for index := 0 to |dllName|
      invariant forall j :: 0 <= j < index ==> Key(dllName)[j] == Key(other)[j]
    {
      if Upper(dllName[index]) != Upper(other[index]) {
        assert Key(dllName)[index] != Key(other)[index];
        return false;
      }
    }
    return true;
  }
}
