/** Following imports: every module that is needed is loaded once, and every imported
    entry point is bound. */
module ImportBinder {
  import opened FatFormat
  import opened ExportBinding
  import opened ImportGraph

  /** The loaded modules, in load order, how often each was asked for, and their thunk
      tables in memory. Of the imports of module m, the first counted[m] have been asked
      for and the first bound[m] are bound. */
  datatype Loaded = Loaded(mods: seq<Module>, counts: seq<nat>, tables: seq<seq<seq<Thunk>>>, counted: seq<nat>,
      bound: seq<nat>)

  // Every loaded module is what its name stands for, and no name is loaded twice.
  ghost predicate ModsOk(lib: Library, mods: seq<Module>) {
    && (forall m :: 0 <= m < |mods| ==> Key(mods[m].name) in lib && lib[Key(mods[m].name)] == mods[m].image)
    && (forall m, n :: 0 <= m < n < |mods| ==> Key(mods[m].name) != Key(mods[n].name))
  }

  ghost predicate Asked(mods: seq<Module>, m: nat, d: nat)
    requires m < |mods| && d < |mods[m].image.imports|
  {
    IsSelf(mods[m], d) || Target(mods, mods[m].image.imports[d].name).Some?
  }

  /** The thunks of import d of module m, all bound to the module it names; a module's
      import of itself is passed over. */
  ghost predicate TableBound(mods: seq<Module>, table: seq<Thunk>, m: nat, d: nat)
    requires m < |mods| && d < |mods[m].image.imports|
  {
    var i := mods[m].image.imports[d];
    if IsSelf(mods[m], d) then table == i.thunks
    else
      var t := Target(mods, i.name);
      && t.Some? && mods[t.value].image.exports.Some? && |table| == |i.thunks|
      && forall j :: 0 <= j < |table| ==> ThunkBound(mods[t.value].image.exports.value, t.value, i.thunks[j], table[j])
  }

  ghost predicate ThunkBound(e: Exports, dll: nat, t: Thunk, bound: Thunk) {
    && |e.ordinals| == |e.names| && !t.Bound?
    && Resolve(e, t).Some? && bound == Bound(dll, Resolve(e, t).value)
  }

  ghost predicate TableOk(s: Loaded, m: nat, d: nat)
    requires m < |s.mods| == |s.tables| == |s.bound| && d < |s.mods[m].image.imports| == |s.tables[m]|
  {
    if d < s.bound[m] then TableBound(s.mods, s.tables[m][d], m, d)
    else s.tables[m][d] == s.mods[m].image.imports[d].thunks
  }

  ghost function Start(base: seq<nat>, m: nat): nat {
    if m < |base| then base[m] else 0
  }

  ghost predicate CountOk(base: seq<nat>, s: Loaded, m: nat)
    requires Within(s.mods, s.counted) && m < |s.mods| == |s.counts|
  {
    s.counts[m] == Start(base, m) + Total(s.mods, s.counted, Key(s.mods[m].name))
  }

  ghost predicate Shaped(s: Loaded) {
    && Within(s.mods, s.counted)
    && |s.mods| == |s.counts| == |s.tables| == |s.bound|
    && forall m :: 0 <= m < |s.mods| ==> s.bound[m] <= s.counted[m] && |s.tables[m]| == |s.mods[m].image.imports|
  }

  /** What holds throughout: base gives the load counts the first modules came with. */
  ghost predicate Good(lib: Library, base: seq<nat>, s: Loaded) {
    && ModsOk(lib, s.mods) && Shaped(s)
    && (forall m: nat, d: nat | m < |s.mods| && d < s.counted[m] :: Asked(s.mods, m, d))
    && (forall m: nat, d: nat | m < |s.mods| && d < |s.mods[m].image.imports| :: TableOk(s, m, d))
    && (forall m: nat | m < |s.mods| :: CountOk(base, s, m))
  }

  // Import d of module k names the module itself.
  lemma SkipSelf(lib: Library, base: seq<nat>, s: Loaded, k: nat)
    requires Good(lib, base, s) && k < |s.mods| && s.counted[k] == s.bound[k] < |s.mods[k].image.imports|
    requires IsSelf(s.mods[k], s.bound[k])
    ensures Good(lib, base, s.(counted := s.counted[k := s.counted[k] + 1], bound := s.bound[k := s.bound[k] + 1]))
  {
    hide Total, ThunkBound, Target, Key, ModsOk;
    var d := s.bound[k];
    var s' := s.(counted := s.counted[k := d + 1], bound := s.bound[k := d + 1]);
    forall m: nat | m < |s.mods|
      ensures Within(s'.mods, s'.counted) && CountOk(base, s', m)
    {
      assert CountOk(base, s, m);
      TotalCountOne(s.mods, s.counted, k, Key(s.mods[m].name));
    }
    forall m: nat, e: nat | m < |s'.mods| && e < |s'.mods[m].image.imports|
      ensures TableOk(s', m, e)
    {
      assert TableOk(s, m, e);
    }
    forall m: nat, e: nat | m < |s'.mods| && e < s'.counted[m]
      ensures Asked(s'.mods, m, e)
    {
      assert (m == k && e == d) || Asked(s.mods, m, e);
    }
  }

  // Import d of module k names module t, which is loaded already.
  lemma CountLoaded(lib: Library, base: seq<nat>, s: Loaded, k: nat, t: nat)
    requires Good(lib, base, s) && k < |s.mods| && t < |s.mods| && s.counted[k] < |s.mods[k].image.imports|
    requires !IsSelf(s.mods[k], s.counted[k]) && Target(s.mods, s.mods[k].image.imports[s.counted[k]].name) == Some(t)
    ensures Good(lib, base, s.(counts := s.counts[t := s.counts[t] + 1], counted := s.counted[k := s.counted[k] + 1]))
  {
    hide Total, TableBound, Target, Key;
    var d := s.counted[k];
    var s' := s.(counts := s.counts[t := s.counts[t] + 1], counted := s.counted[k := d + 1]);
    forall m: nat | m < |s.mods|
      ensures Within(s'.mods, s'.counted) && CountOk(base, s', m)
    {
      assert CountOk(base, s, m);
      TotalCountOne(s.mods, s.counted, k, Key(s.mods[m].name));
    }
    forall m: nat, e: nat | m < |s'.mods| && e < |s'.mods[m].image.imports|
      ensures TableOk(s', m, e)
    {
      assert TableOk(s, m, e);
    }
    forall m: nat, e: nat | m < |s'.mods| && e < s'.counted[m]
      ensures Asked(s'.mods, m, e)
    {
      assert (m == k && e == d) || Asked(s.mods, m, e);
    }
  }

  // The thunk tables of an image as it comes from the device.
  function Unbound(image: Image): (r: seq<seq<Thunk>>)
    ensures |r| == |image.imports|
  {
    seq(|image.imports|, d requires 0 <= d < |image.imports| => image.imports[d].thunks)
  }

  ghost function Appended(s: Loaded, x: Module): Loaded {
    Loaded(s.mods + [x], s.counts + [1], s.tables + [Unbound(x.image)], s.counted + [0], s.bound + [0])
  }

  // Import d of module k names a module that is not loaded: it is loaded, and asked for once.
  lemma CountNew(lib: Library, base: seq<nat>, s: Loaded, k: nat, x: Module)
    requires Good(lib, base, s) && k < |s.mods| && s.counted[k] < |s.mods[k].image.imports| && |base| <= |s.mods|
    requires var name := s.mods[k].image.imports[s.counted[k]].name;
             !IsSelf(s.mods[k], s.counted[k]) && Target(s.mods, name).None? && Key(name) in lib
                 && x == Module(name, lib[Key(name)])
    ensures var s1 := Appended(s, x);
            Good(lib, base, s1.(counted := s1.counted[k := s.counted[k] + 1]))
  {
    hide Total, TableBound, TableOk, CountOk, Target, Key, ModsOk, Unbound;
    var d, t := s.counted[k], |s.mods|;
    var s1 := Appended(s, x);
    var s' := s1.(counted := s1.counted[k := d + 1]);
    NewMods(lib, s.mods, x);
    NewCounts(lib, base, s, k, x);
    NewTables(lib, base, s, k, x);
    forall m: nat, e: nat | m < |s'.mods| && e < s'.counted[m]
      ensures Asked(s'.mods, m, e)
    {
      TargetAppend(s.mods, x, s'.mods[m].image.imports[e].name);
      if m < t && !(m == k && e == d) {
        assert Asked(s.mods, m, e);
      }
    }
  }

  lemma NewMods(lib: Library, mods: seq<Module>, x: Module)
    requires ModsOk(lib, mods) && Target(mods, x.name).None? && Key(x.name) in lib && lib[Key(x.name)] == x.image
    ensures ModsOk(lib, mods + [x])
  {
  }

  lemma NewCounts(lib: Library, base: seq<nat>, s: Loaded, k: nat, x: Module)
    requires Good(lib, base, s) && k < |s.mods| && s.counted[k] < |s.mods[k].image.imports| && |base| <= |s.mods|
    requires Key(x.name) == Key(s.mods[k].image.imports[s.counted[k]].name)
    requires !IsSelf(s.mods[k], s.counted[k]) && Target(s.mods, x.name).None?
    ensures var s1 := Appended(s, x);
            var s' := s1.(counted := s1.counted[k := s.counted[k] + 1]);
            Within(s'.mods, s'.counted) && forall m: nat | m < |s'.mods| :: CountOk(base, s', m)
  {
    hide Total, TableBound, TableOk, Target, Key, ModsOk, Asked, Unbound;
    var d, t := s.counted[k], |s.mods|;
    var s1 := Appended(s, x);
    var s' := s1.(counted := s1.counted[k := d + 1]);
    forall m: nat | m < |s'.mods|
      ensures Within(s'.mods, s'.counted) && CountOk(base, s', m)
    {
      var key := Key(s'.mods[m].name);
      TotalAppend(s.mods, s.counted, x, key);
      TotalCountOne(s1.mods, s1.counted, k, key);
      if m < t {
        assert CountOk(base, s, m);
      } else {
        NotNamed(lib, base, s, x);
      }
    }
  }

  // Nothing asked for so far is a module that is not loaded.
  lemma NotNamed(lib: Library, base: seq<nat>, s: Loaded, x: Module)
    requires Good(lib, base, s) && Target(s.mods, x.name).None?
    ensures Total(s.mods, s.counted, Key(x.name)) == 0
  {
    hide Total, TableBound, TableOk, Key, ModsOk;
    forall m: nat, d: nat | m < |s.mods| && d < s.counted[m] && !IsSelf(s.mods[m], d)
      ensures Key(s.mods[m].image.imports[d].name) != Key(x.name)
    {
      assert Asked(s.mods, m, d);
    }
    TotalNone(s.mods, s.counted, Key(x.name));
  }

  lemma NewTables(lib: Library, base: seq<nat>, s: Loaded, k: nat, x: Module)
    requires Good(lib, base, s) && k < |s.mods| && s.counted[k] < |s.mods[k].image.imports|
    ensures var s1 := Appended(s, x);
            var s' := s1.(counted := s1.counted[k := s.counted[k] + 1]);
            && Shaped(s')
            && forall m: nat, d: nat | m < |s'.mods| && d < |s'.mods[m].image.imports| :: TableOk(s', m, d)
  {
    hide Total, CountOk, Asked, Key, ModsOk, Target;
    var s1 := Appended(s, x);
    var s' := s1.(counted := s1.counted[k := s.counted[k] + 1]);
    forall m: nat, d: nat | m < |s'.mods| && d < |s'.mods[m].image.imports|
      ensures TableOk(s', m, d)
    {
      if m < |s.mods| {
        assert TableOk(s, m, d);
        TargetAppend(s.mods, x, s.mods[m].image.imports[d].name);
      }
    }
  }

  // The thunks of import d of module k have been bound.
  lemma BindDone(lib: Library, base: seq<nat>, s: Loaded, k: nat, table: seq<Thunk>)
    requires Good(lib, base, s) && k < |s.mods| && s.bound[k] < s.counted[k]
    requires TableBound(s.mods, table, k, s.bound[k])
    ensures Good(lib, base, s.(tables := s.tables[k := s.tables[k][s.bound[k] := table]],
        bound := s.bound[k := s.bound[k] + 1]))
  {
    hide Total, Target, TableBound, Asked, ModsOk, Key;
    var d := s.bound[k];
    var s' := s.(tables := s.tables[k := s.tables[k][d := table]], bound := s.bound[k := d + 1]);
    forall m: nat, e: nat | m < |s'.mods| && e < |s'.mods[m].image.imports|
      ensures TableOk(s', m, e)
    {
      assert TableOk(s, m, e);
    }
    forall m: nat | m < |s'.mods|
      ensures CountOk(base, s', m)
    {
      assert CountOk(base, s, m);
    }
  }

  // What following the imports of module k, as far as its first d, has done since s0.
  ghost predicate Progress(lib: Library, s0: Loaded, s: Loaded, k: nat, d: nat)
    requires Shaped(s0) && Shaped(s) && k < |s0.mods|
  {
    && s0.mods <= s.mods && s.counted[k] == s.bound[k] == d
    && (forall m: nat | m < |s0.mods| && m != k :: Same(s0, s, m))
    && (forall m: nat | |s0.mods| <= m < |s.mods| ::
        Finished(s, m) && Reaches(lib, Key(s0.mods[k].name), Key(s.mods[m].name)))
  }

  ghost predicate Same(s0: Loaded, s: Loaded, m: nat)
    requires Shaped(s0) && Shaped(s) && m < |s0.mods| <= |s.mods|
  {
    s.counted[m] == s0.counted[m] && s.bound[m] == s0.bound[m]
  }

  ghost predicate Finished(s: Loaded, m: nat)
    requires Shaped(s) && m < |s.mods|
  {
    s.counted[m] == s.bound[m] == |s.mods[m].image.imports|
  }

  ghost function Keys(mods: seq<Module>): set<Name> {
    set m | 0 <= m < |mods| :: Key(mods[m].name)
  }

  lemma MoreKeys(lib: Library, mods: seq<Module>, x: Module)
    requires Target(mods, x.name).None? && Key(x.name) in lib
    ensures lib.Keys - Keys(mods + [x]) < lib.Keys - Keys(mods)
  {
    var mods' := mods + [x];
    forall key | key in Keys(mods)
      ensures key in Keys(mods')
    {
      var m :| 0 <= m < |mods| && Key(mods[m].name) == key;
      assert Key(mods'[m].name) == key;
    }
    assert Key(mods'[|mods|].name) == Key(x.name);
    assert Key(x.name) in Keys(mods') && Key(x.name) !in Keys(mods);
  }

  lemma PrefixKeys(lib: Library, mods: seq<Module>, mods': seq<Module>)
    requires mods <= mods'
    ensures lib.Keys - Keys(mods') <= lib.Keys - Keys(mods)
    ensures |mods| < |mods'| && ModsOk(lib, mods') ==> lib.Keys - Keys(mods') < lib.Keys - Keys(mods)
    ensures |mods| == |mods'| ==> mods == mods'
  {
    forall key | key in Keys(mods)
      ensures key in Keys(mods')
    {
      var m :| 0 <= m < |mods| && Key(mods[m].name) == key;
      assert Key(mods'[m].name) == key;
    }
    if |mods| < |mods'| && ModsOk(lib, mods') {
      var key := Key(mods'[|mods|].name);
      assert key in Keys(mods') && key in lib;
      assert forall m :: 0 <= m < |mods| ==> Key(mods'[m].name) != key;
    }
  }

  lemma ProgressTrans(lib: Library, s0: Loaded, s1: Loaded, s2: Loaded, k: nat, d: nat, d': nat)
    requires Shaped(s0) && Shaped(s1) && Shaped(s2) && k < |s0.mods|
    requires Progress(lib, s0, s1, k, d) && Progress(lib, s1, s2, k, d')
    ensures Progress(lib, s0, s2, k, d')
  {
    hide Shaped, Reaches;
    forall m: nat | m < |s0.mods| && m != k
      ensures Shaped(s0) && Shaped(s2) && Same(s0, s2, m)
    {
      assert Same(s0, s1, m) && Same(s1, s2, m);
    }
    forall m: nat | |s0.mods| <= m < |s2.mods|
      ensures Shaped(s2) && Finished(s2, m) && Reaches(lib, Key(s0.mods[k].name), Key(s2.mods[m].name))
    {
      if m < |s1.mods| {
        assert Same(s1, s2, m) && Finished(s1, m);
      }
    }
  }

  lemma SizesOf(s: Loaded)
    requires Shaped(s)
    ensures |s.mods| == |s.counts| == |s.tables| == |s.bound| == |s.counted|
    ensures forall m :: 0 <= m < |s.mods| ==> |s.tables[m]| == |s.mods[m].image.imports|
  {
  }

  // Module k's import d led to loading module t, whose own imports were then followed.
  lemma ProgressByLoading(lib: Library, base: seq<nat>, s0: Loaded, s1: Loaded, s2: Loaded, k: nat, d: nat, x: Module)
    requires Shaped(s0) && Shaped(s1) && Shaped(s2) && k < |s0.mods| && ModsOk(lib, s0.mods)
    requires d < |s0.mods[k].image.imports| && x.name == s0.mods[k].image.imports[d].name
        && s0.counted[k] == s0.bound[k] == d
    requires s1 == Appended(s0, x).(counted := Appended(s0, x).counted[k := d + 1])
    requires Progress(lib, s1, s2, |s0.mods|, |x.image.imports|)
    ensures s2.counted[k] == d + 1 && s2.bound[k] == d && s0.mods <= s2.mods
    ensures forall m: nat | m < |s0.mods| && m != k :: Same(s0, s2, m)
    ensures forall m: nat | |s0.mods| <= m < |s2.mods| ::
        Finished(s2, m) && Reaches(lib, Key(s0.mods[k].name), Key(s2.mods[m].name))
  {
    hide Shaped, Reaches, Key, Unbound;
    SizesOf(s0);
    SizesOf(s2);
    var t, a := |s0.mods|, Key(s0.mods[k].name);
    assert Same(s1, s2, k);
    assert s2.mods[t] == x;
    assert Imports(lib[a], Key(x.name));
    ReachesItself(lib, Key(x.name));
    ReachesOn(lib, a, Key(x.name), Key(x.name));
    forall m: nat | m < |s0.mods| && m != k
      ensures Shaped(s0) && Shaped(s2) && Same(s0, s2, m)
    {
      assert Same(s1, s2, m);
    }
    forall m: nat | |s0.mods| <= m < |s2.mods|
      ensures Shaped(s2) && Finished(s2, m) && Reaches(lib, a, Key(s2.mods[m].name))
    {
      if m > t {
        ReachesOn(lib, a, Key(x.name), Key(s2.mods[m].name));
      }
    }
  }

  // Why an import that cannot be bound shows that the library is at fault.
  lemma ImportFails(lib: Library, mods: seq<Module>, k: nat, d: nat)
    requires ModsOk(lib, mods) && k < |mods| && d < |mods[k].image.imports| && !IsSelf(mods[k], d)
    requires var i := mods[k].image.imports[d];
             Key(i.name) in lib && lib[Key(i.name)].exports.Some? ==>
               exists j :: 0 <= j < |i.thunks| && Unresolved(lib[Key(i.name)].exports.value, i.thunks[j])
    ensures Broken(lib, Key(mods[k].name))
  {
    assert Faulty(lib, Key(mods[k].name), d);
    BrokenHere(lib, Key(mods[k].name), d);
  }

  class Loader {
    var modules: seq<Module>
    var loadCounts: seq<nat>
    var thunks: seq<seq<seq<Thunk>>>
    ghost var counted: seq<nat>
    ghost var bound: seq<nat>

    // Modules that were loaded by themselves, each asked for once, imports not followed.
    constructor (mods: seq<Module>, ghost lib: Library)
      requires ModsOk(lib, mods)
      ensures modules == mods && Good(lib, seq(|mods|, _ => 1), State())
      ensures forall m: nat | m < |mods| :: m < |counted| && m < |bound| && counted[m] == bound[m] == 0
    {
      modules, loadCounts := mods, seq(|mods|, _ => 1);
      thunks := seq(|mods|, m requires 0 <= m < |mods| => Unbound(mods[m].image));
      counted, bound := seq(|mods|, _ => 0), seq(|mods|, _ => 0);
      new;
      forall m: nat | m < |mods|
        ensures Within(mods, counted) && CountOk(loadCounts, State(), m)
      {
        TotalNone(mods, counted, Key(mods[m].name));
      }
    }

    ghost function State(): Loaded
      reads this
    {
      Loaded(modules, loadCounts, thunks, counted, bound)
    }

    // Find a loaded module by name and count the request.
    method CheckForLoadedDll(name: Name) returns (found: Option<nat>)
      requires |loadCounts| == |modules|
      modifies this`loadCounts
      ensures found == Target(modules, name)
      ensures match found
              case None => loadCounts == old(loadCounts)
              case Some(t) => loadCounts == old(loadCounts)[t := old(loadCounts)[t] + 1]
    {
      var m := 0;
      while m < |modules|
        invariant m <= |modules| && loadCounts == old(loadCounts)
        invariant forall n :: 0 <= n < m ==> Key(modules[n].name) != Key(name)
      {
        var same := CompareDllName(name, modules[m].name);
        if same {
          loadCounts := loadCounts[m := loadCounts[m] + 1];
          return Some(m);
        }
        m := m + 1;
      }
      return None;
    }

    // Bind the thunks of import d of module k to module t.
    method ScanImportAddressTable(t: nat, k: nat, d: nat) returns (status: Status)
      requires k < |modules| == |thunks| && t < |modules| && ImageOk(modules[t].image) && ImageOk(modules[k].image)
      requires d < |modules[k].image.imports| == |thunks[k]| && thunks[k][d] == modules[k].image.imports[d].thunks
      requires Target(modules, modules[k].image.imports[d].name) == Some(t) && !IsSelf(modules[k], d)
      modifies this`thunks
      ensures status == ESUCCESS ==>
                && |thunks| == |modules| && |thunks[k]| == |modules[k].image.imports|
                && TableBound(modules, thunks[k][d], k, d) && thunks
                    == old(thunks)[k := old(thunks)[k][d := thunks[k][d]]]
      ensures status != ESUCCESS ==>
                modules[t].image.exports.Some? ==>
                  exists j :: 0 <= j < |modules[k].image.imports[d].thunks|
                              && Unresolved(modules[t].image.exports.value, modules[k].image.imports[d].thunks[j])
    {
      hide Target, Resolve, Sorted, Key, IsSelf;
      if modules[t].image.exports.None? {
        return EBADF;
      }
      var exports := modules[t].image.exports.value;
      NamesAndOrdinals(exports);
      ghost var table0 := thunks[k][d];
      var j := 0;
      assert thunks[k][d := thunks[k][d]] == thunks[k] && thunks[k := thunks[k]] == thunks;
      while j < |thunks[k][d]|
        invariant |thunks| == |modules| && |thunks[k]| == |modules[k].image.imports| && |thunks[k][d]| == |table0|
            && j <= |table0|
        invariant thunks == old(thunks)[k := old(thunks)[k][d := thunks[k][d]]]
        invariant forall i :: 0 <= i < |table0| ==>
                    if i < j then ThunkBound(exports, t, table0[i], thunks[k][d][i]) else thunks[k][d][i] == table0[i]
      {
        var ok, thunk := BindImportName(exports, t, thunks[k][d][j]);
        if !ok {
          assert Unresolved(exports, modules[k].image.imports[d].thunks[j]);
          return EINVAL;
        }
        thunks := thunks[k := thunks[k][d := thunks[k][d][j := thunk]]];
        assert thunks[k] == old(thunks)[k][d := thunks[k][d]];
        j := j + 1;
      }
      BoundTable(modules, thunks[k][d], k, d, t);
      return ESUCCESS;
    }

    /** Load whatever module k needs that is not loaded yet, following its imports and
        theirs, and bind every import: on success every new module is finished and
        needed by k, and no other module is touched; failure shows an import, somewhere
        in what k needs, that cannot be bound. It ends on any finite library, whatever
        cycles the imports form. */
    method ScanImportDescriptorTable(lib: Library, k: nat, ghost base: seq<nat>) returns (status: Status)
      requires LibraryOk(lib) && Good(lib, base, State()) && k < |modules| && |base| <= |modules|
      requires counted[k] == bound[k] == 0
      modifies this
      ensures status == ESUCCESS ==>
                && |old(modules)| <= |modules| && Good(lib, base, State())
                && Progress(lib, old(State()), State(), k, |old(modules)[k].image.imports|)
      ensures status != ESUCCESS ==> Broken(lib, Key(old(modules)[k].name))
      decreases lib.Keys - Keys(modules), 2
    {
      hide Good, Shaped, Progress, Key, Broken, ModsOk, Keys, LibraryOk, Within;
      GoodFacts(lib, base, State(), k);
      ghost var s0 := State();
      ProgressStart(lib, s0, k);
      PrefixKeys(lib, s0.mods, s0.mods);
      var imports := modules[k].image.imports;
      for d := 0 to |imports|
        invariant Good(lib, base, State()) && k < |modules| && modules[k] == s0.mods[k] && |base| <= |modules|
        invariant Shaped(s0) && Shaped(State()) && ModsOk(lib, modules) && |s0.mods| <= |modules|
            && Progress(lib, s0, State(), k, d)
        invariant k < |counted| && k < |bound| && counted[k] == bound[k] == d
        invariant lib.Keys - Keys(modules) <= lib.Keys - Keys(s0.mods)
      {
        ghost var s1 := State();
        status := ImportOne(lib, k, d, base);
        if status != ESUCCESS {
          return status;
        }
        GoodFacts(lib, base, State(), k);
        ProgressTrans(lib, s0, s1, State(), k, d, d + 1);
        ProgressFacts(lib, s0, State(), k, d + 1);
        PrefixKeys(lib, s0.mods, modules);
      }
      return ESUCCESS;
    }

    // Follow and bind import d of module k.
    method ImportOne(lib: Library, k: nat, d: nat, ghost base: seq<nat>) returns (status: Status)
      requires LibraryOk(lib) && Good(lib, base, State()) && k < |modules| && |base| <= |modules|
      requires d < |modules[k].image.imports| && counted[k] == bound[k] == d
      modifies this
      ensures status == ESUCCESS ==>
          |old(modules)| <= |modules| && Good(lib, base, State()) && Progress(lib, old(State()), State(), k, d + 1)
      ensures status != ESUCCESS ==> Broken(lib, Key(old(modules)[k].name))
      decreases lib.Keys - Keys(modules), 1
    {
      hide Good, Shaped, Progress, Broken, ModsOk, Keys, LibraryOk, Key, Within;
      GoodFacts(lib, base, State(), k);
      ghost var s0 := State();
      var name := modules[k].image.imports[d].name;
      var self := CompareDllName(name, modules[k].name);
      if self {
        SkipSelf(lib, base, s0, k);
        counted, bound := counted[k := d + 1], bound[k := d + 1];
        GoodFacts(lib, base, State(), k);
        ProgressHere(lib, s0, State(), k, d);
        return ESUCCESS;
      }
      var t := CheckForLoadedDll(name);
      if t.Some? {
        CountLoaded(lib, base, s0, k, t.value);
        counted := counted[k := d + 1];
        GoodFacts(lib, base, State(), k);
        AskedHere(lib, s0, State(), k, d);
      } else {
        t := Some(|modules|);
        status := LoadAndScan(lib, k, d, name, base);
        if status != ESUCCESS {
          return status;
        }
      }
      status := BindOne(lib, k, d, t.value, s0, base);
    }

    // Import d of module k names a module that is not loaded: load it and follow its imports.
    method LoadAndScan(lib: Library, k: nat, d: nat, name: Name, ghost base: seq<nat>) returns (status: Status)
      requires LibraryOk(lib) && Good(lib, base, State()) && k < |modules| && |base| <= |modules|
      requires d < |modules[k].image.imports| && counted[k] == bound[k] == d
      requires name == modules[k].image.imports[d].name && !IsSelf(modules[k], d) && Target(modules, name).None?
      modifies this
      ensures status == ESUCCESS ==>
                && Good(lib, base, State()) && AskedFor(lib, old(State()), State(), k, d)
                && Target(modules, name) == Some(|old(modules)|)
      ensures status != ESUCCESS ==> Broken(lib, Key(old(modules)[k].name))
      decreases lib.Keys - Keys(modules), 0
    {
      hide Good, Shaped, Progress, Broken, ModsOk, Keys, LibraryOk, Key, Within, Target, AskedFor;
      ghost var s0 := State();
      GoodFacts(lib, base, s0, k);
      var key := Key(name);
      if key !in lib {
        ImportFails(lib, modules, k, d);
        return ENOENT;
      }
      var x := Module(name, lib[key]);
      CountNew(lib, base, s0, k, x);
      MoreKeys(lib, modules, x);
      ghost var t := |modules|;
      modules, loadCounts, thunks := modules + [x], loadCounts + [1], thunks + [Unbound(x.image)];
      counted, bound := (counted + [0])[k := d + 1], bound + [0];
      ghost var s1 := State();
      GoodFacts(lib, base, s1, k);
      status := ScanImportDescriptorTable(lib, |modules| - 1, base);
      if status != ESUCCESS {
        ImportBroken(lib, s0.mods, k, d);
        return status;
      }
      GoodFacts(lib, base, State(), t);
      ProgressFacts(lib, s1, State(), t, |x.image.imports|);
      ProgressByLoading(lib, base, s0, s1, State(), k, d, x);
      AskedByLoading(lib, s0, State(), k, d);
      TargetIs(lib, modules, t, name);
    }

    // Bind import d of module k, the module it names being number t on the list.
    method BindOne(lib: Library, k: nat, d: nat, t: nat, ghost s0: Loaded, ghost base: seq<nat>)
      returns (status: Status)
      requires LibraryOk(lib) && Good(lib, base, State()) && Shaped(s0) && k < |s0.mods|
      requires AskedFor(lib, s0, State(), k, d) && k < |modules| && d < |modules[k].image.imports|
      requires Target(modules, modules[k].image.imports[d].name) == Some(t) && !IsSelf(modules[k], d)
      modifies this
      ensures status == ESUCCESS ==>
          |s0.mods| <= |modules| && Good(lib, base, State()) && Progress(lib, s0, State(), k, d + 1)
      ensures status != ESUCCESS ==> Broken(lib, Key(s0.mods[k].name))
    {
      hide Good, Shaped, Progress, Broken, ModsOk, Keys, LibraryOk, Key, Within, Target, AskedFor, TableBound,
          Sorted, ImageOk;
      ghost var s1 := State();
      GoodFacts(lib, base, s1, k);
      AskedFacts(lib, s0, s1, k, d);
      ImagesOk(lib, modules, k);
      ImagesOk(lib, modules, t);
      status := ScanImportAddressTable(t, k, d);
      if status != ESUCCESS {
        TargetImage(lib, modules, t, modules[k].image.imports[d].name);
        ImportFails(lib, modules, k, d);
        return status;
      }
      BindDone(lib, base, s1, k, thunks[k][d]);
      bound := bound[k := d + 1];
      GoodFacts(lib, base, State(), k);
      AskedThenBound(lib, s0, s1, State(), k, d);
    }
  }

  // Since s0, import d of module k has been asked for; new modules are finished.
  ghost predicate AskedFor(lib: Library, s0: Loaded, s: Loaded, k: nat, d: nat)
  {
    && Shaped(s0) && Shaped(s) && k < |s0.mods|
    && s0.mods <= s.mods && s.counted[k] == d + 1 && s.bound[k] == d
    && (forall m: nat | m < |s0.mods| && m != k :: Same(s0, s, m))
    && (forall m: nat | |s0.mods| <= m < |s.mods| ::
        Finished(s, m) && Reaches(lib, Key(s0.mods[k].name), Key(s.mods[m].name)))
  }

  lemma AskedHere(lib: Library, s0: Loaded, s: Loaded, k: nat, d: nat)
    requires Shaped(s0) && Shaped(s) && k < |s0.mods| && s.mods == s0.mods
    requires s.counted == s0.counted[k := d + 1] && s.bound == s0.bound && s0.bound[k] == d
    ensures AskedFor(lib, s0, s, k, d)
  {
  }

  lemma AskedByLoading(lib: Library, s0: Loaded, s: Loaded, k: nat, d: nat)
    requires Shaped(s0) && Shaped(s) && k < |s0.mods|
    requires s0.mods <= s.mods && s.counted[k] == d + 1 && s.bound[k] == d
    requires forall m: nat | m < |s0.mods| && m != k :: Same(s0, s, m)
    requires forall m: nat | |s0.mods| <= m < |s.mods| ::
        Finished(s, m) && Reaches(lib, Key(s0.mods[k].name), Key(s.mods[m].name))
    ensures AskedFor(lib, s0, s, k, d)
  {
  }

  lemma AskedFacts(lib: Library, s0: Loaded, s: Loaded, k: nat, d: nat)
    requires AskedFor(lib, s0, s, k, d)
    ensures Shaped(s) && k < |s0.mods| <= |s.mods| && s.mods[k] == s0.mods[k]
    ensures k < |s.counted| && k < |s.bound| && s.counted[k] == d + 1 && s.bound[k] == d
  {
  }

  lemma AskedThenBound(lib: Library, s0: Loaded, s1: Loaded, s: Loaded, k: nat, d: nat)
    requires AskedFor(lib, s0, s1, k, d) && Shaped(s)
    requires s.mods == s1.mods && s.counted == s1.counted && s.bound == s1.bound[k := d + 1]
    ensures Progress(lib, s0, s, k, d + 1)
  {
    hide Reaches;
    forall m: nat | |s0.mods| <= m < |s.mods|
      ensures Finished(s, m) && Reaches(lib, Key(s0.mods[k].name), Key(s.mods[m].name))
    {
      assert Finished(s1, m);
    }
    forall m: nat | m < |s0.mods| && m != k
      ensures Same(s0, s, m)
    {
      assert Same(s0, s1, m);
    }
  }

  lemma ImportBroken(lib: Library, mods: seq<Module>, k: nat, d: nat)
    requires ModsOk(lib, mods) && k < |mods| && d < |mods[k].image.imports|
    requires Broken(lib, Key(mods[k].image.imports[d].name))
    ensures Broken(lib, Key(mods[k].name))
  {
    assert Imports(lib[Key(mods[k].name)], Key(mods[k].image.imports[d].name));
    BrokenOn(lib, Key(mods[k].name), Key(mods[k].image.imports[d].name));
  }

  lemma TargetIs(lib: Library, mods: seq<Module>, t: nat, name: Name)
    requires ModsOk(lib, mods) && t < |mods| && Key(mods[t].name) == Key(name)
    ensures Target(mods, name) == Some(t)
  {
  }

  lemma TargetImage(lib: Library, mods: seq<Module>, t: nat, name: Name)
    requires ModsOk(lib, mods) && Target(mods, name) == Some(t)
    ensures t < |mods| && Key(name) in lib && lib[Key(name)] == mods[t].image
  {
  }

  lemma ImagesOk(lib: Library, mods: seq<Module>, m: nat)
    requires LibraryOk(lib) && ModsOk(lib, mods) && m < |mods|
    ensures ImageOk(mods[m].image)
  {
  }

  // What the counters of module k show while its imports are followed.
  lemma GoodFacts(lib: Library, base: seq<nat>, s: Loaded, k: nat)
    requires Good(lib, base, s) && k < |s.mods|
    ensures Shaped(s) && ModsOk(lib, s.mods)
    ensures |s.mods| == |s.counts| == |s.tables| == |s.bound| == |s.counted|
    ensures |s.tables[k]| == |s.mods[k].image.imports| && s.bound[k] <= s.counted[k] <= |s.mods[k].image.imports|
    ensures forall d: nat | s.bound[k] <= d < |s.tables[k]| :: s.tables[k][d] == s.mods[k].image.imports[d].thunks
  {
    forall d: nat | s.bound[k] <= d < |s.tables[k]|
      ensures s.tables[k][d] == s.mods[k].image.imports[d].thunks
    {
      assert TableOk(s, k, d);
    }
  }

  lemma ProgressStart(lib: Library, s: Loaded, k: nat)
    requires Shaped(s) && k < |s.mods| && s.counted[k] == s.bound[k]
    ensures Progress(lib, s, s, k, s.bound[k])
  {
  }

  lemma ProgressHere(lib: Library, s0: Loaded, s: Loaded, k: nat, d: nat)
    requires Shaped(s0) && Shaped(s) && k < |s0.mods| && s.mods == s0.mods
    requires s.counted == s0.counted[k := d + 1] && s.bound == s0.bound[k := d + 1]
    ensures Progress(lib, s0, s, k, d + 1)
  {
  }

  lemma ProgressFacts(lib: Library, s0: Loaded, s: Loaded, k: nat, d: nat)
    requires Shaped(s0) && Shaped(s) && k < |s0.mods| && Progress(lib, s0, s, k, d)
    ensures s0.mods <= s.mods && k < |s.counted| == |s.bound| && s.counted[k] == s.bound[k] == d
        && s.mods[k] == s0.mods[k]
  {
  }

  lemma NamesAndOrdinals(e: Exports)
    requires Sorted(e)
    ensures |e.ordinals| == |e.names|
  {
  }

  lemma BoundTable(mods: seq<Module>, table: seq<Thunk>, k: nat, d: nat, t: nat)
    requires k < |mods| && d < |mods[k].image.imports| && t < |mods| && mods[t].image.exports.Some?
    requires Target(mods, mods[k].image.imports[d].name) == Some(t) && !IsSelf(mods[k], d)
    requires |table| == |mods[k].image.imports[d].thunks|
    requires forall j :: 0 <= j < |table| ==> ThunkBound(mods[t].image.exports.value, t,
        mods[k].image.imports[d].thunks[j], table[j])
    ensures TableBound(mods, table, k, d)
  {
  }
}
