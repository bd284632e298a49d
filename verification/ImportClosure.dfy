/** Loading everything that a list of given modules needs. */
module ImportClosure {
  import opened FatFormat
  import opened ExportBinding
  import opened ImportGraph
  import opened ImportBinder

  ghost predicate Needed(lib: Library, mods: seq<Module>, roots: nat, key: Name)
    requires roots <= |mods|
  {
    exists r :: 0 <= r < roots && Reaches(lib, Key(mods[r].name), key)
  }

  /** The state in which nothing is left to do. */
  ghost predicate Complete(lib: Library, base: seq<nat>, s: Loaded) {
    && Good(lib, base, s) && |base| <= |s.mods|
    && (forall m: nat | m < |s.mods| :: Finished(s, m))
    && (forall m: nat | m < |s.mods| :: Needed(lib, s.mods, |base|, Key(s.mods[m].name)))
  }

  // The first k given modules and everything loaded so far are finished, the other
  // given modules are as they came.
  ghost predicate Underway(lib: Library, base: seq<nat>, s: Loaded, k: nat) {
    && Good(lib, base, s) && k <= |base| <= |s.mods|
    && (forall m: nat | m < |s.mods| && !(k <= m < |base|) :: Finished(s, m))
    && (forall m: nat | k <= m < |base| :: s.counted[m] == s.bound[m] == 0)
    && (forall m: nat | m < |s.mods| :: Needed(lib, s.mods, |base|, Key(s.mods[m].name)))
  }

  lemma GoodShape(lib: Library, base: seq<nat>, s: Loaded)
    requires Good(lib, base, s)
    ensures Shaped(s) && |s.mods| == |s.counted| == |s.bound|
  {
  }

  lemma UnderwayFinished(lib: Library, s: Loaded, s': Loaded, roots: nat, k: nat, m: nat)
    requires Shaped(s) && Shaped(s') && k < roots <= |s.mods| && m < |s'.mods| && !(k + 1 <= m < roots)
    requires m < |s.mods| && m != k ==> Finished(s, m)
    requires Progress(lib, s, s', k, |s.mods[k].image.imports|)
    ensures Finished(s', m)
  {
    hide Shaped, Reaches, Key;
    if m < |s.mods| && m != k {
      assert Same(s, s', m);
    }
  }

  lemma UnderwayUntouched(lib: Library, s: Loaded, s': Loaded, roots: nat, k: nat, m: nat)
    requires Shaped(s) && Shaped(s') && k < m < roots <= |s.mods| && s.counted[m] == s.bound[m] == 0
    requires Progress(lib, s, s', k, |s.mods[k].image.imports|)
    ensures s'.counted[m] == s'.bound[m] == 0
  {
    hide Shaped, Reaches, Key;
    assert Same(s, s', m);
  }

  // Module m, loaded before or on the way, is needed by root r.
  lemma UnderwayNeeded(lib: Library, s: Loaded, s': Loaded, roots: nat, k: nat, m: nat, r: nat)
    requires Shaped(s) && Shaped(s') && k < roots <= |s.mods| && m < |s'.mods| && r < roots
    requires if m < |s.mods| then Reaches(lib, Key(s.mods[r].name), Key(s.mods[m].name)) else r == k
    requires Progress(lib, s, s', k, |s.mods[k].image.imports|)
    ensures Needed(lib, s'.mods, roots, Key(s'.mods[m].name))
  {
    hide Shaped, Reaches, Key;
    assert Reaches(lib, Key(s'.mods[r].name), Key(s'.mods[m].name));
  }

  lemma NeededRoot(lib: Library, mods: seq<Module>, roots: nat, key: Name) returns (r: nat)
    requires roots <= |mods| && Needed(lib, mods, roots, key)
    ensures r < roots && Reaches(lib, Key(mods[r].name), key)
  {
    r :| 0 <= r < roots && Reaches(lib, Key(mods[r].name), key);
  }

  lemma UnderwayNext(lib: Library, base: seq<nat>, s: Loaded, s': Loaded, k: nat)
    requires Underway(lib, base, s, k) && k < |base| && Good(lib, base, s')
    requires Progress(lib, s, s', k, |s.mods[k].image.imports|)
    ensures Underway(lib, base, s', k + 1)
  {
    hide Good, Shaped, Finished, Needed, Reaches, Key;
    GoodShape(lib, base, s);
    GoodShape(lib, base, s');
    ProgressFacts(lib, s, s', k, |s.mods[k].image.imports|);
    forall m: nat | m < |s'.mods| && !(k + 1 <= m < |base|)
      ensures Finished(s', m)
    {
      UnderwayFinished(lib, s, s', |base|, k, m);
    }
    forall m: nat | k + 1 <= m < |base|
      ensures s'.counted[m] == s'.bound[m] == 0
    {
      UnderwayUntouched(lib, s, s', |base|, k, m);
    }
    forall m: nat | m < |s'.mods|
      ensures Needed(lib, s'.mods, |base|, Key(s'.mods[m].name))
    {
      var r := k;
      if m < |s.mods| {
        r := NeededRoot(lib, s.mods, |base|, Key(s.mods[m].name));
      }
      UnderwayNeeded(lib, s, s', |base|, k, m, r);
    }
  }

  lemma RootsNeeded(lib: Library, mods: seq<Module>, m: nat)
    requires m < |mods|
    ensures Needed(lib, mods, |mods|, Key(mods[m].name))
  {
    ReachesItself(lib, Key(mods[m].name));
  }

  lemma UnderwayStart(lib: Library, base: seq<nat>, s: Loaded)
    requires Good(lib, base, s) && |base| == |s.mods| && forall m: nat | m < |s.mods| :: s.counted[m] == s.bound[m] == 0
    ensures Underway(lib, base, s, 0)
  {
    forall m: nat | m < |s.mods|
      ensures Needed(lib, s.mods, |base|, Key(s.mods[m].name))
    {
      RootsNeeded(lib, s.mods, m);
    }
  }

  lemma UnderwayFacts(lib: Library, base: seq<nat>, s: Loaded, k: nat)
    requires Underway(lib, base, s, k)
    ensures Good(lib, base, s) && k <= |base| <= |s.mods|
    ensures k < |base| ==> k < |s.counted| && k < |s.bound| && s.counted[k] == s.bound[k] == 0
  {
  }

  /** Scan the imports of each module given. On success nothing is left to do; on
      failure some module given cannot be bound, for a reason that lies in the modules
      it needs. */
  method BindAll(loader: Loader, lib: Library, ghost base: seq<nat>) returns (status: Status)
    requires LibraryOk(lib) && Good(lib, base, loader.State()) && |base| == |loader.modules|
    requires forall m: nat | m < |loader.modules| :: loader.counted[m] == loader.bound[m] == 0
    modifies loader
    ensures status == ESUCCESS ==> Complete(lib, base, loader.State()) && old(loader.modules) <= loader.modules
    ensures status != ESUCCESS ==> exists r ::
        0 <= r < |old(loader.modules)| && Broken(lib, Key(old(loader.modules)[r].name))
  {
    hide Good, Underway, Broken, LibraryOk, Progress, Key;
    ghost var mods0 := loader.modules;
    var roots := |loader.modules|;
    UnderwayStart(lib, base, loader.State());
    for k := 0 to roots
      invariant Underway(lib, base, loader.State(), k) && mods0 <= loader.modules
    {
      ghost var s := loader.State();
      UnderwayFacts(lib, base, s, k);
      GoodFacts(lib, base, s, k);
      status := loader.ScanImportDescriptorTable(lib, k, base);
      if status != ESUCCESS {
        assert Broken(lib, Key(mods0[k].name));
        return status;
      }
      GoodFacts(lib, base, loader.State(), k);
      ProgressFacts(lib, s, loader.State(), k, |s.mods[k].image.imports|);
      UnderwayNext(lib, base, s, loader.State(), k);
    }
    UnderwayDone(lib, base, loader.State());
    return ESUCCESS;
  }

  lemma UnderwayDone(lib: Library, base: seq<nat>, s: Loaded)
    requires Underway(lib, base, s, |base|)
    ensures Complete(lib, base, s)
  {
  }

  lemma FinishedImports(lib: Library, base: seq<nat>, s: Loaded, m: nat, d: nat)
    requires Complete(lib, base, s) && m < |s.mods| && d < |s.mods[m].image.imports|
    ensures Shaped(s) && Asked(s.mods, m, d) && TableBound(s.mods, s.tables[m][d], m, d)
    ensures Key(s.mods[m].name) in lib && lib[Key(s.mods[m].name)] == s.mods[m].image
  {
    hide Target, Key, CountOk;
    assert Finished(s, m);
    assert Asked(s.mods, m, d);
    assert TableOk(s, m, d);
  }

  lemma ModuleOf(mods: seq<Module>, key: Name) returns (m: nat)
    requires key in Keys(mods)
    ensures m < |mods| && Key(mods[m].name) == key
  {
    m :| m < |mods| && Key(mods[m].name) == key;
  }

  lemma KeyOf(mods: seq<Module>, m: nat)
    requires m < |mods|
    ensures Key(mods[m].name) in Keys(mods)
  {
  }

  // The loaded modules need no others.
  lemma LoadedIsClosed(lib: Library, base: seq<nat>, s: Loaded, a: Name, b: Name)
    requires Complete(lib, base, s) && a in Keys(s.mods) && a in lib && Imports(lib[a], b)
    ensures b in Keys(s.mods)
  {
    hide Good, Key;
    var m := ModuleOf(s.mods, a);
    var d :| 0 <= d < |lib[a].imports| && Key(lib[a].imports[d].name) == b;
    ModsMatch(lib, base, s, m);
    FinishedImports(lib, base, s, m, d);
    if IsSelf(s.mods[m], d) {
      KeyOf(s.mods, m);
    } else {
      KeyOf(s.mods, Target(s.mods, s.mods[m].image.imports[d].name).value);
    }
  }

  lemma ModsMatch(lib: Library, base: seq<nat>, s: Loaded, m: nat)
    requires Complete(lib, base, s) && m < |s.mods|
    ensures Key(s.mods[m].name) in lib && lib[Key(s.mods[m].name)] == s.mods[m].image
  {
  }

  /** In the end exactly the modules needed are loaded, each once up to case. */
  lemma LoadedAreTheNeeded(lib: Library, base: seq<nat>, s: Loaded, key: Name)
    requires Complete(lib, base, s)
    ensures key in Keys(s.mods) <==> Needed(lib, s.mods, |base|, key)
    ensures forall m, n :: 0 <= m < n < |s.mods| ==> Key(s.mods[m].name) != Key(s.mods[n].name)
  {
    hide Key, TableOk, CountOk, Asked;
    if key in Keys(s.mods) {
      var m := ModuleOf(s.mods, key);
      assert Needed(lib, s.mods, |base|, Key(s.mods[m].name));
    }
    if Needed(lib, s.mods, |base|, key) {
      var r :| 0 <= r < |base| && Reaches(lib, Key(s.mods[r].name), key);
      var p: seq<Name> :| Path(lib, p) && p[0] == Key(s.mods[r].name) && p[|p| - 1] == key;
      forall a, b | a in Keys(s.mods) && a in lib && Imports(lib[a], b)
        ensures b in Keys(s.mods)
      {
        LoadedIsClosed(lib, base, s, a, b);
      }
      KeyOf(s.mods, r);
      ClosedReaches(lib, Keys(s.mods), p);
    }
  }

  /** Every import of every loaded module is bound to the entry points it stands for in the
      loaded module it names, a module's import of itself apart. */
  lemma AllBound(lib: Library, base: seq<nat>, s: Loaded, m: nat, d: nat) returns (t: nat)
    requires Complete(lib, base, s) && m < |s.mods| && d < |s.mods[m].image.imports|
    ensures Shaped(s) && t < |s.mods| && Key(s.mods[t].name) == Key(s.mods[m].image.imports[d].name)
    ensures var thunks, exports := s.mods[m].image.imports[d].thunks, s.mods[t].image.exports;
            if Key(s.mods[m].name) == Key(s.mods[m].image.imports[d].name) then s.tables[m][d] == thunks
            else
              && exports.Some? && |s.tables[m][d]| == |thunks|
              && forall j :: 0 <= j < |thunks| ==> PointsTo(exports.value, t, thunks[j], s.tables[m][d][j])
  {
    hide Key, Good, TableBound, Complete, Total, Target, PointsTo;
    FinishedImports(lib, base, s, m, d);
    t := TablePoints(s.mods, s.tables[m][d], m, d);
  }

  lemma TablePoints(mods: seq<Module>, table: seq<Thunk>, m: nat, d: nat) returns (t: nat)
    requires m < |mods| && d < |mods[m].image.imports| && TableBound(mods, table, m, d)
    ensures t < |mods| && Key(mods[t].name) == Key(mods[m].image.imports[d].name)
    ensures var thunks, exports := mods[m].image.imports[d].thunks, mods[t].image.exports;
            if Key(mods[m].name) == Key(mods[m].image.imports[d].name) then table == thunks
            else
              && exports.Some? && |table| == |thunks|
              && forall j :: 0 <= j < |thunks| ==> PointsTo(exports.value, t, thunks[j], table[j])
  {
    hide Key, Resolve, PointsTo;
    if IsSelf(mods[m], d) {
      return m;
    }
    var i := mods[m].image.imports[d];
    t := Target(mods, i.name).value;
    var e := mods[t].image.exports.value;
    forall j | 0 <= j < |i.thunks|
      ensures PointsTo(e, t, i.thunks[j], table[j])
    {
      assert ThunkBound(e, t, i.thunks[j], table[j]);
      ResolvedPoints(e, t, i.thunks[j]);
    }
  }

  // All imports of all modules.
  ghost function AllImports(mods: seq<Module>): (r: seq<nat>)
    ensures Within(mods, r)
  {
    seq(|mods|, m requires 0 <= m < |mods| => |mods[m].image.imports|)
  }

  /** A module's load count is what it came with plus the number of imports, in all
      loaded modules, that name it, self-imports apart. */
  lemma LoadCounts(lib: Library, base: seq<nat>, s: Loaded, m: nat)
    requires Complete(lib, base, s) && m < |s.mods|
    ensures Shaped(s) && s.counts[m] == Start(base, m) + Total(s.mods, AllImports(s.mods), Key(s.mods[m].name))
  {
    hide Key, Good, Total, Complete;
    CountFact(lib, base, s, m);
    AllCounted(lib, base, s);
  }

  lemma CountFact(lib: Library, base: seq<nat>, s: Loaded, m: nat)
    requires Complete(lib, base, s) && m < |s.mods|
    ensures Shaped(s) && CountOk(base, s, m)
  {
  }

  lemma AllCounted(lib: Library, base: seq<nat>, s: Loaded)
    requires Complete(lib, base, s)
    ensures s.counted == AllImports(s.mods)
  {
    hide TableOk, CountOk, Asked, ModsOk, Needed;
    forall n: nat | n < |s.mods|
      ensures n < |s.counted| && s.counted[n] == AllImports(s.mods)[n]
    {
      assert Finished(s, n);
    }
  }

  /** Success is possible only if nothing needed is at fault: with BindAll's failure
      case, binding succeeds if and only if no module given is broken. */
  lemma SuccessMeansSound(lib: Library, base: seq<nat>, s: Loaded, r: nat)
    requires Complete(lib, base, s) && r < |base|
    ensures !Broken(lib, Key(s.mods[r].name))
  {
    hide Good, Key;
    if Broken(lib, Key(s.mods[r].name)) {
      var x, d :| Reaches(lib, Key(s.mods[r].name), x) && Faulty(lib, x, d);
      assert Needed(lib, s.mods, |base|, x);
      LoadedAreTheNeeded(lib, base, s, x);
      var m := ModuleOf(s.mods, x);
      ModsMatch(lib, base, s, m);
      BoundIsNotFaulty(lib, base, s, m, d);
    }
  }

  lemma BoundIsNotFaulty(lib: Library, base: seq<nat>, s: Loaded, m: nat, d: nat)
    requires Complete(lib, base, s) && m < |s.mods|
    ensures !Faulty(lib, Key(s.mods[m].name), d)
  {
    hide Key, Good, Resolve;
    ModsMatch(lib, base, s, m);
    if d < |s.mods[m].image.imports| && !IsSelf(s.mods[m], d) {
      FinishedImports(lib, base, s, m, d);
      var i := s.mods[m].image.imports[d];
      var t := Target(s.mods, i.name).value;
      ModsMatch(lib, base, s, t);
      forall j | 0 <= j < |i.thunks|
        ensures !Unresolved(s.mods[t].image.exports.value, i.thunks[j])
      {
        assert ThunkBound(s.mods[t].image.exports.value, t, i.thunks[j], s.tables[m][d][j]);
      }
    }
  }
}
