/** Modules and their imports: which modules a module needs, and what must hold of a
    list of loaded modules while imports are being followed. */
module ImportGraph {
  import opened FatFormat
  import opened ExportBinding

  datatype Import = Import(name: Name, thunks: seq<Thunk>)
  datatype Image = Image(imports: seq<Import>, exports: Option<Exports>)
  datatype Module = Module(name: Name, image: Image)

  // What a module name, up to case, stands for on the boot device.
  type Library = map<Name, Image>

  ghost predicate LibraryOk(lib: Library) {
    forall key :: key in lib ==> ImageOk(lib[key])
  }

  ghost predicate ImageOk(image: Image) {
    && (image.exports.Some? ==> Sorted(image.exports.value))
    && forall d, j :: 0 <= d < |image.imports| && 0 <= j < |image.imports[d].thunks|
        ==> !image.imports[d].thunks[j].Bound?
  }

  // An import descriptor that names its own module.
  predicate IsSelf(m: Module, d: nat)
    requires d < |m.image.imports|
  {
    Key(m.image.imports[d].name) == Key(m.name)
  }

  ghost predicate Imports(image: Image, key: Name) {
    exists d :: 0 <= d < |image.imports| && Key(image.imports[d].name) == key
  }

  // A chain of imports.
  ghost predicate Path(lib: Library, p: seq<Name>) {
    p != [] && forall i :: 0 <= i < |p| - 1 ==> Edge(lib, p, i)
  }

  ghost predicate Edge(lib: Library, p: seq<Name>, i: int) {
    0 <= i < |p| - 1 && p[i] in lib && Imports(lib[p[i]], p[i + 1])
  }

  /** Module b is needed by module a, directly or not. */
  ghost predicate Reaches(lib: Library, a: Name, b: Name) {
    exists p: seq<Name> :: Path(lib, p) && p[0] == a && p[|p| - 1] == b
  }

  lemma ReachesItself(lib: Library, a: Name)
    ensures Reaches(lib, a, a)
  {
    assert Path(lib, [a]);
  }

  lemma ReachesOn(lib: Library, a: Name, b: Name, c: Name)
    requires a in lib && Imports(lib[a], b) && Reaches(lib, b, c)
    ensures Reaches(lib, a, c)
  {
    var p: seq<Name> :| Path(lib, p) && p[0] == b && p[|p| - 1] == c;
    var q := [a] + p;
    forall i | 0 <= i < |q| - 1
      ensures Edge(lib, q, i)
    {
      if i > 0 {
        assert Edge(lib, p, i - 1);
      }
    }
    assert Path(lib, q);
  }

  // A set of modules closed under imports holds everything its members need.
  lemma {:induction false} ClosedReaches(lib: Library, keys: set<Name>, p: seq<Name>)
    requires Path(lib, p) && p[0] in keys
    requires forall a, b :: a in keys && a in lib && Imports(lib[a], b) ==> b in keys
    ensures p[|p| - 1] in keys
    decreases |p|
  {
    if |p| > 1 {
      assert Edge(lib, p, 0);
      var q := p[1..];
      forall i | 0 <= i < |q| - 1
        ensures Edge(lib, q, i)
      {
        assert Edge(lib, p, i + 1);
      }
      ClosedReaches(lib, keys, q);
    }
  }

  // An import that cannot be bound: no such module, no export table, or an entry point
  // that does not resolve.
  ghost predicate Faulty(lib: Library, key: Name, d: nat) {
    && key in lib && d < |lib[key].imports|
    && var i := lib[key].imports[d];
       && Key(i.name) != key
       && (Key(i.name) in lib && lib[Key(i.name)].exports.Some? ==>
             exists j :: 0 <= j < |i.thunks| && Unresolved(lib[Key(i.name)].exports.value, i.thunks[j]))
  }

  ghost predicate Unresolved(e: Exports, t: Thunk) {
    |e.ordinals| == |e.names| ==> t.Bound? || Resolve(e, t).None?
  }

  /** Some module that a needs, or a itself, has such an import. */
  ghost predicate Broken(lib: Library, a: Name) {
    exists x, d :: Reaches(lib, a, x) && Faulty(lib, x, d)
  }

  lemma BrokenOn(lib: Library, a: Name, b: Name)
    requires a in lib && Imports(lib[a], b) && Broken(lib, b)
    ensures Broken(lib, a)
  {
    var x, d :| Reaches(lib, b, x) && Faulty(lib, x, d);
    ReachesOn(lib, a, b, x);
  }

  lemma BrokenHere(lib: Library, a: Name, d: nat)
    requires Faulty(lib, a, d)
    ensures Broken(lib, a)
  {
    ReachesItself(lib, a);
  }

  // The loaded module of a given name.
  ghost function Target(mods: seq<Module>, name: Name): (r: Option<nat>)
    ensures match r
            case Some(t) => t < |mods| && Key(mods[t].name) == Key(name) && forall m :: 0 <= m < t ==>
                Key(mods[m].name) != Key(name)
            case None => forall m :: 0 <= m < |mods| ==> Key(mods[m].name) != Key(name)
  {
    if mods == [] then None
    else
      var r := Target(mods[..|mods| - 1], name);
      if r.Some? then r else if Key(mods[|mods| - 1].name) == Key(name) then Some(|mods| - 1) else None
  }

  lemma TargetAppend(mods: seq<Module>, x: Module, name: Name)
    ensures Target(mods, name).Some? ==> Target(mods + [x], name) == Target(mods, name)
    ensures Key(x.name) == Key(name) ==> Target(mods + [x], name).Some?
  {
    assert (mods + [x])[..|mods|] == mods;
  }

  // How many of the first n imports of m, itself apart, name the module `key`.
  ghost function Named(m: Module, n: nat, key: Name): nat
    requires n <= |m.image.imports|
  {
    if n == 0 then 0
    else Named(m, n - 1, key) + if !IsSelf(m, n - 1) && Key(m.image.imports[n - 1].name) == key then 1 else 0
  }

  ghost predicate Within(mods: seq<Module>, counted: seq<nat>) {
    |counted| == |mods| && forall m :: 0 <= m < |mods| ==> counted[m] <= |mods[m].image.imports|
  }

  // The same over all modules, counted[m] imports of module m being considered.
  ghost function Total(mods: seq<Module>, counted: seq<nat>, key: Name): nat
    requires Within(mods, counted)
    decreases |mods|
  {
    if mods == [] then 0
    else
      var last := |mods| - 1;
      Total(mods[..last], counted[..last], key) + Named(mods[last], counted[last], key)
  }

  lemma {:induction false} TotalCountOne(mods: seq<Module>, counted: seq<nat>, k: nat, key: Name)
    requires Within(mods, counted) && k < |mods| && counted[k] < |mods[k].image.imports|
    ensures Within(mods, counted[k := counted[k] + 1])
    ensures Total(mods, counted[k := counted[k] + 1], key) ==
            Total(mods, counted, key)
            + if !IsSelf(mods[k], counted[k]) && Key(mods[k].image.imports[counted[k]].name) == key then 1 else 0
    decreases |mods|
  {
    var last := |mods| - 1;
    if k < last {
      TotalCountOne(mods[..last], counted[..last], k, key);
      assert counted[k := counted[k] + 1][..last] == counted[..last][k := counted[k] + 1];
    } else {
      assert counted[k := counted[k] + 1][..last] == counted[..last];
    }
  }

  lemma TotalAppend(mods: seq<Module>, counted: seq<nat>, x: Module, key: Name)
    requires Within(mods, counted)
    ensures Within(mods + [x], counted + [0]) && Total(mods + [x], counted + [0], key) == Total(mods, counted, key)
  {
    assert (mods + [x])[..|mods|] == mods && (counted + [0])[..|mods|] == counted;
  }

  lemma {:induction false} NamedNone(m: Module, n: nat, key: Name)
    requires n <= |m.image.imports|
    requires forall d :: 0 <= d < n && !IsSelf(m, d) ==> Key(m.image.imports[d].name) != key
    ensures Named(m, n, key) == 0
    decreases n
  {
    if n > 0 {
      NamedNone(m, n - 1, key);
    }
  }

  lemma {:induction false} TotalNone(mods: seq<Module>, counted: seq<nat>, key: Name)
    requires Within(mods, counted)
    requires forall m, d :: 0 <= m < |mods| && 0 <= d < counted[m] && !IsSelf(mods[m], d) ==>
        Key(mods[m].image.imports[d].name) != key
    ensures Total(mods, counted, key) == 0
    decreases |mods|
  {
    if mods != [] {
      var last := |mods| - 1;
      TotalNone(mods[..last], counted[..last], key);
      NamedNone(mods[last], counted[last], key);
    }
  }
}
