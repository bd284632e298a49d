/** Copying the firmware's configuration tree into linked entries of the loader's own. */
module ConfigCopy {
  import opened FatFormat
  import opened ConfigTree

  datatype Header = Header(kind: nat, subkind: nat, key: nat, dataLength: nat, identifierLength: nat)

  /** An entry is allocated together with room for the configuration data and the
      identifier, which are found through it. */
  datatype Entry = Entry(
    header: Header, tail: seq<Byte>, dataAt: Option<nat>, identifierAt: Option<nat>,
    parent: Option<nat>, child: Option<nat>, sibling: Option<nat>)
  {
    // These bytes, and how many, are found through the entry; no place is given for none.
    predicate Leads(at: Option<nat>, length: nat, bytes: seq<Byte>) {
      && length == |bytes| && (at.None? <==> bytes == [])
      && (at.Some? ==> at.value + length <= |tail| && tail[at.value..at.value + length] == bytes)
    }

    // The entry tells of component c.
    predicate Tells(c: Component) {
      && header.kind == c.kind && header.subkind == c.subkind && header.key == c.key
      && Leads(dataAt, header.dataLength, c.data) && Leads(identifierAt, header.identifierLength, c.identifier)
    }
  }

  // The entry of component c: data first, then the identifier, each only if there is any.
  function Entered(c: Component, parent: Option<nat>, child: Option<nat>, sibling: Option<nat>): Entry {
    Entry(Header(c.kind, c.subkind, c.key, |c.data|, |c.identifier|), c.data + c.identifier,
          if c.data == [] then None else Some(0), if c.identifier == [] then None else Some(|c.data|),
          parent, child, sibling)
  }

  lemma EnteredTells(c: Component, parent: Option<nat>, child: Option<nat>, sibling: Option<nat>)
    ensures Entered(c, parent, child, sibling).Tells(c)
  {
  }

  method NewEntry(c: Component, parent: Option<nat>) returns (e: Entry)
    ensures e == Entered(c, parent, None, None)
  {
    var tail, dataAt, identifierAt := [], None, None;
    if |c.data| != 0 {
      dataAt := Some(0);
      tail := tail + c.data;
    }
    if |c.identifier| != 0 {
      identifierAt := Some(|tail|);
      tail := tail + c.identifier;
    }
    e := Entry(Header(c.kind, c.subkind, c.key, |c.data|, |c.identifier|), tail, dataAt, identifierAt, parent, None,
               None);
  }

  /** Entry i heads a faithful copy of t: same components, and parent, child and sibling
      links that mirror the tree. */
  ghost predicate Mirrors(es: seq<Entry>, i: Option<nat>, parent: Option<nat>, t: Tree)
    decreases t
  {
    match t
    case Nil => i == None
    case Node(info, child, sibling) =>
      && i.Some? && i.value < |es| && es[i.value].Tells(info) && es[i.value].parent == parent
      && Mirrors(es, es[i.value].child, i, child) && Mirrors(es, es[i.value].sibling, parent, sibling)
  }

  function Size(t: Tree): nat {
    match t
    case Nil => 0
    case Node(_, child, sibling) => 1 + Size(child) + Size(sibling)
  }

  function At(t: Tree, i: nat): Option<nat> {
    if t.Node? then Some(i) else None
  }

  // How a list of children is laid out from entry `lo` on: the first child, its siblings
  // with all that is under them, then what is under the first child ...
  function LayFirst(lo: nat, parent: Option<nat>, t: Tree): (r: seq<Entry>)
    ensures |r| == Size(t)
    decreases t
  {
    match t
    case Nil => []
    case Node(info, child, sibling) =>
      [Entered(info, parent, At(child, lo + 1 + Size(sibling)), At(sibling, lo + 1))]
      + LayRest(lo + 1, parent, sibling) + LayFirst(lo + 1 + Size(sibling), Some(lo), child)
  }

  // ... and how the rest of the list is: a sibling, what is under it, the next sibling.
  function LayRest(lo: nat, parent: Option<nat>, t: Tree): (r: seq<Entry>)
    ensures |r| == Size(t)
    decreases t
  {
    match t
    case Nil => []
    case Node(info, child, sibling) =>
      [Entered(info, parent, At(child, lo + 1), At(sibling, lo + 1 + Size(child)))]
      + LayFirst(lo + 1, Some(lo), child) + LayRest(lo + 1 + Size(child), parent, sibling)
  }

  ghost predicate Holds(es: seq<Entry>, lo: nat, part: seq<Entry>) {
    lo + |part| <= |es| && es[lo..lo + |part|] == part
  }

  lemma HoldsParts(es: seq<Entry>, lo: nat, a: seq<Entry>, b: seq<Entry>)
    requires Holds(es, lo, a + b)
    ensures Holds(es, lo, a) && Holds(es, lo + |a|, b)
  {
    var all := es[lo..lo + |a + b|];
    assert es[lo..lo + |a|] == all[..|a|] && es[lo + |a|..lo + |a| + |b|] == all[|a|..];
    assert (a + b)[..|a|] == a && (a + b)[|a|..] == b;
  }

  lemma LayFirstNode(lo: nat, parent: Option<nat>, t: Tree)
    requires t.Node?
    ensures LayFirst(lo, parent, t) ==
            [Entered(t.info, parent, At(t.child, lo + 1 + Size(t.sibling)), At(t.sibling, lo + 1))]
            + LayRest(lo + 1, parent, t.sibling) + LayFirst(lo + 1 + Size(t.sibling), Some(lo), t.child)
  {
  }

  lemma LayRestNode(lo: nat, parent: Option<nat>, t: Tree)
    requires t.Node?
    ensures LayRest(lo, parent, t) ==
            [Entered(t.info, parent, At(t.child, lo + 1), At(t.sibling, lo + 1 + Size(t.child)))]
            + LayFirst(lo + 1, Some(lo), t.child) + LayRest(lo + 1 + Size(t.child), parent, t.sibling)
  {
  }

  lemma LayNil(lo: nat, parent: Option<nat>, t: Tree)
    requires t.Nil?
    ensures LayFirst(lo, parent, t) == [] && LayRest(lo, parent, t) == []
  {
  }

  lemma HoldsOne(es: seq<Entry>, lo: nat, x: Entry, a: seq<Entry>, b: seq<Entry>)
    requires Holds(es, lo, [x] + a + b)
    ensures lo < |es| && es[lo] == x && Holds(es, lo + 1, a) && Holds(es, lo + 1 + |a|, b)
  {
    HoldsParts(es, lo, [x] + a, b);
    HoldsParts(es, lo, [x], a);
    assert es[lo..lo + 1][0] == x;
  }

  lemma NodeMirrors(es: seq<Entry>, lo: nat, parent: Option<nat>, t: Tree, child: Option<nat>, sibling: Option<nat>)
    requires t.Node? && lo < |es| && es[lo] == Entered(t.info, parent, child, sibling)
    requires Mirrors(es, child, Some(lo), t.child) && Mirrors(es, sibling, parent, t.sibling)
    ensures Mirrors(es, Some(lo), parent, t)
  {
    EnteredTells(t.info, parent, child, sibling);
  }

  /** A list laid out like that, either way, is a faithful copy. */
  lemma {:induction false} FirstMirrors(es: seq<Entry>, lo: nat, parent: Option<nat>, t: Tree)
    requires Holds(es, lo, LayFirst(lo, parent, t))
    ensures Mirrors(es, At(t, lo), parent, t)
    decreases t
  {
    hide LayFirst, LayRest, Holds, Mirrors, Size;
    if t.Nil? {
      NilMirrors(es, parent);
    } else {
      var next := lo + 1 + Size(t.sibling);
      LayFirstNode(lo, parent, t);
      HoldsOne(es, lo, Entered(t.info, parent, At(t.child, next), At(t.sibling, lo + 1)),
               LayRest(lo + 1, parent, t.sibling), LayFirst(next, Some(lo), t.child));
      RestMirrors(es, lo + 1, parent, t.sibling);
      FirstMirrors(es, next, Some(lo), t.child);
      NodeMirrors(es, lo, parent, t, At(t.child, next), At(t.sibling, lo + 1));
    }
  }

  lemma {:induction false} RestMirrors(es: seq<Entry>, lo: nat, parent: Option<nat>, t: Tree)
    requires Holds(es, lo, LayRest(lo, parent, t))
    ensures Mirrors(es, At(t, lo), parent, t)
    decreases t
  {
    hide LayFirst, LayRest, Holds, Mirrors, Size;
    if t.Nil? {
      NilMirrors(es, parent);
    } else {
      var next := lo + 1 + Size(t.child);
      LayRestNode(lo, parent, t);
      HoldsOne(es, lo, Entered(t.info, parent, At(t.child, lo + 1), At(t.sibling, next)),
               LayFirst(lo + 1, Some(lo), t.child), LayRest(next, parent, t.sibling));
      FirstMirrors(es, lo + 1, Some(lo), t.child);
      RestMirrors(es, next, parent, t.sibling);
      NodeMirrors(es, lo, parent, t, At(t.child, lo + 1), At(t.sibling, next));
    }
  }

  lemma NilMirrors(es: seq<Entry>, parent: Option<nat>)
    ensures Mirrors(es, None, parent, Nil)
  {
  }

  function SetChild(es: seq<Entry>, i: Option<nat>, child: Option<nat>): (r: seq<Entry>)
    requires i.Some? ==> i.value < |es|
    ensures |r| == |es|
  {
    if i.Some? then es[i.value := es[i.value].(child := child)] else es
  }

  // The entries once the children t of `parent` have been copied.
  function WithChildren(es: seq<Entry>, parent: Option<nat>, t: Tree): seq<Entry>
    requires parent.Some? ==> parent.value < |es|
  {
    if t.Nil? then es else SetChild(es, parent, Some(|es|)) + LayFirst(|es|, parent, t)
  }

  // The entries once the siblings t after entry `previous` have been copied.
  function WithSiblings(es: seq<Entry>, parent: Option<nat>, previous: nat, t: Tree): seq<Entry>
    requires previous < |es|
  {
    if t.Nil? then es else es[previous := es[previous].(sibling := Some(|es|))] + LayRest(|es|, parent, t)
  }

  // A first child has been entered: its siblings come next, then its own children.
  lemma FirstChild(es: seq<Entry>, parent: Option<nat>, t: Tree)
    requires t.Node? && (parent.Some? ==> parent.value < |es|)
    ensures var c := |es|;
            var es1 := SetChild(es, parent, Some(c)) + [Entered(t.info, parent, None, None)];
            var es2 := WithSiblings(es1, parent, c, t.sibling);
            |es2| == c + 1 + Size(t.sibling) && WithChildren(es2, Some(c), t.child) == WithChildren(es, parent, t)
  {
    hide LayFirst, LayRest;
    var c := |es|;
    var es0 := SetChild(es, parent, Some(c));
    var here, siblings := Entered(t.info, parent, None, At(t.sibling, c + 1)), LayRest(c + 1, parent, t.sibling);
    var es2 := WithSiblings(es0 + [Entered(t.info, parent, None, None)], parent, c, t.sibling);
    LayFirstNode(c, parent, t);
    LayNil(c + 1, parent, Nil);
    Replaced(es0, Entered(t.info, parent, None, None), [], here);
    assert es2 == es0 + [here] + siblings;
    LayNil(c + 1 + Size(t.sibling), Some(c), Nil);
    Replaced(es0, here, siblings, here.(child := Some(|es2|)));
    Regroup(es0, here.(child := At(t.child, |es2|)), siblings, LayFirst(|es2|, Some(c), t.child));
  }

  lemma Replaced(a: seq<Entry>, x: Entry, b: seq<Entry>, y: Entry)
    ensures (a + [x] + b)[|a| := y] == a + [y] + b && (a + [x])[|a| := y] == a + [y]
  {
  }

  lemma Regroup(a: seq<Entry>, x: Entry, b: seq<Entry>, c: seq<Entry>)
    ensures a + [x] + b + c == a + ([x] + b + c) && a + [x] + b + [] == a + [x] + b
  {
  }

  // A sibling has been entered, its children copied, and the one before linked to it.
  lemma NextSibling(es: seq<Entry>, parent: Option<nat>, previous: nat, t: Tree)
    requires t.Node? && previous < |es|
    ensures var s := |es|;
            var es1 := WithChildren(es + [Entered(t.info, parent, None, None)], Some(s), t.child);
            var es2 := es1[previous := es1[previous].(sibling := Some(s))];
            s < |es2| && WithSiblings(es2, parent, s, t.sibling) == WithSiblings(es, parent, previous, t)
  {
    hide LayFirst, LayRest;
    var s := |es|;
    var plain, here := Entered(t.info, parent, None, None), Entered(t.info, parent, At(t.child, s + 1), None);
    var es1 := WithChildren(es + [plain], Some(s), t.child);
    var es2 := es1[previous := es1[previous].(sibling := Some(s))];
    var linked := es[previous := es[previous].(sibling := Some(s))];
    var under := LayFirst(s + 1, Some(s), t.child);
    LayRestNode(s, parent, t);
    LayNil(s + 1, Some(s), Nil);
    Replaced(es, plain, [], here);
    assert es1 == es + [here] + under;
    Linked(es, [here] + under, previous, es[previous].(sibling := Some(s)));
    assert es + [here] + under == es + ([here] + under) && linked + [here] + under == linked + ([here] + under);
    assert es2 == linked + [here] + under;
    LayNil(s + 1 + Size(t.child), parent, Nil);
    Replaced(linked, here, under, here.(sibling := Some(|es2|)));
    Regroup(linked, here.(sibling := At(t.sibling, |es2|)), under, LayRest(|es2|, parent, t.sibling));
  }

  lemma Linked(a: seq<Entry>, b: seq<Entry>, i: nat, x: Entry)
    requires i < |a|
    ensures (a + b)[i := x] == a[i := x] + b
  {
  }

  // The heap refuses one of the n entries from number lo on.
  ghost predicate Refused(grants: nat -> bool, lo: nat, n: nat) {
    exists k: nat :: lo <= k < lo + n && !grants(k)
  }

  lemma ChildrenSize(es: seq<Entry>, parent: Option<nat>, t: Tree)
    requires parent.Some? ==> parent.value < |es|
    ensures |WithChildren(es, parent, t)| == |es| + Size(t)
  {
  }

  lemma SiblingsSize(es: seq<Entry>, parent: Option<nat>, previous: nat, t: Tree)
    requires previous < |es|
    ensures |WithSiblings(es, parent, previous, t)| == |es| + Size(t)
  {
  }

  lemma RefusedWithin(grants: nat -> bool, lo: nat, n: nat, lo': nat, n': nat)
    requires Refused(grants, lo', n') && lo <= lo' && lo' + n' <= lo + n
    ensures Refused(grants, lo, n)
  {
  }

  lemma NoneRefused(grants: nat -> bool, lo: nat, n: nat, n': nat)
    requires !Refused(grants, lo, n) && !Refused(grants, lo + n, n')
    ensures !Refused(grants, lo, n + n')
  {
  }

  class Copier {
    var entries: seq<Entry>
    var root: Option<nat>
    const grants: nat -> bool   // whether the heap has memory for the k-th entry

    constructor (grants: nat -> bool)
      ensures entries == [] && root == None && this.grants == grants
    {
      entries, root := [], None;
      this.grants := grants;
    }

    // Copy the children t of a component, `parent` being the copy of that component.
    method Initialize(t: Tree, parent: Option<nat>) returns (copied: bool)
      requires parent.Some? ==> parent.value < |entries|
      modifies this
      ensures copied <==> !Refused(grants, old(|entries|), Size(t))
      ensures copied ==>
                && entries == WithChildren(old(entries), parent, t)
                && root == if t.Node? && parent.None? then Some(old(|entries|)) else old(root)
      decreases t
    {
      hide LayFirst, LayRest, Refused, WithSiblings, WithChildren;
      var child: Tree, parentEntry: Option<nat> := t, parent;
      ChildrenSize(entries, parent, t);
      NothingRefused(grants, |entries|);
      while child.Node?
        invariant parentEntry.Some? ==> parentEntry.value < |entries|
        invariant WithChildren(entries, parentEntry, child) == WithChildren(old(entries), parent, t)
        invariant |entries| + Size(child) == old(|entries|) + Size(t) && |entries| >= old(|entries|)
        invariant !Refused(grants, old(|entries|), |entries| - old(|entries|))
        invariant child == t || child < t
        invariant parentEntry.None? ==> parent.None? && child == t && entries == old(entries)
        invariant root == if parentEntry != parent && parent.None? then Some(old(|entries|)) else old(root)
        invariant child == t ==> parentEntry == parent
        decreases child
      {
        var childEntry := |entries|;
        if !grants(childEntry) {
          OneRefused(grants, old(|entries|), Size(t), childEntry);
          return false;
        }
        OneGranted(grants, old(|entries|), childEntry);
        FirstChild(entries, parentEntry, child);
        if parentEntry.None? {
          root := Some(childEntry);
        } else {
          entries := SetChild(entries, parentEntry, Some(childEntry));
        }
        var entry := NewEntry(child.info, parentEntry);
        entries := entries + [entry];
        ghost var before := |entries|;
        SiblingsSize(entries, parentEntry, childEntry, child.sibling);
        var siblingsCopied := CopySiblings(child.sibling, parentEntry, childEntry);
        if !siblingsCopied {
          RefusedWithin(grants, old(|entries|), Size(t), before, Size(child.sibling));
          return false;
        }
        NoneRefused(grants, old(|entries|), before - old(|entries|), Size(child.sibling));
        ChildrenSize(entries, Some(childEntry), child.child);
        parentEntry := Some(childEntry);
        child := child.child;
      }
      NothingToCopy(entries, parentEntry);
      return true;
    }

    // Copy the siblings t of the first child, entry `first`.
    method CopySiblings(t: Tree, parent: Option<nat>, first: nat) returns (copied: bool)
      requires first < |entries|
      modifies this
      ensures copied <==> !Refused(grants, old(|entries|), Size(t))
      ensures copied ==> entries == WithSiblings(old(entries), parent, first, t) && root == old(root)
      decreases t
    {
      hide LayFirst, LayRest, Refused, WithChildren, WithSiblings;
      var sibling: Tree, previous: nat := t, first;
      SiblingsSize(entries, parent, first, t);
      NothingRefused(grants, |entries|);
      while sibling.Node?
        invariant previous < |entries| && root == old(root)
        invariant WithSiblings(entries, parent, previous, sibling) == WithSiblings(old(entries), parent, first, t)
        invariant |entries| + Size(sibling) == old(|entries|) + Size(t) && |entries| >= old(|entries|)
        invariant !Refused(grants, old(|entries|), |entries| - old(|entries|))
        invariant sibling == t || sibling < t
        decreases sibling
      {
        var siblingEntry := |entries|;
        if !grants(siblingEntry) {
          OneRefused(grants, old(|entries|), Size(t), siblingEntry);
          return false;
        }
        OneGranted(grants, old(|entries|), siblingEntry);
        NextSibling(entries, parent, previous, sibling);
        var entry := NewEntry(sibling.info, parent);
        entries := entries + [entry];
        ghost var before := |entries|;
        ChildrenSize(entries, Some(siblingEntry), sibling.child);
        NothingToCopy(entries, Some(siblingEntry));
        if sibling.child.Node? {
          var childrenCopied := Initialize(sibling.child, Some(siblingEntry));
          if !childrenCopied {
            RefusedWithin(grants, old(|entries|), Size(t), before, Size(sibling.child));
            return false;
          }
          NoneRefused(grants, old(|entries|), before - old(|entries|), Size(sibling.child));
        }
        entries := entries[previous := entries[previous].(sibling := Some(siblingEntry))];
        SiblingsSize(entries, parent, siblingEntry, sibling.sibling);
        previous := siblingEntry;
        sibling := sibling.sibling;
      }
      NothingAfter(entries, parent, previous);
      return true;
    }

    /** The copy of a whole tree mirrors it, one entry for each component, unless the heap
        refuses memory for one of them. */
    method CopyTree(t: Tree) returns (copied: bool)
      requires entries == [] && root == None
      modifies this
      ensures copied <==> forall k: nat :: k < Size(t) ==> grants(k)
      ensures copied ==> |entries| == Size(t) && Mirrors(entries, root, None, t)
    {
      copied := Initialize(t, None);
      if copied {
        assert entries == LayFirst(0, None, t) by {
          assert SetChild([], None, Some(0)) == [];
        }
        assert entries[0..|entries|] == entries;
        FirstMirrors(entries, 0, None, t);
      }
    }
  }

  lemma NothingRefused(grants: nat -> bool, lo: nat)
    ensures !Refused(grants, lo, 0)
  {
  }

  lemma OneRefused(grants: nat -> bool, lo: nat, n: nat, k: nat)
    requires lo <= k < lo + n && !grants(k)
    ensures Refused(grants, lo, n)
  {
  }

  lemma OneGranted(grants: nat -> bool, lo: nat, k: nat)
    requires lo <= k && !Refused(grants, lo, k - lo) && grants(k)
    ensures !Refused(grants, lo, k + 1 - lo)
  {
  }

  lemma NothingToCopy(es: seq<Entry>, parent: Option<nat>)
    requires parent.Some? ==> parent.value < |es|
    ensures WithChildren(es, parent, Nil) == es
  {
  }

  lemma NothingAfter(es: seq<Entry>, parent: Option<nat>, previous: nat)
    requires previous < |es|
    ensures WithSiblings(es, parent, previous, Nil) == es
  {
  }
}
