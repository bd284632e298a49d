/** Searching the configuration tree, kept as first child and next sibling. */
module ConfigTree {
  import opened FatFormat
  import Arith

  datatype Component = Component(kind: nat, subkind: nat, key: nat, data: seq<Byte>, identifier: seq<Byte>)

  datatype Tree = Nil | Node(info: Component, child: Tree, sibling: Tree)

  // What to look for; a missing part matches anything.
  datatype Query = Query(kind: Option<nat>, subkind: Option<nat>, key: Option<nat>) {
    predicate Matches(c: Component) {
      && (kind.None? || c.kind == kind.value)
      && (subkind.None? || c.subkind == subkind.value)
      && (key.None? || c.key == key.value)
    }
  }

  // The nodes of the tree, children before their parent, siblings in order.
  function ChildrenFirst(t: Tree): seq<Component> {
    match t
    case Nil => []
    case Node(info, child, sibling) => ChildrenFirst(child) + [info] + ChildrenFirst(sibling)
  }

  // The way to a node from the root: a tree and what hangs below a node.
  datatype Step = Down | Across

  function Subtree(t: Tree, way: seq<Step>): Tree
    decreases |way|
  {
    if way == [] || t.Nil? then t
    else Subtree(if way[0].Down? then t.child else t.sibling, way[1..])
  }

  function Ways(first: Step, ways: seq<seq<Step>>): (r: seq<seq<Step>>)
    ensures |r| == |ways| && forall i :: 0 <= i < |r| ==> r[i] == [first] + ways[i]
  {
    seq(|ways|, i requires 0 <= i < |ways| => [first] + ways[i])
  }

  // The nodes in the order of ChildrenFirst, told apart by the ways to them.
  ghost function Visits(t: Tree): seq<seq<Step>> {
    match t
    case Nil => []
    case Node(_, child, sibling) => Ways(Down, Visits(child)) + [[]] + Ways(Across, Visits(sibling))
  }

  lemma VisitCount(t: Tree)
    ensures |Visits(t)| == if t.Nil? then 0 else |Visits(t.child)| + 1 + |Visits(t.sibling)|
  {
  }

  // Place i of the order, among the children, the node itself, or its siblings.
  lemma VisitPlace(t: Tree, i: nat)
    requires t.Node? && i < |Visits(t)|
    ensures var n := |Visits(t.child)|;
            Visits(t)[i] == if i < n then [Down] + Visits(t.child)[i]
                            else if i == n then [] else [Across] + Visits(t.sibling)[i - n - 1]
  {
  }

  /** ChildrenFirst lists every node of the tree ... */
  lemma {:induction false} EveryNode(t: Tree, way: seq<Step>) returns (i: nat)
    requires Subtree(t, way).Node?
    ensures i < |Visits(t)| && Visits(t)[i] == way
    decreases |way|
  {
    hide Visits;
    VisitCount(t);
    var n := |Visits(t.child)|;
    if way == [] {
      i := n;
    } else if way[0].Down? {
      i := EveryNode(t.child, way[1..]);
    } else {
      var j := EveryNode(t.sibling, way[1..]);
      i := n + 1 + j;
    }
    VisitPlace(t, i);
    assert way == [] || way == [way[0]] + way[1..];
  }

  /** ... and nothing else, each with its own component ... */
  lemma {:induction false} EachNode(t: Tree, i: nat)
    requires i < |Visits(t)|
    ensures |ChildrenFirst(t)| == |Visits(t)|
    ensures Subtree(t, Visits(t)[i]).Node? && Subtree(t, Visits(t)[i]).info == ChildrenFirst(t)[i]
    decreases t
  {
    var n, way := |Visits(t.child)|, Visits(t)[i];
    SameLength(t.child);
    SameLength(t.sibling);
    VisitPlace(t, i);
    if i < n {
      EachNode(t.child, i);
      assert way[1..] == Visits(t.child)[i];
    } else if i > n {
      EachNode(t.sibling, i - n - 1);
      assert way[1..] == Visits(t.sibling)[i - n - 1];
    }
  }

  lemma {:induction false} SameLength(t: Tree)
    ensures |ChildrenFirst(t)| == |Visits(t)|
    decreases t
  {
    if t.Node? {
      SameLength(t.child);
      SameLength(t.sibling);
    }
  }

  // Node y lies below node x, or among its later siblings and what is below them.
  ghost predicate Below(x: seq<Step>, y: seq<Step>) {
    x + [Down] <= y
  }

  ghost predicate After(x: seq<Step>, y: seq<Step>) {
    x + [Across] <= y
  }

  /** ... once, after all that is below it and before its siblings. */
  lemma {:induction false} NodeOrder(t: Tree, i: nat, j: nat)
    requires i < |Visits(t)| && j < |Visits(t)|
    ensures Visits(t)[i] == Visits(t)[j] ==> i == j
    ensures Below(Visits(t)[i], Visits(t)[j]) ==> j < i
    ensures After(Visits(t)[i], Visits(t)[j]) ==> i < j
    decreases t
  {
    hide Visits, Below, After;
    VisitCount(t);
    var n, x, y := |Visits(t.child)|, Visits(t)[i], Visits(t)[j];
    VisitPlace(t, i);
    VisitPlace(t, j);
    if i < n && j < n {
      NodeOrder(t.child, i, j);
      SameStep(Down, Visits(t.child)[i], Visits(t.child)[j]);
    } else if i > n && j > n {
      NodeOrder(t.sibling, i - n - 1, j - n - 1);
      SameStep(Across, Visits(t.sibling)[i - n - 1], Visits(t.sibling)[j - n - 1]);
    } else {
      FirstSteps(x, y);
    }
  }

  lemma FirstSteps(x: seq<Step>, y: seq<Step>)
    ensures Below(x, y) ==> y != [] && y[0] == if x == [] then Down else x[0]
    ensures After(x, y) ==> y != [] && y[0] == if x == [] then Across else x[0]
  {
    assert (x + [Down])[0] == if x == [] then Down else x[0];
    assert (x + [Across])[0] == if x == [] then Across else x[0];
  }

  lemma SameStep(s: Step, x: seq<Step>, y: seq<Step>)
    ensures Below([s] + x, [s] + y) <==> Below(x, y)
    ensures After([s] + x, [s] + y) <==> After(x, y)
    ensures [s] + x == [s] + y <==> x == y
  {
    assert ([s] + x)[1..] == x && ([s] + y)[1..] == y;
    assert ([s] + x + [Down])[1..] == x + [Down] && ([s] + x + [Across])[1..] == x + [Across];
  }

  function Selected(cs: seq<Component>, q: Query): seq<Component> {
    if cs == [] then [] else (if q.Matches(cs[0]) then [cs[0]] else []) + Selected(cs[1..], q)
  }

  // These places of cs, in order and once each, are those that agree with every part of q.
  ghost predicate AgreeAt(cs: seq<Component>, q: Query, at: seq<nat>) {
    && Arith.Ascending(at)
    && forall i: nat | i < |cs| ::
        i in at <==>
        && (q.kind.Some? ==> cs[i].kind == q.kind.value)
        && (q.subkind.Some? ==> cs[i].subkind == q.subkind.value)
        && (q.key.Some? ==> cs[i].key == q.key.value)
  }

  lemma AgreeNext(cs: seq<Component>, q: Query, rest: seq<nat>)
    requires cs != [] && AgreeAt(cs[1..], q, rest)
    ensures AgreeAt(cs, q, Arith.Onward(q.Matches(cs[0]), rest))
  {
    hide Arith.Ascending, Arith.Onward;
    Arith.OnwardAscends(q.Matches(cs[0]), rest);
    forall i: nat | i < |cs|
      ensures i in Arith.Onward(q.Matches(cs[0]), rest) <==> if i == 0 then q.Matches(cs[0]) else i - 1 in rest
    {
      Arith.OnwardHas(q.Matches(cs[0]), rest, i);
    }
  }

  ghost predicate TakenAt(cs: seq<Component>, at: seq<nat>, taken: seq<Component>) {
    |taken| == |at| && forall k :: 0 <= k < |at| ==> at[k] < |cs| && taken[k] == cs[at[k]]
  }

  lemma TakenNext(cs: seq<Component>, rest: seq<nat>, first: bool, taken: seq<Component>)
    requires cs != [] && TakenAt(cs[1..], rest, taken)
    ensures TakenAt(cs, Arith.Onward(first, rest), (if first then [cs[0]] else []) + taken)
  {
    var at, own := Arith.Onward(first, rest), if first then 1 else 0;
    forall k | own <= k < |at|
      ensures at[k] < |cs| && taken[k - own] == cs[at[k]]
    {
      assert at[k] == rest[k - own] + 1;
    }
  }

  /** Selected are exactly the components that agree with every part that the query has. */
  lemma {:induction false} SelectedExactly(cs: seq<Component>, q: Query) returns (at: seq<nat>)
    ensures AgreeAt(cs, q, at) && TakenAt(cs, at, Selected(cs, q))
    decreases |cs|
  {
    hide AgreeAt, TakenAt, Query.Matches;
    if cs == [] {
      at := [];
      NoneAgree(q);
    } else {
      var rest := SelectedExactly(cs[1..], q);
      AgreeNext(cs, q, rest);
      TakenNext(cs, rest, q.Matches(cs[0]), Selected(cs[1..], q));
      at := Arith.Onward(q.Matches(cs[0]), rest);
    }
  }

  lemma NoneAgree(q: Query)
    ensures AgreeAt([], q, []) && TakenAt([], [], [])
  {
  }

  lemma {:induction false} SelectedAppend(a: seq<Component>, b: seq<Component>, q: Query)
    ensures Selected(a + b, q) == Selected(a, q) + Selected(b, q)
    decreases |a|
  {
    if a == [] {
      assert a + b == b;
    } else {
      assert (a + b)[1..] == a[1..] + b;
      SelectedAppend(a[1..], b, q);
    }
  }

  // A callback decides from all it has been called with, the current node last, whether
  // to go on.
  type Callback = seq<Component> -> bool

  // Of the nodes cs still to come after `done`, those the callback gets to see.
  function Seen(done: seq<Component>, cs: seq<Component>, goOn: Callback): (r: seq<Component>)
    decreases |cs|
  {
    if cs == [] then []
    else if goOn(done + [cs[0]]) then [cs[0]] + Seen(done + [cs[0]], cs[1..], goOn)
    else [cs[0]]
  }

  predicate GoesOn(done: seq<Component>, cs: seq<Component>, goOn: Callback)
    decreases |cs|
  {
    cs == [] || (goOn(done + [cs[0]]) && GoesOn(done + [cs[0]], cs[1..], goOn))
  }

  lemma {:induction false} SeenAppend(done: seq<Component>, a: seq<Component>, b: seq<Component>, goOn: Callback)
    ensures GoesOn(done, a, goOn) ==> Seen(done, a, goOn) == a
    ensures Seen(done, a + b, goOn) == if GoesOn(done, a, goOn) then a + Seen(done + a, b, goOn)
        else Seen(done, a, goOn)
    ensures GoesOn(done, a + b, goOn) <==> GoesOn(done, a, goOn) && GoesOn(done + a, b, goOn)
    decreases |a|
  {
    if a == [] {
      assert a + b == b && done + a == done;
    } else {
      assert (a + b)[1..] == a[1..] + b && done + [a[0]] + a[1..] == done + a;
      SeenAppend(done + [a[0]], a[1..], b, goOn);
    }
  }

  ghost predicate SearchDone(t: Tree, q: Query, goOn: Callback, done: seq<Component>, all: bool,
          visited: seq<Component>)
  {
    var nodes := Selected(ChildrenFirst(t), q);
    visited == done + Seen(done, nodes, goOn) && all == GoesOn(done, nodes, goOn)
  }

  // One node of the search: its children, itself, and what is left after it.
  function Own(t: Tree, q: Query): seq<Component>
    requires t.Node?
  {
    if q.Matches(t.info) then [t.info] else []
  }

  lemma NodeSelected(node: Tree, q: Query, before: seq<Component>)
    requires node.Node?
    ensures before + Selected(ChildrenFirst(node), q) ==
            before + Selected(ChildrenFirst(node.child), q) + Own(node, q) + Selected(ChildrenFirst(node.sibling), q)
  {
    var a, b, c := ChildrenFirst(node.child), [node.info], ChildrenFirst(node.sibling);
    SelectedAppend(a + b, c, q);
    SelectedAppend(a, b, q);
    assert Selected(b, q) == Own(node, q) by { assert b[1..] == []; }
  }

  // Going on after `before`, some more nodes, and the rest.
  lemma SeenStep(done: seq<Component>, before: seq<Component>, more: seq<Component>, rest: seq<Component>,
          goOn: Callback)
    requires GoesOn(done, before, goOn)
    ensures GoesOn(done + before, more, goOn) ==>
        GoesOn(done, before + more, goOn) && Seen(done + before, more, goOn) == more
    ensures !GoesOn(done + before, more, goOn) ==>
              && !GoesOn(done, before + more + rest, goOn)
              && Seen(done, before + more + rest, goOn) == before + Seen(done + before, more, goOn)
  {
    SeenAppend(done, before, more, goOn);
    SeenAppend(done, before + more, rest, goOn);
    SeenAppend(done + before, more, [], goOn);
  }

  /** The search calls back for every matching node, once each and children first, until
      the callback says to stop. */
  method SearchConfigTree(t: Tree, q: Query, goOn: Callback, done: seq<Component>)
    returns (all: bool, visited: seq<Component>)
    requires t.Node?
    ensures SearchDone(t, q, goOn, done, all, visited)
    decreases t
  {
    hide Selected, ChildrenFirst, Seen, GoesOn;
    var node := t;
    visited := done;
    ghost var before: seq<Component> := [];
    SearchStart(done, goOn, Selected(ChildrenFirst(t), q));
    while node.Node?
      invariant Selected(ChildrenFirst(t), q) == before + Selected(ChildrenFirst(node), q)
      invariant visited == done + before && GoesOn(done, before, goOn)
      invariant node == t || node < t
      decreases node
    {
      ghost var children, own, siblings := Selected(ChildrenFirst(node.child), q), Own(node, q),
          Selected(ChildrenFirst(node.sibling), q);
      NodeSelected(node, q, before);
      SeenStep(done, before, children, own + siblings, goOn);
      assert before + children + (own + siblings) == before + children + own + siblings;
      if node.child.Node? {
        all, visited := SearchConfigTree(node.child, q, goOn, visited);
        if !all {
          assert done + before + Seen(done + before, children, goOn) == done
              + (before + Seen(done + before, children, goOn));
          return;
        }
      } else {
        NothingThere(q, done + before, goOn);
      }
      before := before + children;
      assert visited == done + before;
      SeenStep(done, before, own, siblings, goOn);
      OneNode(done + before, node.info, goOn);
      if q.Matches(node.info) {
        visited := visited + [node.info];
        if !goOn(visited) {
          assert done + before + [node.info] == done + (before + [node.info]);
          return false, visited;
        }
      } else {
        NothingThere(q, done + before, goOn);
        assert before + [] == before;
      }
      before := before + own;
      node := node.sibling;
    }
    NothingThere(q, done, goOn);
    assert before + [] == before;
    AllSeen(done, before, goOn);
    all := true;
  }

  lemma SearchStart(done: seq<Component>, goOn: Callback, nodes: seq<Component>)
    ensures GoesOn(done, [], goOn) && done + [] == done && [] + nodes == nodes
  {
  }

  lemma NothingThere(q: Query, done: seq<Component>, goOn: Callback)
    ensures Selected(ChildrenFirst(Nil), q) == [] && GoesOn(done, [], goOn) && Seen(done, [], goOn) == []
  {
  }

  lemma OneNode(done: seq<Component>, c: Component, goOn: Callback)
    ensures Seen(done, [c], goOn) == [c] && (GoesOn(done, [c], goOn) <==> goOn(done + [c]))
  {
    assert [c][1..] == [];
  }

  lemma AllSeen(done: seq<Component>, a: seq<Component>, goOn: Callback)
    requires GoesOn(done, a, goOn)
    ensures Seen(done, a, goOn) == a
  {
    SeenAppend(done, a, [], goOn);
  }

  predicate Has(t: Tree, c: Component) {
    t.Node? && (t.info == c || Has(t.child, c) || Has(t.sibling, c))
  }

  ghost predicate NoMatch(t: Tree, q: Query) {
    forall c :: Has(t, c) ==> !q.Matches(c)
  }

  /** A match is found exactly when the tree has one. */
  method FindConfigurationEntry(t: Tree, q: Query) returns (entry: Option<Component>)
    ensures entry.Some? ==> Has(t, entry.value) && q.Matches(entry.value)
    ensures entry.None? <==> NoMatch(t, q)
    decreases t
  {
    var child := t;
    while child.Node?
      invariant forall c :: Has(child, c) ==> Has(t, c)
      invariant forall c :: Has(t, c) && q.Matches(c) ==> Has(child, c)
      invariant child == t || child < t
      decreases child
    {
      if q.Matches(child.info) {
        assert Has(child, child.info);
        return Some(child.info);
      }
      var sibling := child.sibling;
      while sibling.Node?
        invariant forall c :: Has(sibling, c) ==> Has(child, c)
        invariant forall c :: Has(child.sibling, c) && q.Matches(c) ==> Has(sibling, c)
        invariant sibling == child.sibling || sibling < child.sibling
        decreases sibling
      {
        if q.Matches(sibling.info) {
          assert Has(sibling, sibling.info);
          return Some(sibling.info);
        }
        if sibling.child.Node? {
          entry := FindConfigurationEntry(sibling.child, q);
          if entry.Some? {
            assert Has(sibling, entry.value);
            return;
          }
        }
        sibling := sibling.sibling;
      }
      child := child.child;
    }
    entry := None;
  }
}
