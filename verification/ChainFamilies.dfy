/** All the chains of a volume together: growing, cutting and failing to grow one of
    them, any number of times, keeps them proper and apart and loses no cluster. */
module ChainFamilies {
  import opened FatFormat
  import opened FatChains
  import opened FatAllocation
  import opened FileAllocation

  // Every chain is proper (hence without a cycle), and no two share a cluster.
  ghost predicate Family(g: Geometry, fat: seq<Word>, cs: seq<seq<nat>>) {
    && Linked(g, fat)
    && (forall i :: 0 <= i < |cs| && cs[i] != [] ==> Chain(g, fat, cs[i]))
    && (forall i, j :: 0 <= i < |cs| && 0 <= j < |cs| && i != j ==> Disjoint(cs[i], cs[j]))
  }

  ghost function Used(cs: seq<seq<nat>>): set<nat> {
    set i, k | 0 <= i < |cs| && 0 <= k < |cs[i]| :: cs[i][k]
  }

  // Every cluster that is free or in use by one of the chains.
  ghost function Known(g: Geometry, fat: seq<Word>, cs: seq<seq<nat>>): set<nat>
    requires |fat| == g.clusters + 2
  {
    FreeSet(g, fat) + Used(cs)
  }

  /** One change to the chains: chain i grows, or is cut down, or an allocation that
      fails leaves a chain of its own behind. */
  ghost predicate Step(g: Geometry, fat: seq<Word>, cs: seq<seq<nat>>, fat': seq<Word>, cs': seq<seq<nat>>) {
    || (exists i, taken: seq<nat> :: Grows(g, fat, cs, fat', cs', i, taken))
    || (exists i, keep :: Cuts(g, fat, cs, fat', cs', i, keep))
    || (exists taken: seq<nat> :: Leaks(g, fat, cs, fat', cs', taken))
  }

  ghost predicate Grows(g: Geometry, fat: seq<Word>, cs: seq<seq<nat>>, fat': seq<Word>, cs': seq<seq<nat>>, i: int,
          taken: seq<nat>)
  {
    0 <= i < |cs| && Grown(g, fat, fat', cs[i], taken) && cs' == cs[i := cs[i] + taken]
  }

  ghost predicate Cuts(g: Geometry, fat: seq<Word>, cs: seq<seq<nat>>, fat': seq<Word>, cs': seq<seq<nat>>, i: int,
          keep: int)
  {
    0 <= i < |cs| && 0 <= keep <= |cs[i]| && CutAt(g, fat, fat', cs[i], keep) && cs' == cs[i := cs[i][..keep]]
  }

  ghost predicate Leaks(g: Geometry, fat: seq<Word>, cs: seq<seq<nat>>, fat': seq<Word>, cs': seq<seq<nat>>,
          taken: seq<nat>)
  {
    Allocated(g, fat, fat', taken) && cs' == cs + [taken]
  }

  lemma UsedHas(cs: seq<seq<nat>>, i: nat, k: nat)
    requires i < |cs| && k < |cs[i]|
    ensures cs[i][k] in Used(cs)
  {
  }

  // A chain that does not meet what changed.
  lemma OtherStays(g: Geometry, fat: seq<Word>, fat': seq<Word>, c: seq<nat>, taken: seq<nat>, e: seq<nat>)
    requires g.Valid() && |fat| == |fat'| == g.clusters + 2 && Chain(g, fat, e) && Disjoint(c, e)
    requires forall x :: x in taken ==> g.InRange(x) && IsFree(g, fat, x)
    requires forall x :: 0 <= x < |fat| && x !in taken && x !in c ==> fat'[x] == fat[x]
    ensures Chain(g, fat', e) && Disjoint(c + taken, e) && Disjoint(e, c + taken)
  {
    ChainNotFree(g, fat, e);
    forall k | 0 <= k < |e|
      ensures e[k] !in taken && e[k] !in c
    {
    }
    ChainFrame(g, fat, fat', e);
  }

  lemma GrowthStays(g: Geometry, fat: seq<Word>, cs: seq<seq<nat>>, fat': seq<Word>, i: nat, taken: seq<nat>)
    requires g.Valid() && Family(g, fat, cs) && i < |cs| && Grown(g, fat, fat', cs[i], taken)
    ensures var cs' := cs[i := cs[i] + taken]; Family(g, fat', cs')
  {
    hide Geometry.Valid, Chain, Linked, Disjoint;
    GrownLinked(g, fat, fat', cs[i], taken);
    assert |fat| == |fat'| == g.clusters + 2 by { LinkedSize(g, fat); }
    var cs' := cs[i := cs[i] + taken];
    forall j | 0 <= j < |cs| && j != i && cs[j] != []
      ensures Chain(g, fat', cs[j]) && Disjoint(cs'[i], cs[j]) && Disjoint(cs[j], cs'[i])
    {
      OtherStays(g, fat, fat', cs[i], taken, cs[j]);
    }
    forall j, k | 0 <= j < |cs| && 0 <= k < |cs| && j != k
      ensures Disjoint(cs'[j], cs'[k])
    {
      if cs[j] == [] && j != i {
        NoneMeets(cs'[j], cs'[k]);
      } else if cs[k] == [] && k != i {
        NoneMeets(cs'[k], cs'[j]);
      }
    }
  }

  lemma NoneMeets(c: seq<nat>, e: seq<nat>)
    requires c == []
    ensures Disjoint(c, e) && Disjoint(e, c)
  {
  }

  lemma LinkedSize(g: Geometry, fat: seq<Word>)
    requires Linked(g, fat)
    ensures |fat| == g.clusters + 2
  {
  }

  lemma CutStays(g: Geometry, fat: seq<Word>, cs: seq<seq<nat>>, fat': seq<Word>, i: nat, keep: nat)
    requires g.Valid() && Family(g, fat, cs) && i < |cs| && keep <= |cs[i]| && CutAt(g, fat, fat', cs[i], keep)
    ensures Family(g, fat', cs[i := cs[i][..keep]])
  {
    hide Geometry.Valid, Chain, Linked, Disjoint, CutAt;
    var cs' := cs[i := cs[i][..keep]];
    LinkedSize(g, fat);
    CutIsLocal(g, fat, fat', cs[i], keep);
    if cs[i] != [] {
      CutChain(g, fat, fat', cs[i], keep);
    } else {
      assert fat' == fat;
    }
    forall j | 0 <= j < |cs| && j != i && cs[j] != []
      ensures Chain(g, fat', cs[j]) && Disjoint(cs'[i], cs[j]) && Disjoint(cs[j], cs'[i])
    {
      OtherStays(g, fat, fat', cs[i], [], cs[j]);
      PartApart(cs[i], cs[j], keep);
    }
    forall j, k | 0 <= j < |cs| && 0 <= k < |cs| && j != k
      ensures Disjoint(cs'[j], cs'[k])
    {
      if cs[j] == [] && j != i {
        NoneMeets(cs'[j], cs'[k]);
      } else if cs[k] == [] && k != i {
        NoneMeets(cs'[k], cs'[j]);
      }
    }
  }

  lemma CutIsLocal(g: Geometry, fat: seq<Word>, fat': seq<Word>, c: seq<nat>, keep: nat)
    requires keep <= |c| && CutAt(g, fat, fat', c, keep)
    ensures |fat'| == |fat| == g.clusters + 2 && forall x :: 0 <= x < |fat| && x !in c ==> fat'[x] == fat[x]
    ensures c == [] ==> fat' == fat
  {
    assert forall x :: x in c[keep..] ==> x in c;
  }

  lemma PartApart(c: seq<nat>, e: seq<nat>, keep: nat)
    requires Disjoint(c, e) && keep <= |c|
    ensures Disjoint(c[..keep], e) && Disjoint(e, c[..keep])
  {
  }

  lemma LeakStays(g: Geometry, fat: seq<Word>, cs: seq<seq<nat>>, fat': seq<Word>, taken: seq<nat>)
    requires g.Valid() && Family(g, fat, cs) && Allocated(g, fat, fat', taken)
    ensures Family(g, fat', cs + [taken])
  {
    hide Geometry.Valid, Chain, Linked, Disjoint;
    AllocatedLinked(g, fat, fat', taken);
    var cs' := cs + [taken];
    forall j | 0 <= j < |cs|
      ensures cs[j] != [] ==> Chain(g, fat', cs[j])
      ensures Disjoint(taken, cs[j]) && Disjoint(cs[j], taken)
    {
      if cs[j] == [] {
        NoneMeets(cs[j], taken);
      } else {
        NoneMeets([], cs[j]);
        OtherStays(g, fat, fat', [], taken, cs[j]);
        assert [] + taken == taken;
      }
    }
  }

  // No chain holds a free cluster.
  lemma UsedNotFree(g: Geometry, fat: seq<Word>, cs: seq<seq<nat>>)
    requires g.Valid() && Family(g, fat, cs)
    ensures |fat| == g.clusters + 2 && FreeSet(g, fat) * Used(cs) == {}
    ensures |Known(g, fat, cs)| == |FreeSet(g, fat)| + |Used(cs)|
  {
    hide Geometry.Valid, Chain;
    forall i | 0 <= i < |cs|
      ensures forall k :: 0 <= k < |cs[i]| ==> cs[i][k] !in FreeSet(g, fat)
    {
      if cs[i] != [] {
        ChainNotFree(g, fat, cs[i]);
        EndOfChain(g, fat, cs[i]);
      }
    }
    assert |FreeSet(g, fat) * Used(cs)| == 0;
  }

  lemma UsedReplaced(cs: seq<seq<nat>>, i: nat, c: seq<nat>)
    requires i < |cs|
    ensures Used(cs[i := c]) <= Used(cs) + ToSet(c)
    ensures Used(cs) <= Used(cs[i := c]) + ToSet(cs[i])
    ensures ToSet(c) <= Used(cs[i := c]) && ToSet(cs[i]) <= Used(cs)
  {
    var cs' := cs[i := c];
    forall x | x in Used(cs')
      ensures x in Used(cs) + ToSet(c)
    {
      var j, k :| 0 <= j < |cs'| && 0 <= k < |cs'[j]| && cs'[j][k] == x;
      if j != i { UsedHas(cs, j, k); }
    }
    forall x | x in Used(cs)
      ensures x in Used(cs') + ToSet(cs[i])
    {
      var j, k :| 0 <= j < |cs| && 0 <= k < |cs[j]| && cs[j][k] == x;
      if j != i { UsedHas(cs', j, k); }
    }
    forall x | x in c
      ensures x in Used(cs')
    {
      var k :| 0 <= k < |c| && c[k] == x;
      UsedHas(cs', i, k);
    }
    forall x | x in cs[i]
      ensures x in Used(cs)
    {
      var k :| 0 <= k < |cs[i]| && cs[i][k] == x;
      UsedHas(cs, i, k);
    }
  }

  lemma GrowthKnown(g: Geometry, fat: seq<Word>, cs: seq<seq<nat>>, fat': seq<Word>, i: nat, taken: seq<nat>)
    requires g.Valid() && Family(g, fat, cs) && i < |cs| && Grown(g, fat, fat', cs[i], taken)
    ensures Known(g, fat', cs[i := cs[i] + taken]) == Known(g, fat, cs)
  {
    hide Geometry.Valid, Chain, Used, FreeSet, Linked;
    LinkedSize(g, fat);
    FreeAfterTaking(g, fat, fat', cs[i], taken);
    UsedReplaced(cs, i, cs[i] + taken);
    assert ToSet(cs[i] + taken) == ToSet(cs[i]) + ToSet(taken);
  }

  lemma CutKnown(g: Geometry, fat: seq<Word>, cs: seq<seq<nat>>, fat': seq<Word>, i: nat, keep: nat)
    requires g.Valid() && Family(g, fat, cs) && i < |cs| && keep <= |cs[i]| && CutAt(g, fat, fat', cs[i], keep)
    ensures |fat'| == g.clusters + 2 && Known(g, fat', cs[i := cs[i][..keep]]) == Known(g, fat, cs)
  {
    hide Geometry.Valid, Chain, Used, FreeSet, Linked, CutAt;
    LinkedSize(g, fat);
    CutIsLocal(g, fat, fat', cs[i], keep);
    UsedReplaced(cs, i, cs[i][..keep]);
    if cs[i] != [] {
      CutChain(g, fat, fat', cs[i], keep);
      assert cs[i] == cs[i][..keep] + cs[i][keep..];
      assert ToSet(cs[i]) == ToSet(cs[i][..keep]) + ToSet(cs[i][keep..]);
    } else {
      assert cs[i][..keep] == cs[i];
    }
  }

  lemma LeakKnown(g: Geometry, fat: seq<Word>, cs: seq<seq<nat>>, fat': seq<Word>, taken: seq<nat>)
    requires g.Valid() && Family(g, fat, cs) && Allocated(g, fat, fat', taken)
    ensures Known(g, fat', cs + [taken]) == Known(g, fat, cs)
  {
    hide Geometry.Valid, Chain, Used, FreeSet, Linked;
    LinkedSize(g, fat);
    assert [] + taken == taken;
    FreeAfterTaking(g, fat, fat', [], taken);
    UsedAppended(cs, taken);
  }

  lemma UsedAppended(cs: seq<seq<nat>>, c: seq<nat>)
    ensures Used(cs + [c]) == Used(cs) + ToSet(c)
  {
    var cs' := cs + [c];
    forall x | x in Used(cs)
      ensures x in Used(cs')
    {
      var j, k :| 0 <= j < |cs| && 0 <= k < |cs[j]| && cs[j][k] == x;
      UsedHas(cs', j, k);
    }
    forall x | x in c
      ensures x in Used(cs')
    {
      var k :| 0 <= k < |c| && c[k] == x;
      UsedHas(cs', |cs|, k);
    }
  }

  lemma StepKeeps(g: Geometry, fat: seq<Word>, cs: seq<seq<nat>>, fat': seq<Word>, cs': seq<seq<nat>>)
    requires g.Valid() && Family(g, fat, cs) && Step(g, fat, cs, fat', cs')
    ensures Family(g, fat', cs') && |fat| == |fat'| == g.clusters + 2 && Known(g, fat', cs') == Known(g, fat, cs)
  {
    hide Geometry.Valid, Family, Used, FreeSet, Grown, CutAt, Allocated, Known;
    if i, taken: seq<nat> :| Grows(g, fat, cs, fat', cs', i, taken) {
      GrowthStays(g, fat, cs, fat', i, taken);
      GrowthKnown(g, fat, cs, fat', i, taken);
    } else if i, keep :| Cuts(g, fat, cs, fat', cs', i, keep) {
      CutStays(g, fat, cs, fat', i, keep);
      CutKnown(g, fat, cs, fat', i, keep);
    } else {
      var taken: seq<nat> :| Leaks(g, fat, cs, fat', cs', taken);
      LeakStays(g, fat, cs, fat', taken);
      LeakKnown(g, fat, cs, fat', taken);
    }
    FamilySize(g, fat, cs);
    FamilySize(g, fat', cs');
  }

  lemma FamilySize(g: Geometry, fat: seq<Word>, cs: seq<seq<nat>>)
    requires Family(g, fat, cs)
    ensures |fat| == g.clusters + 2
  {
  }

  datatype Moment = Moment(fat: seq<Word>, chains: seq<seq<nat>>)

  // A run: each moment follows from the one before by one change.
  ghost predicate Run(g: Geometry, run: seq<Moment>) {
    forall n :: 0 <= n < |run| - 1 ==> Follows(g, run, n)
  }

  ghost predicate Follows(g: Geometry, run: seq<Moment>, n: int) {
    0 <= n < |run| - 1 && Step(g, run[n].fat, run[n].chains, run[n + 1].fat, run[n + 1].chains)
  }

  /** However chains grow, are cut and fail to grow, they stay proper and apart, and
      the clusters free and in use, never both, stay the same clusters in all. */
  lemma {:induction false} RunKeeps(g: Geometry, run: seq<Moment>)
    requires g.Valid() && |run| > 0 && Run(g, run) && Family(g, run[0].fat, run[0].chains)
    ensures var a, b := run[0], run[|run| - 1];
            && |a.fat| == |b.fat| == g.clusters + 2 && Family(g, b.fat, b.chains)
            && Known(g, b.fat, b.chains) == Known(g, a.fat, a.chains)
            && |FreeSet(g, b.fat)| + |Used(b.chains)| == |FreeSet(g, a.fat)| + |Used(a.chains)|
    decreases |run|
  {
    hide Geometry.Valid, Family, Used, FreeSet, Step;
    var a, b := run[0], run[|run| - 1];
    FamilySize(g, a.fat, a.chains);
    if |run| > 1 {
      var before := run[..|run| - 1];
      forall n | 0 <= n < |before| - 1
        ensures Follows(g, before, n)
      {
        assert Follows(g, run, n);
      }
      RunKeeps(g, before);
      assert Follows(g, run, |run| - 2);
      var c := before[|before| - 1];
      StepKeeps(g, c.fat, c.chains, b.fat, b.chains);
    }
    UsedNotFree(g, a.fat, a.chains);
    UsedNotFree(g, b.fat, b.chains);
  }
}
