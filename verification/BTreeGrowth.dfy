/** Trees as the insertions that build them: what a run of insertions into an empty set leaves. */
module BTreeGrowth {
  import opened ByteStrings
  import opened Cells
  import opened Decimal
  import opened BTreeShape
  import opened BTreeLaws

  /** The tree that adding the entries in turn builds. */
  function Grow(es: seq<Entry>, names: seq<Bytes>): Grown<Tree>
    requires es != []
  {
    var k := |es| - 1;
    if k == 0 then Grown(Leaf(0, es), 1)
    else
      var g := Grow(es[..k], names);
      InsertRoot(g.it, es[k], g.free, names)
  }

  lemma GrowStep(es: seq<Entry>, e: Entry, names: seq<Bytes>)
    requires es != []
    ensures Grow(es + [e], names) == InsertRoot(Grow(es, names).it, e, Grow(es, names).free, names)
  {
    assert (es + [e])[..|es|] == es;
  }

  lemma FirstLeafGood(e: Entry, names: seq<Bytes>)
    ensures Good(Leaf(0, [e]), 1, names)
  {
    assert Range(0, 1) == multiset{0};
  }

  lemma InsertAtCounts<T>(s: seq<T>, k: nat, x: T)
    requires k <= |s|
    ensures multiset(InsertAt(s, k, x)) == multiset(s) + multiset{x}
  {
    assert s == s[..k] + s[k..];
  }

  lemma {:induction false} GrowGood(es: seq<Entry>, names: seq<Bytes>)
    requires es != []
    ensures Good(Grow(es, names).it, Grow(es, names).free, names)
  {
    hide Good, InsertRoot;
    var k := |es| - 1;
    if k == 0 {
      assert es == [es[0]];
      FirstLeafGood(es[0], names);
    } else {
      var g := Grow(es[..k], names);
      GrowGood(es[..k], names);
      InsertRootGood(g.it, es[k], g.free, names);
    }
  }

  lemma {:induction false} GrowEntries(es: seq<Entry>, names: seq<Bytes>)
    requires es != []
    ensures multiset(Entries(Grow(es, names).it)) == multiset(es)
  {
    hide InsertRoot, InsertAt, LandAtRoot;
    var k := |es| - 1;
    assert es == es[..k] + [es[k]];
    if k > 0 {
      var g := Grow(es[..k], names);
      GrowEntries(es[..k], names);
      InsertRootListing(g.it, es[k], g.free, names);
      InsertAtCounts(Entries(g.it), LandAtRoot(g.it, es[k], names), es[k]);
    }
  }

  // ----- More names do not matter -----

  /** Every entry of l is named by names. */
  ghost predicate Named(l: seq<Entry>, names: seq<Bytes>)
  {
    forall e :: e in l ==> e.midx < |names|
  }

  lemma {:induction false} LeafPosSame(es: seq<Entry>, e: Entry, names: seq<Bytes>, names': seq<Bytes>)
    requires names <= names' && Named(es, names) && e.midx < |names|
    ensures LeafPos(es, e, names) == LeafPos(es, e, names')
  {
    if es != [] {
      assert es[0] in es;
      LeafPosSame(es[1..], e, names, names');
    }
  }

  lemma {:induction false} InsertSame(t: Tree, e: Entry, free: nat, names: seq<Bytes>, names': seq<Bytes>)
    requires names <= names' && Named(Entries(t), names) && e.midx < |names|
    ensures Insert(t, e, free, names) == Insert(t, e, free, names')
    decreases Height(t), 0
  {
    match t
    case Leaf(_, es) => LeafPosSame(es, e, names, names');
    case Inner(_, f) =>
      var i := Pick(f, e.score);
      GraftEntries(f, i, Last(Nth(f, i)));
      InsertChildSame(Nth(f, i), e, free, names, names');
  }

  lemma {:induction false} InsertChildSame(c: Tree, e: Entry, free: nat, names: seq<Bytes>, names': seq<Bytes>)
    requires names <= names' && Named(Entries(c), names) && e.midx < |names|
    ensures InsertChild(c, e, free, names) == InsertChild(c, e, free, names')
    decreases Height(c), 1
  {
    hide Insert;
    if !Full(c) {
      InsertSame(c, e, free, names, names');
    } else {
      var s := Split(c, free);
      SplitEntries(c, free);
      InsertSame(s.left, e, free + 1, names, names');
      InsertSame(s.right, e, free + 1, names, names');
    }
  }

  lemma {:induction false} GrowSame(es: seq<Entry>, names: seq<Bytes>, names': seq<Bytes>)
    requires es != [] && names <= names' && Named(es, names)
    ensures Grow(es, names) == Grow(es, names')
  {
    hide Insert, InsertChild;
    var k := |es| - 1;
    if k > 0 {
      var g := Grow(es[..k], names);
      GrowSame(es[..k], names, names');
      GrowNamed(es[..k], names);
      InsertSame(g.it, es[k], g.free, names, names');
      InsertChildSame(g.it, es[k], g.free + 1, names, names');
    }
  }

  lemma GrowNamed(es: seq<Entry>, names: seq<Bytes>)
    requires es != [] && Named(es, names)
    ensures Named(Entries(Grow(es, names).it), names)
  {
    hide Grow;
    GrowEntries(es, names);
    forall e | e in Entries(Grow(es, names).it) ensures e.midx < |names| {
      assert e in multiset(Entries(Grow(es, names).it));
      assert e in es;
    }
  }
}
