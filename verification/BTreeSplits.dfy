/** What splitting a node, or the root, does to the tree that the node array stands for. */
module BTreeSplits {
  import opened ByteStrings
  import opened Cells
  import opened Decimal
  import opened BTreeShape
  import opened BTreeLaws
  import opened BTreeNodes

  lemma LeafPosIs(es: seq<Entry>, e: Entry, names: seq<Bytes>, pos: nat)
    requires pos <= |es| && forall j :: 0 <= j < pos ==> ScoreMemberCmp(e, es[j], names) > 0
    requires pos < |es| ==> ScoreMemberCmp(e, es[pos], names) <= 0
    ensures pos == LeafPos(es, e, names)
  {
  }

  lemma ShiftedIs<T>(s: seq<T>, s': seq<T>, n: nat, i: nat, x: T)
    requires i <= n < |s| == |s'|
    requires forall k :: 0 <= k < i ==> s'[k] == s[k]
    requires s'[i] == x && forall k :: i < k <= n ==> s'[k] == s[k - 1]
    ensures s'[..n + 1] == InsertAt(s[..n], i, x)
  {
  }

  lemma FourKids(f: Forest)
    requires Len(f) == MAX_KEYS + 1
    ensures f.Cons? && f.rest.Cons? && f.rest.rest.Cons? && f.rest.rest.rest.Last?
    ensures Seps(f) == [f.sep, f.rest.sep, f.rest.rest.sep]
    ensures KidIds(f) == [f.t.id, f.rest.t.id, f.rest.rest.t.id, f.rest.rest.rest.t.id]
  {
    FullInner(f);
    var f2 := f.rest.rest;
    assert Len(f.rest) == 3 && Len(f2) == 2 && Len(f2.rest) == 1;
    PairViews(f2);
    assert Seps(f.rest) == [f.rest.sep] + Seps(f2);
    assert KidIds(f.rest) == [f.rest.t.id] + KidIds(f2);
  }

  lemma FourSlots(n: Node, f: Forest)
    requires Len(f) == MAX_KEYS + 1 && InnerNode(n, f)
    ensures f.Cons? && f.rest.Cons? && f.rest.rest.Cons? && f.rest.rest.rest.Last?
    ensures n.keys == [f.sep, f.rest.sep, f.rest.rest.sep]
    ensures n.ptrs == [f.t.id, f.rest.t.id, f.rest.rest.t.id, f.rest.rest.rest.t.id]
  {
    FourKids(f);
    assert n.keys[..3] == n.keys && n.ptrs[..4] == n.ptrs;
  }

  lemma PairNode(n: Node, g: Forest)
    requires g.Cons? && g.rest.Last? && !n.isLeaf && n.count == 1
    requires n.keys[0] == g.sep && n.ptrs[0] == g.t.id && n.ptrs[1] == g.rest.t.id
    ensures InnerNode(n, g)
  {
    PairViews(g);
  }

  lemma KidsSurvive(a: seq<Node>, b: seq<Node>, t: Tree, cell: nat)
    requires Rep(a, t) && t.Inner? && |a| == |b|
    requires Once(Ids(t), cell)
    requires forall k :: 0 <= k < |a| && k != t.id && k != cell ==> a[k] == b[k]
    ensures RepF(b, t.kids)
  {
    forall k | k in IdsF(t.kids) ensures k != t.id && k != cell {
      assert Ids(t)[k] <= 1 && k in Ids(t);
    }
    RepSameF(a, b, t.kids);
  }

  lemma UnpackRep(b: seq<Node>, f: Forest)
    requires f.Cons? && f.rest.Cons? && RepF(b, f)
    ensures RepF(b, f.rest.rest) && RepF(b, Cons(f.t, f.sep, Last(f.rest.t)))
  {
    assert RepF(b, f.rest);
  }

  lemma SplitInternalRep(a: seq<Node>, b: seq<Node>, t: Tree, cell: nat)
    requires Rep(a, t) && t.Inner? && Len(t.kids) == MAX_KEYS + 1 && |a| == |b| && cell < |a|
    requires Once(Ids(t), cell)
    requires forall k :: 0 <= k < |a| && k != t.id && k != cell ==> a[k] == b[k]
    requires b[t.id] == a[t.id].(count := 1)
    requires !b[cell].isLeaf && b[cell].count == 1
    requires b[cell].keys[0] == a[t.id].keys[2] && b[cell].ptrs[0] == a[t.id].ptrs[2] && b[cell].ptrs[1] == a[t.id].ptrs[3]
    ensures a[t.id].keys[1] == Split(t, cell).promoted
    ensures Rep(b, Split(t, cell).left) && Rep(b, Split(t, cell).right)
  {
    var f := t.kids;
    FourSlots(a[t.id], f);
    KidsSurvive(a, b, t, cell);
    UnpackRep(b, f);
    PairNode(b[t.id], Cons(f.t, f.sep, Last(f.rest.t)));
    PairNode(b[cell], f.rest.rest);
    var s := Split(t, cell);
    assert s.left == Inner(t.id, Cons(f.t, f.sep, Last(f.rest.t)));
    assert s.right == Inner(cell, f.rest.rest);
  }

  /** Both halves of a split own disjoint cells. */
  lemma SplitCells(t: Tree, cell: nat)
    requires Full(t) && Once(Ids(t), cell)
    ensures var s := Split(t, cell);
            && Once(Ids(s.left), cell + 1) && Once(Ids(s.right), cell + 1)
            && Ids(s.left) !! Ids(s.right)
            && forall k :: k in Ids(s.left) || k in Ids(s.right) ==> k in Ids(t) || k == cell
  {
    var s := Split(t, cell);
    SplitIds(t, cell);
    forall k ensures Ids(s.left)[k] + Ids(s.right)[k] == Ids(t)[k] + multiset{cell}[k] {
      assert (Ids(s.left) + Ids(s.right))[k] == (Ids(t) + multiset{cell})[k];
    }
    assert cell !in Ids(t);
  }

  lemma SplitFacts(t: Tree, cell: nat, n: nat)
    requires Full(t) && Shaped(t) && Once(Ids(t), cell) && MidxBelow(t, n)
    ensures var s := Split(t, cell);
            && Shaped(s.left) && Shaped(s.right) && !Full(s.left) && !Full(s.right)
            && MidxBelow(s.left, n) && MidxBelow(s.right, n)
            && Once(Ids(s.left), cell + 1) && Once(Ids(s.right), cell + 1)
            && forall k :: k in Ids(s.left) || k in Ids(s.right) ==> k in Ids(t) || k == cell
  {
    SplitShaped(t, cell);
    SplitEntries(t, cell);
    SplitCells(t, cell);
  }

  /** Widening the parent does not touch the two halves. */
  lemma HalvesKeep(a: seq<Node>, b: seq<Node>, t: Tree, i: nat, free: nat)
    requires t.Inner? && i < Len(t.kids) && Once(Ids(t), free) && Full(Nth(t.kids, i)) && Shaped(Nth(t.kids, i))
    requires |a| == |b| && free < |a| && forall k :: 0 <= k < |a| && k != t.id ==> a[k] == b[k]
    requires var s := Split(Nth(t.kids, i), free); Rep(a, s.left) && Rep(a, s.right)
    ensures var s := Split(Nth(t.kids, i), free); Rep(b, s.left) && Rep(b, s.right)
  {
    var s := Split(Nth(t.kids, i), free);
    ChildCells(t, i, free);
    SplitIds(Nth(t.kids, i), free);
    forall k | k in Ids(s.left) || k in Ids(s.right) ensures k != t.id {
      assert k in Ids(s.left) + Ids(s.right);
    }
    RepSame(a, b, s.left);
    RepSame(a, b, s.right);
  }

  lemma InsertInnerIs(t: Tree, i: nat, e: Entry, free: nat, names: seq<Bytes>)
    requires t.Inner? && i == Pick(t.kids, e.score)
    ensures var g := InsertChild(Nth(t.kids, i), e, free, names);
            Insert(t, e, free, names) == Grown(Inner(t.id, Graft(t.kids, i, g.it)), g.free)
    ensures !Full(Nth(t.kids, i)) ==>
              var g := Insert(Nth(t.kids, i), e, free, names);
              InsertChild(Nth(t.kids, i), e, free, names) == Grown(Last(g.it), g.free)
  {
  }

  lemma InsertNeedsCell(c: Tree, e: Entry, free: nat, names: seq<Bytes>)
    requires Full(c)
    ensures InsertChild(c, e, free, names).free > free
  {
  }

  lemma InsertChildIs(c: Tree, e: Entry, free: nat, names: seq<Bytes>)
    requires Full(c)
    ensures var s := Split(c, free);
            InsertChild(c, e, free, names).free ==
            Insert(if e.score >= s.promoted then s.right else s.left, e, free + 1, names).free
  {
  }

  lemma RightDone(a: seq<Node>, b: seq<Node>, c: Tree, e: Entry, free: nat, names: seq<Bytes>)
    requires Full(c) && |a| == |b| && Once(Ids(c), free) && Shaped(c)
    requires var s := Split(c, free);
             && e.score >= s.promoted && Rep(a, s.left)
             && Rep(b, Insert(s.right, e, free + 1, names).it)
             && forall k :: 0 <= k < |a| && k <= free && k !in Ids(s.right) ==> b[k] == a[k]
    ensures PairRep(b, InsertChild(c, e, free, names).it)
  {
    SplitCells(c, free);
    RepSame(a, b, Split(c, free).left);
  }

  lemma LeftDone(a: seq<Node>, b: seq<Node>, c: Tree, e: Entry, free: nat, names: seq<Bytes>)
    requires Full(c) && |a| == |b| && Once(Ids(c), free) && Shaped(c)
    requires var s := Split(c, free);
             && e.score < s.promoted && Rep(a, s.right)
             && Rep(b, Insert(s.left, e, free + 1, names).it)
             && forall k :: 0 <= k < |a| && k <= free && k !in Ids(s.left) ==> b[k] == a[k]
    ensures PairRep(b, InsertChild(c, e, free, names).it)
  {
    SplitCells(c, free);
    RepSame(a, b, Split(c, free).right);
  }

  // ----- Splitting the root -----

  /** The root that takes the two halves of t: it gets the first fresh cell, the right half the second. */
  function NewRoot(t: Tree, free: nat): Tree
    requires Full(t)
  {
    var s := Split(t, free + 1);
    Inner(free, Cons(s.left, s.promoted, Last(s.right)))
  }

  lemma NewRootIsNew(t: Tree, free: nat)
    requires Full(t) && Once(Ids(t), free)
    ensures var s := Split(t, free + 1); free !in Ids(s.left) && free !in Ids(s.right)
  {
    SplitCells(t, free + 1);
  }

  lemma PairRepOfRoot(a: seq<Node>, t: Tree, free: nat)
    requires Full(t) && Rep(a, NewRoot(t, free))
    ensures var s := Split(t, free + 1); Rep(a, s.left) && Rep(a, s.right)
    ensures InnerNode(a[free], NewRoot(t, free).kids)
  {
    var f := NewRoot(t, free).kids;
    assert RepF(a, f) && RepF(a, f.rest);
  }

  lemma NewRootRep(a: seq<Node>, b: seq<Node>, t: Tree, free: nat)
    requires Full(t) && Once(Ids(t), free) && |a| == |b| && free < |a|
    requires var s := Split(t, free + 1); Rep(a, s.left) && Rep(a, s.right)
    requires forall k :: 0 <= k < |a| && k != free ==> a[k] == b[k]
    requires !b[free].isLeaf && b[free].count == 1 && b[free].keys[0] == Split(t, free + 1).promoted
    requires b[free].ptrs[0] == t.id && b[free].ptrs[1] == free + 1
    ensures Rep(b, NewRoot(t, free))
  {
    var s := Split(t, free + 1);
    NewRootIsNew(t, free);
    RepSame(a, b, s.left);
    RepSame(a, b, s.right);
    PairNode(b[free], NewRoot(t, free).kids);
  }

  lemma NewRootFacts(t: Tree, free: nat, n: nat)
    requires Full(t) && Shaped(t) && Once(Ids(t), free) && MidxBelow(t, n)
    ensures var r := NewRoot(t, free); Shaped(r) && !Full(r) && MidxBelow(r, n) && Once(Ids(r), free + 2)
  {
    var s, r := Split(t, free + 1), NewRoot(t, free);
    SplitFacts(t, free + 1, n);
    PairContents(r.kids);
    NewRootCells(t, free);
  }

  lemma PairContents(g: Forest)
    requires g.Cons? && g.rest.Last?
    ensures EntriesF(g) == Entries(g.t) + Entries(g.rest.t)
    ensures IdsF(g) == Ids(g.t) + Ids(g.rest.t)
    ensures ShapedF(g) <==> Shaped(g.t) && Shaped(g.rest.t)
    ensures Len(g) == 2
  {
  }

  lemma NewRootCells(t: Tree, free: nat)
    requires Full(t) && Once(Ids(t), free)
    ensures Once(Ids(NewRoot(t, free)), free + 2)
  {
    var s, r := Split(t, free + 1), NewRoot(t, free);
    SplitCells(t, free + 1);
    NewRootIsNew(t, free);
    PairContents(r.kids);
    assert Ids(r) == multiset{free} + (Ids(s.left) + Ids(s.right));
  }

  lemma LeftIsFromRoot(t: Tree, e: Entry, free: nat, names: seq<Bytes>)
    requires Full(t) && Shaped(t) && e.score < Split(t, free + 1).promoted
    ensures Insert(NewRoot(t, free), e, free + 2, names) == InsertRoot(t, e, free, names)
  {
    SplitShaped(t, free + 1);
    var f := NewRoot(t, free).kids;
    assert Pick(f, e.score) == 0 && Nth(f, 0) == Split(t, free + 1).left;
  }

  lemma RightUnderRoot(a: seq<Node>, b: seq<Node>, t: Tree, e: Entry, free: nat, names: seq<Bytes>)
    requires Full(t) && Shaped(t) && |a| == |b| && Once(Ids(t), free) && free < |a|
    requires Rep(a, NewRoot(t, free)) && e.score >= Split(t, free + 1).promoted
    requires Rep(b, Insert(Split(t, free + 1).right, e, free + 2, names).it)
    requires forall k :: 0 <= k < |a| && k < free + 2 && k !in Ids(Split(t, free + 1).right) ==> b[k] == a[k]
    ensures Rep(b, InsertRoot(t, e, free, names).it)
  {
    var s := Split(t, free + 1);
    var g := InsertChild(t, e, free + 1, names).it;
    PairRepOfRoot(a, t, free);
    RightDone(a, b, t, e, free + 1, names);
    NewRootIsNew(t, free);
    SamePairNode(b[free], NewRoot(t, free).kids, g);
    PairRepF(b, g);
    RepInner(b, free, g);
  }

  lemma SamePairNode(n: Node, g: Forest, g': Forest)
    requires g.Cons? && g.rest.Last? && g'.Cons? && g'.rest.Last? && InnerNode(n, g)
    requires g.sep == g'.sep && g.t.id == g'.t.id && g.rest.t.id == g'.rest.t.id
    ensures InnerNode(n, g')
  {
    PairViews(g);
    PairViews(g');
  }

  lemma PairRepF(b: seq<Node>, g: Forest)
    requires PairRep(b, g)
    ensures RepF(b, g)
  {
  }

  // ----- The index and the member table -----
}
