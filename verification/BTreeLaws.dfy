/** What every insertion keeps: shape, balance, order, unshared cells, and the listing. */
module BTreeLaws {
  import opened ByteStrings
  import opened Cells
  import opened Decimal
  import opened BTreeShape

  // ----- The slot order -----

  lemma CmpFlips(a: Entry, b: Entry, names: seq<Bytes>)
    ensures ScoreMemberCmp(a, b, names) < 0 <==> ScoreMemberCmp(b, a, names) > 0
    ensures ScoreMemberCmp(a, b, names) == 0 <==> ScoreMemberCmp(b, a, names) == 0
  {
    BytesCmpAntisymmetric(Name(names, a.midx), Name(names, b.midx));
    BytesCmpAntisymmetric(Name(names, b.midx), Name(names, a.midx));
  }

  lemma CmpChains(a: Entry, b: Entry, c: Entry, names: seq<Bytes>)
    requires ScoreMemberCmp(a, b, names) <= 0 && ScoreMemberCmp(b, c, names) <= 0
    ensures ScoreMemberCmp(a, c, names) <= 0
  {
    if a.score == b.score == c.score {
      BytesCmpTransitive(Name(names, a.midx), Name(names, b.midx), Name(names, c.midx));
    }
  }

  // ----- Splitting -----

  lemma FullInner(f: Forest)
    requires Len(f) > MAX_KEYS
    ensures f.Cons? && f.rest.Cons? && f.rest.rest.Cons?
  {
    assert Len(f) == 1 + Len(f.rest);
    assert Len(f.rest) == 1 + Len(f.rest.rest);
  }

  /** A full leaf leaves two of its three entries behind and promotes the score of the one that goes. */
  lemma LeafHalves(t: Tree, cell: nat)
    requires t.Leaf? && |t.entries| == 3
    ensures var s := Split(t, cell);
            && s.left.Leaf? && s.right.Leaf? && |s.left.entries| == 2 && |s.right.entries| == 1
            && t.entries == s.left.entries + s.right.entries && s.promoted == s.right.entries[0].score
  {
  }

  /** A full internal node leaves two of its four children behind and promotes the middle separator. */
  lemma InnerHalves(t: Tree, cell: nat)
    requires t.Inner? && Len(t.kids) == 4
    ensures var s := Split(t, cell);
            && s.left.Inner? && s.right.Inner? && Len(s.left.kids) == 2 && Len(s.right.kids) == 2
            && Seps(t.kids) == Seps(s.left.kids) + [s.promoted] + Seps(s.right.kids)
            && KidIds(t.kids) == KidIds(s.left.kids) + KidIds(s.right.kids)
  {
    var f := t.kids;
    assert Len(f.rest) == 3 && Len(f.rest.rest) == 2;
  }

  lemma {:induction false} SplitShaped(t: Tree, cell: nat)
    requires Shaped(t) && Full(t)
    ensures var s := Split(t, cell);
            Shaped(s.left) && Shaped(s.right) && !Full(s.left) && !Full(s.right)
  {
    if t.Inner? {
      FullInner(t.kids);
      assert ShapedF(t.kids.rest) && ShapedF(t.kids.rest.rest);
      assert Len(t.kids.rest) == 3 && Len(t.kids.rest.rest) == 2;
    }
  }

  lemma {:induction false} SplitLevel(t: Tree, cell: nat, h: nat)
    requires Full(t) && Level(t, h)
    ensures var s := Split(t, cell); Level(s.left, h) && Level(s.right, h)
  {
    if t.Inner? {
      FullInner(t.kids);
      assert LevelF(t.kids.rest, h - 1) && LevelF(t.kids.rest.rest, h - 1);
    }
  }

  lemma {:induction false} SplitEntries(t: Tree, cell: nat)
    requires Full(t)
    ensures var s := Split(t, cell); Entries(t) == Entries(s.left) + Entries(s.right)
  {
    match t
    case Leaf(_, es) => assert es == es[..2] + es[2..];
    case Inner(_, f) =>
      FullInner(f);
      var tail := f.rest;
      assert EntriesF(f) == Entries(f.t) + (Entries(tail.t) + EntriesF(tail.rest));
      assert EntriesF(Cons(f.t, f.sep, Last(tail.t))) == Entries(f.t) + Entries(tail.t);
  }

  lemma {:induction false} SplitIds(t: Tree, cell: nat)
    requires Full(t)
    ensures var s := Split(t, cell); Ids(s.left) + Ids(s.right) == Ids(t) + multiset{cell}
  {
    if t.Inner? {
      var f := t.kids;
      FullInner(f);
      var tail := f.rest;
      assert IdsF(f) == Ids(f.t) + (Ids(tail.t) + IdsF(tail.rest));
      assert IdsF(Cons(f.t, f.sep, Last(tail.t))) == Ids(f.t) + Ids(tail.t);
    }
  }

  lemma {:induction false} SplitOrdered(t: Tree, cell: nat, lo: int64, hi: int64, names: seq<Bytes>)
    requires Full(t) && Ordered(t, lo, hi, names)
    ensures var s := Split(t, cell);
            && lo <= s.promoted <= hi
            && Ordered(s.left, lo, s.promoted, names)
            && Ordered(s.right, s.promoted, hi, names)
  {
    match t
    case Leaf(_, es) =>
      forall e | e in es[..2] ensures e.score <= es[2].score {
        var i :| 0 <= i < 2 && e == es[i];
        assert ScoreMemberCmp(es[i], es[2], names) <= 0;
      }
      forall e | e in es[2..] ensures es[2].score <= e.score {
        var i :| 2 <= i < |es| && e == es[i];
        assert i == 2 || ScoreMemberCmp(es[2], es[i], names) <= 0;
      }
    case Inner(_, f) =>
      FullInner(f);
      assert OrderedF(f.rest, f.sep, hi, names);
      assert OrderedF(f.rest.rest, f.rest.sep, hi, names);
  }

  // ----- Shape and balance -----

  lemma {:induction false} InsertShaped(t: Tree, e: Entry, free: nat, names: seq<Bytes>)
    requires Shaped(t) && !Full(t)
    ensures Shaped(Insert(t, e, free, names).it)
    decreases Height(t), 0
  {
    if t.Inner? {
      var f, i := t.kids, Pick(t.kids, e.score);
      NthShaped(f, i);
      InsertChildShaped(Nth(f, i), e, free, names);
      var g := InsertChild(Nth(f, i), e, free, names).it;
      GraftShaped(f, i, g);
      GraftKeys(f, i, g);
    }
  }

  lemma {:induction false} InsertChildShaped(c: Tree, e: Entry, free: nat, names: seq<Bytes>)
    requires Shaped(c)
    ensures var g := InsertChild(c, e, free, names).it; ShapedF(g) && 1 <= Len(g) <= 2
    ensures Full(c) ==> Len(InsertChild(c, e, free, names).it) == 2
    decreases Height(c), 1
  {
    if !Full(c) {
      InsertShaped(c, e, free, names);
    } else {
      var s := Split(c, free);
      SplitShaped(c, free);
      if e.score >= s.promoted {
        InsertShaped(s.right, e, free + 1, names);
      } else {
        InsertShaped(s.left, e, free + 1, names);
      }
    }
  }

  lemma {:induction false} InsertLevel(t: Tree, e: Entry, free: nat, names: seq<Bytes>, h: nat)
    requires Level(t, h)
    ensures Level(Insert(t, e, free, names).it, h)
    decreases Height(t), 0
  {
    if t.Inner? {
      var f, i := t.kids, Pick(t.kids, e.score);
      NthLevel(f, i, h - 1);
      InsertChildLevel(Nth(f, i), e, free, names, h - 1);
      GraftLevel(f, i, InsertChild(Nth(f, i), e, free, names).it, h - 1);
    }
  }

  lemma {:induction false} InsertChildLevel(c: Tree, e: Entry, free: nat, names: seq<Bytes>, h: nat)
    requires Level(c, h)
    ensures LevelF(InsertChild(c, e, free, names).it, h)
    decreases Height(c), 1
  {
    if !Full(c) {
      InsertLevel(c, e, free, names, h);
    } else {
      var s := Split(c, free);
      SplitLevel(c, free, h);
      if e.score >= s.promoted {
        InsertLevel(s.right, e, free + 1, names, h);
      } else {
        InsertLevel(s.left, e, free + 1, names, h);
      }
    }
  }

  // ----- Cells -----

  lemma {:induction false} InsertIds(t: Tree, e: Entry, free: nat, names: seq<Bytes>)
    ensures var r := Insert(t, e, free, names); Ids(r.it) == Ids(t) + Range(free, r.free)
    decreases Height(t), 0
  {
    if t.Inner? {
      var f, i := t.kids, Pick(t.kids, e.score);
      var c := Nth(f, i);
      var g := InsertChild(c, e, free, names);
      InsertChildIds(c, e, free, names);
      NthIds(f, i);
      GraftIds(f, i, g.it);
      UnionAssociative(IdsBeside(f, i), Ids(c), Range(free, g.free));
      UnionAssociative(multiset{t.id}, IdsF(f), Range(free, g.free));
    }
  }

  lemma {:induction false} InsertChildIds(c: Tree, e: Entry, free: nat, names: seq<Bytes>)
    ensures var r := InsertChild(c, e, free, names); IdsF(r.it) == Ids(c) + Range(free, r.free)
    decreases Height(c), 1
  {
    if !Full(c) {
      InsertIds(c, e, free, names);
    } else {
      var s := Split(c, free);
      SplitIds(c, free);
      var r := InsertChild(c, e, free, names);
      var more := Range(free + 1, r.free);
      if e.score >= s.promoted {
        InsertIds(s.right, e, free + 1, names);
      } else {
        InsertIds(s.left, e, free + 1, names);
      }
      Redistribute(Ids(s.left), Ids(s.right), Ids(c), multiset{free}, more);
      RangeSplit(free, free + 1, r.free);
      assert Range(free, free + 1) == multiset{free};
    }
  }

  lemma Redistribute(l: multiset<nat>, r: multiset<nat>, c: multiset<nat>, x: multiset<nat>, more: multiset<nat>)
    requires l + r == c + x
    ensures l + (r + more) == c + (x + more)
    ensures l + more + r == c + (x + more)
  {
    UnionAssociative(l, r, more);
    UnionAssociative(c, x, more);
    assert l + more + r == l + r + more;
  }

  // ----- Order -----

  lemma InsertSortedLeaf(es: seq<Entry>, e: Entry, names: seq<Bytes>)
    requires Sorted(es, names)
    ensures Sorted(InsertAt(es, LeafPos(es, e, names), e), names)
  {
    var k := LeafPos(es, e, names);
    forall j | 0 <= j < k ensures ScoreMemberCmp(es[j], e, names) <= 0 {
      CmpFlips(e, es[j], names);
    }
    forall j | k <= j < |es| ensures ScoreMemberCmp(e, es[j], names) <= 0 {
      if j > k { CmpChains(e, es[k], es[j], names); }
    }
  }

  lemma {:induction false} InsertOrdered(t: Tree, e: Entry, free: nat, names: seq<Bytes>, lo: int64, hi: int64)
    requires Ordered(t, lo, hi, names) && lo <= e.score <= hi
    ensures Ordered(Insert(t, e, free, names).it, lo, hi, names)
    decreases Height(t), 0
  {
    match t
    case Leaf(_, es) => InsertSortedLeaf(es, e, names);
    case Inner(_, f) =>
      var i := Pick(f, e.score);
      NthOrdered(f, i, lo, hi, names);
      InsertChildOrdered(Nth(f, i), e, free, names, LowOf(f, i, lo), HighOf(f, i, hi));
      GraftOrdered(f, i, InsertChild(Nth(f, i), e, free, names).it, lo, hi, names);
  }

  lemma {:induction false} InsertChildOrdered(c: Tree, e: Entry, free: nat, names: seq<Bytes>, lo: int64, hi: int64)
    requires Ordered(c, lo, hi, names) && lo <= e.score <= hi
    ensures OrderedF(InsertChild(c, e, free, names).it, lo, hi, names)
    decreases Height(c), 1
  {
    if !Full(c) {
      InsertOrdered(c, e, free, names, lo, hi);
    } else {
      var s := Split(c, free);
      SplitOrdered(c, free, lo, hi, names);
      if e.score >= s.promoted {
        InsertOrdered(s.right, e, free + 1, names, s.promoted, hi);
      } else {
        InsertOrdered(s.left, e, free + 1, names, lo, s.promoted);
      }
    }
  }

  // ----- The listing -----

  /** Where in the listing an entry will land; computed from the tree before the insertion. */
  function LandAt(t: Tree, e: Entry, names: seq<Bytes>): (k: nat)
    decreases Height(t), 0
  {
    match t
    case Leaf(_, es) => LeafPos(es, e, names)
    case Inner(_, f) =>
      var i := Pick(f, e.score);
      |EntriesBefore(f, i)| + LandInChild(Nth(f, i), e, names)
  }

  function LandInChild(c: Tree, e: Entry, names: seq<Bytes>): (k: nat)
    decreases Height(c), 1
  {
    if !Full(c) then LandAt(c, e, names)
    else
      var s := Split(c, 0);
      if e.score >= s.promoted then |Entries(s.left)| + LandAt(s.right, e, names)
      else LandAt(s.left, e, names)
  }

  lemma InsertAtMiddle<T>(pre: seq<T>, s: seq<T>, post: seq<T>, k: nat, x: T)
    requires k <= |s|
    ensures pre + InsertAt(s, k, x) + post == InsertAt(pre + s + post, |pre| + k, x)
  {
  }

  lemma InsertAtRight<T>(a: seq<T>, b: seq<T>, k: nat, x: T)
    requires k <= |b|
    ensures a + InsertAt(b, k, x) == InsertAt(a + b, |a| + k, x)
  {
  }

  lemma InsertAtLeft<T>(a: seq<T>, b: seq<T>, k: nat, x: T)
    requires k <= |a|
    ensures InsertAt(a, k, x) + b == InsertAt(a + b, k, x)
  {
  }

  /** Insertion puts the entry at its landing position and leaves the rest of the listing as it was. */
  lemma {:induction false} InsertListing(t: Tree, e: Entry, free: nat, names: seq<Bytes>)
    ensures LandAt(t, e, names) <= |Entries(t)|
    ensures Entries(Insert(t, e, free, names).it) == InsertAt(Entries(t), LandAt(t, e, names), e)
    decreases Height(t), 0
  {
    if t.Inner? {
      var f, i := t.kids, Pick(t.kids, e.score);
      var c := Nth(f, i);
      InsertChildListing(c, e, free, names);
      GraftEntries(f, i, InsertChild(c, e, free, names).it);
      InsertAtMiddle(EntriesBefore(f, i), Entries(c), EntriesAfter(f, i), LandInChild(c, e, names), e);
    }
  }

  lemma {:induction false} InsertChildListing(c: Tree, e: Entry, free: nat, names: seq<Bytes>)
    ensures LandInChild(c, e, names) <= |Entries(c)|
    ensures EntriesF(InsertChild(c, e, free, names).it) == InsertAt(Entries(c), LandInChild(c, e, names), e)
    decreases Height(c), 1
  {
    hide Insert, LandAt, Split, Entries, Full;
    if !Full(c) {
      InsertListing(c, e, free, names);
    } else {
      var s := Split(c, free);
      SplitEntries(c, free);
      LandIgnoresCells(c, e, free, names);
      if e.score >= s.promoted {
        InsertListing(s.right, e, free + 1, names);
        InsertAtRight(Entries(s.left), Entries(s.right), LandAt(s.right, e, names), e);
        PairListing(s.left, s.promoted, Insert(s.right, e, free + 1, names).it);
      } else {
        InsertListing(s.left, e, free + 1, names);
        InsertAtLeft(Entries(s.left), Entries(s.right), LandAt(s.left, e, names), e);
        PairListing(Insert(s.left, e, free + 1, names).it, s.promoted, s.right);
      }
    }
  }

  lemma PairListing(l: Tree, sep: int64, r: Tree)
    ensures EntriesF(Cons(l, sep, Last(r))) == Entries(l) + Entries(r)
  {
  }

  lemma LandIgnoresCells(c: Tree, e: Entry, cell: nat, names: seq<Bytes>)
    requires Full(c)
    ensures var s := Split(c, cell); var s0 := Split(c, 0);
            && LandAt(s.right, e, names) == LandAt(s0.right, e, names)
            && s.left == s0.left && s.promoted == s0.promoted
  {
  }

  /** The whole listing is non-decreasing in score. */
  lemma {:induction false} ListingAscends(t: Tree, lo: int64, hi: int64, names: seq<Bytes>)
    requires Ordered(t, lo, hi, names)
    ensures forall e :: e in Entries(t) ==> lo <= e.score <= hi
    ensures forall i, j :: 0 <= i < j < |Entries(t)| ==> Entries(t)[i].score <= Entries(t)[j].score
  {
    match t
    case Leaf(_, es) =>
      forall i, j | 0 <= i < j < |es| ensures es[i].score <= es[j].score {
        assert ScoreMemberCmp(es[i], es[j], names) <= 0;
      }
    case Inner(_, f) => ListingAscendsF(f, lo, hi, names);
  }

  lemma {:induction false} ListingAscendsF(f: Forest, lo: int64, hi: int64, names: seq<Bytes>)
    requires OrderedF(f, lo, hi, names)
    ensures forall e :: e in EntriesF(f) ==> lo <= e.score <= hi
    ensures forall i, j :: 0 <= i < j < |EntriesF(f)| ==> EntriesF(f)[i].score <= EntriesF(f)[j].score
  {
    match f
    case Last(t) => ListingAscends(t, lo, hi, names);
    case Cons(t, sep, rest) =>
      ListingAscends(t, lo, sep, names);
      ListingAscendsF(rest, sep, hi, names);
      var a, b := Entries(t), EntriesF(rest);
      var all := EntriesF(f);
      forall i, j | 0 <= i < j < |all| ensures all[i].score <= all[j].score {
        if i < |a| <= j { assert a[i] in a && b[j - |a|] in b; }
      }
  }

  // ----- How many cells a tree needs -----

  lemma {:induction false} CellsBounded(t: Tree)
    requires Shaped(t)
    ensures 1 <= |Ids(t)| <= 2 * |Entries(t)| - 1
  {
    if t.Inner? { CellsBoundedF(t.kids); }
  }

  lemma {:induction false} CellsBoundedF(f: Forest)
    requires ShapedF(f)
    ensures 1 <= |IdsF(f)| <= 2 * |EntriesF(f)| - Len(f)
  {
    CellsBounded(f.t);
    if f.Cons? { CellsBoundedF(f.rest); }
  }

  // ----- Insertion at the root -----

  /** Everything the tree must satisfy, with n cells used exactly once each. */
  ghost predicate Good(t: Tree, n: nat, names: seq<Bytes>)
  {
    && Shaped(t)
    && Level(t, Height(t))
    && Ordered(t, INT64_MIN, INT64_MAX, names)
    && Ids(t) == Range(0, n)
  }

  lemma {:induction false} LevelIsHeight(t: Tree, h: nat)
    requires Level(t, h)
    ensures h == Height(t)
  {
    if t.Inner? { LevelIsHeightF(t.kids, h - 1); }
  }

  lemma {:induction false} LevelIsHeightF(f: Forest, h: nat)
    requires LevelF(f, h)
    ensures h == HeightF(f)
  {
    LevelIsHeight(f.t, h);
    if f.Cons? { LevelIsHeightF(f.rest, h); }
  }

  lemma InsertPartFilledGood(t: Tree, e: Entry, n: nat, names: seq<Bytes>)
    requires Good(t, n, names) && !Full(t)
    ensures var r := Insert(t, e, n, names); Good(r.it, r.free, names)
  {
    var r := Insert(t, e, n, names);
    InsertShaped(t, e, n, names);
    InsertLevel(t, e, n, names, Height(t));
    LevelIsHeight(r.it, Height(t));
    InsertOrdered(t, e, n, names, INT64_MIN, INT64_MAX);
    InsertIds(t, e, n, names);
    RangeSplit(0, n, r.free);
  }

  lemma NewRootIds(g: Forest, n: nat, free: nat)
    requires n < free && IdsF(g) == Range(0, n) + Range(n + 1, free)
    ensures Ids(Inner(n, g)) == Range(0, free)
  {
    RangeSplit(0, n, free);
    RangeSplit(n, n + 1, free);
    assert Range(n, n + 1) == multiset{n};
    UnionRotates(multiset{n}, Range(0, n), Range(n + 1, free));
  }

  lemma InsertFullGood(t: Tree, e: Entry, n: nat, names: seq<Bytes>)
    requires Good(t, n, names) && Full(t)
    ensures var g := InsertChild(t, e, n + 1, names); Good(Inner(n, g.it), g.free, names)
  {
    hide Shaped, ShapedF, Level, LevelF, Ordered, OrderedF, Ids, IdsF, InsertChild;
    var g := InsertChild(t, e, n + 1, names);
    InsertChildShaped(t, e, n + 1, names);
    InsertChildLevel(t, e, n + 1, names, Height(t));
    InsertChildOrdered(t, e, n + 1, names, INT64_MIN, INT64_MAX);
    InsertChildIds(t, e, n + 1, names);
    NewRootGood(g.it, n, g.free, Height(t), names);
  }

  /** Two good subtrees under a new root. */
  lemma NewRootGood(g: Forest, n: nat, free: nat, h: nat, names: seq<Bytes>)
    requires n < free && IdsF(g) == Range(0, n) + Range(n + 1, free)
    requires Len(g) == 2 && ShapedF(g) && LevelF(g, h) && OrderedF(g, INT64_MIN, INT64_MAX, names)
    ensures Good(Inner(n, g), free, names)
  {
    hide ShapedF, LevelF, OrderedF, IdsF;
    LevelIsHeight(Inner(n, g), h + 1);
    NewRootIds(g, n, free);
  }

  /** Insertion at the root keeps every tree invariant, in full nodes and in part-filled ones. */
  lemma InsertRootGood(t: Tree, e: Entry, n: nat, names: seq<Bytes>)
    requires Good(t, n, names)
    ensures var r := InsertRoot(t, e, n, names); Good(r.it, r.free, names)
  {
    if !Full(t) { InsertPartFilledGood(t, e, n, names); } else { InsertFullGood(t, e, n, names); }
  }

  /** The listing position an entry takes when it is inserted at the root. */
  function LandAtRoot(t: Tree, e: Entry, names: seq<Bytes>): nat
  {
    LandInChild(t, e, names)
  }

  lemma InsertRootListing(t: Tree, e: Entry, n: nat, names: seq<Bytes>)
    ensures LandAtRoot(t, e, names) <= |Entries(t)|
    ensures Entries(InsertRoot(t, e, n, names).it) == InsertAt(Entries(t), LandAtRoot(t, e, names), e)
  {
    if !Full(t) { InsertListing(t, e, n, names); } else { InsertChildListing(t, e, n + 1, names); }
  }
}
