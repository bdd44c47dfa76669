/**
Members with equal scores. Inside a leaf they are in byte order, but an insertion chooses its leaf by score
alone, so the whole listing is in (score, member) order only as long as equal scores meet in one leaf.
*/
module BTreeTies {
  import opened ByteStrings
  import opened Cells
  import opened Decimal
  import opened BTreeShape
  import opened BTreeLaws
  import opened BTreeTable
  import opened BTreeGrowth

  // ----- Where the descent ends -----

  /**
  The leaf that an insertion reaches: its entries, what is listed before and after them, whether the descent
  entered the right half of a split whose promoted score is the new one, and whether it passed below a
  separator equal to the new score.
  */
  datatype Landing = Landing(pre: seq<Entry>, es: seq<Entry>, post: seq<Entry>, afterEqual: bool, underEqual: bool)

  function Reach(t: Tree, score: int64): Landing
    decreases Height(t), 0
  {
    match t
    case Leaf(_, es) => Landing([], es, [], false, false)
    case Inner(_, f) =>
      var i := Pick(f, score);
      var r := ReachChild(Nth(f, i), score);
      r.(pre := EntriesBefore(f, i) + r.pre, post := r.post + EntriesAfter(f, i),
         underEqual := r.underEqual || (i < Len(f) - 1 && Seps(f)[i] == score))
  }

  /** The root is reached like a child: if it is full it is split first. */
  function ReachChild(c: Tree, score: int64): Landing
    decreases Height(c), 1
  {
    if !Full(c) then Reach(c, score)
    else
      var s := Split(c, 0);
      if score >= s.promoted then
        var r := Reach(s.right, score);
        r.(pre := Entries(s.left) + r.pre, afterEqual := r.afterEqual || s.promoted == score)
      else
        var r := Reach(s.left, score);
        r.(post := r.post + Entries(s.right))
  }

  /** The leaf's entries stand between the others, and the entry lands among them by LeafPos. */
  lemma {:induction false} ReachLands(t: Tree, e: Entry, names: seq<Bytes>)
    ensures var r := Reach(t, e.score);
            Entries(t) == r.pre + r.es + r.post && LandAt(t, e, names) == |r.pre| + LeafPos(r.es, e, names)
    decreases Height(t), 0
  {
    if t.Inner? {
      var f, i := t.kids, Pick(t.kids, e.score);
      ReachChildLands(Nth(f, i), e, names);
      GraftEntries(f, i, Last(Nth(f, i)));
      var r := ReachChild(Nth(f, i), e.score);
      Regroup(EntriesBefore(f, i), r.pre, r.es, r.post, EntriesAfter(f, i));
    }
  }

  lemma {:induction false} ReachChildLands(c: Tree, e: Entry, names: seq<Bytes>)
    ensures var r := ReachChild(c, e.score);
            Entries(c) == r.pre + r.es + r.post && LandInChild(c, e, names) == |r.pre| + LeafPos(r.es, e, names)
    decreases Height(c), 1
  {
    hide Entries, Split, LeafPos, LandAt, Reach, Full;
    if !Full(c) {
      ReachLands(c, e, names);
    } else {
      var s := Split(c, 0);
      SplitEntries(c, 0);
      if e.score >= s.promoted {
        ReachLands(s.right, e, names);
        var r := Reach(s.right, e.score);
        assert Entries(s.left) + (r.pre + r.es + r.post) == Entries(s.left) + r.pre + r.es + r.post;
      } else {
        ReachLands(s.left, e, names);
        var r := Reach(s.left, e.score);
        assert r.pre + r.es + r.post + Entries(s.right) == r.pre + r.es + (r.post + Entries(s.right));
      }
    }
  }

  lemma Regroup<T>(a: seq<T>, b: seq<T>, c: seq<T>, d: seq<T>, e: seq<T>)
    ensures a + (b + c + d) + e == (a + b) + c + (d + e)
  {
  }

  // ----- What the guards say about the scores on both sides -----

  /** Everything listed before the leaf is below the score, or equal to it only after such a split; likewise after. */
  ghost predicate Sided(r: Landing, score: int64)
  {
    && (forall x :: x in r.pre ==> x.score <= score && (!r.afterEqual ==> x.score < score))
    && (forall x :: x in r.post ==> x.score >= score && (!r.underEqual ==> x.score > score))
  }

  lemma {:induction false} BeforeBelow(f: Forest, i: nat, lo: int64, hi: int64, names: seq<Bytes>)
    requires OrderedF(f, lo, hi, names) && 0 < i < Len(f)
    ensures forall x :: x in EntriesBefore(f, i) ==> x.score <= Seps(f)[i - 1]
    ensures f.sep <= Seps(f)[i - 1]
  {
    ListingAscends(f.t, lo, f.sep, names);
    if i > 1 { BeforeBelow(f.rest, i - 1, f.sep, hi, names); }
  }

  lemma {:induction false} AfterAbove(f: Forest, i: nat, lo: int64, hi: int64, names: seq<Bytes>)
    requires OrderedF(f, lo, hi, names) && i < Len(f) - 1
    ensures forall x :: x in EntriesAfter(f, i) ==> x.score >= Seps(f)[i]
  {
    if i == 0 { ListingAscendsF(f.rest, f.sep, hi, names); } else { AfterAbove(f.rest, i - 1, f.sep, hi, names); }
  }

  lemma {:induction false} LastHasNoneAfter(f: Forest)
    ensures EntriesAfter(f, Len(f) - 1) == []
  {
    if f.Cons? { LastHasNoneAfter(f.rest); }
  }

  lemma {:induction false} ReachSided(t: Tree, score: int64, lo: int64, hi: int64, names: seq<Bytes>)
    requires Ordered(t, lo, hi, names) && Shaped(t)
    ensures Sided(Reach(t, score), score)
    decreases Height(t), 0
  {
    if t.Inner? {
      var f, i := t.kids, Pick(t.kids, score);
      NthOrdered(f, i, lo, hi, names);
      NthShaped(f, i);
      ReachChildSided(Nth(f, i), score, LowOf(f, i, lo), HighOf(f, i, hi), names);
      if i > 0 { BeforeBelow(f, i, lo, hi, names); }
      if i < Len(f) - 1 { AfterAbove(f, i, lo, hi, names); } else { LastHasNoneAfter(f); }
    }
  }

  lemma {:induction false} ReachChildSided(c: Tree, score: int64, lo: int64, hi: int64, names: seq<Bytes>)
    requires Ordered(c, lo, hi, names) && Shaped(c)
    ensures Sided(ReachChild(c, score), score)
    decreases Height(c), 1
  {
    if !Full(c) {
      ReachSided(c, score, lo, hi, names);
    } else {
      var s := Split(c, 0);
      SplitOrdered(c, 0, lo, hi, names);
      SplitShaped(c, 0);
      ListingAscends(s.left, lo, s.promoted, names);
      ListingAscends(s.right, s.promoted, hi, names);
      if score >= s.promoted {
        ReachSided(s.right, score, s.promoted, hi, names);
      } else {
        ReachSided(s.left, score, lo, s.promoted, names);
      }
    }
  }

  // ----- The exact condition -----

  /** The last entry listed before the leaf does not belong after e. */
  predicate LeftFits(r: Landing, e: Entry, names: seq<Bytes>)
  {
    r.pre == [] || ScoreMemberCmp(r.pre[|r.pre| - 1], e, names) <= 0
  }

  /** The first entry listed after the leaf does not belong before e. */
  predicate RightFits(r: Landing, e: Entry, names: seq<Bytes>)
  {
    r.post == [] || ScoreMemberCmp(e, r.post[0], names) <= 0
  }

  lemma Between(l: seq<Entry>, k: nat, e: Entry, names: seq<Bytes>)
    requires k <= |l| && Sorted(l, names)
    requires k > 0 ==> ScoreMemberCmp(l[k - 1], e, names) <= 0
    requires k < |l| ==> ScoreMemberCmp(e, l[k], names) <= 0
    ensures Sorted(InsertAt(l, k, e), names)
  {
    hide ScoreMemberCmp;
    forall i | 0 <= i < k ensures ScoreMemberCmp(l[i], e, names) <= 0 {
      if i < k - 1 { CmpChains(l[i], l[k - 1], e, names); }
    }
    forall j | k <= j < |l| ensures ScoreMemberCmp(e, l[j], names) <= 0 {
      if k < j { CmpChains(e, l[k], l[j], names); }
    }
  }

  /** In its leaf an entry is always in order, so only the two edges of the leaf decide. */
  lemma EdgesDecide(r: Landing, e: Entry, names: seq<Bytes>)
    requires Sorted(r.pre + r.es + r.post, names)
    ensures Sorted(InsertAt(r.pre + r.es + r.post, |r.pre| + LeafPos(r.es, e, names), e), names) <==>
            LeftFits(r, e, names) && RightFits(r, e, names)
  {
    hide ScoreMemberCmp, LeafPos;
    var l, k, m := r.pre + r.es + r.post, LeafPos(r.es, e, names), |r.pre| + |r.es|;
    var at := |r.pre| + k;
    var l' := InsertAt(l, at, e);
    assert k > 0 ==> l[at - 1] == r.es[k - 1];
    assert k < |r.es| ==> l[at] == r.es[k];
    if k > 0 { CmpFlips(l[at - 1], e, names); }
    assert r.pre != [] ==> l[|r.pre| - 1] == r.pre[|r.pre| - 1] == l'[|r.pre| - 1];
    assert r.post != [] ==> l[m] == r.post[0] == l'[m + 1];
    assert l'[at] == e;
    if LeftFits(r, e, names) && RightFits(r, e, names) {
      EdgeChains(r, e, names);
      Between(l, at, e, names);
    }
  }

  /** The neighbours of the landing place are in order if the edges are. */
  lemma EdgeChains(r: Landing, e: Entry, names: seq<Bytes>)
    requires LeftFits(r, e, names) && RightFits(r, e, names)
    ensures var l, at := r.pre + r.es + r.post, |r.pre| + LeafPos(r.es, e, names);
            && (at > 0 ==> ScoreMemberCmp(l[at - 1], e, names) <= 0)
            && (at < |l| ==> ScoreMemberCmp(e, l[at], names) <= 0)
  {
    hide ScoreMemberCmp, LeafPos;
    var k := LeafPos(r.es, e, names);
    if k > 0 { CmpFlips(r.es[k - 1], e, names); }
  }

  /**
  If the descent enters the right half of a split whose promoted score is the new one, the last entry before
  the leaf does not belong after the new member; and if it passes below a separator equal to the new score,
  the first entry after the leaf does not belong before it.
  */
  predicate Fits(t: Tree, e: Entry, names: seq<Bytes>)
  {
    var r := ReachChild(t, e.score);
    (r.afterEqual ==> LeftFits(r, e, names)) && (r.underEqual ==> RightFits(r, e, names))
  }

  /** What is out of order stays out of order, whatever is put in between. */
  lemma UnsortedStays(l: seq<Entry>, k: nat, e: Entry, names: seq<Bytes>)
    requires k <= |l| && Sorted(InsertAt(l, k, e), names)
    ensures Sorted(l, names)
  {
    hide ScoreMemberCmp;
    var l' := InsertAt(l, k, e);
    forall i, j | 0 <= i < j < |l| ensures ScoreMemberCmp(l[i], l[j], names) <= 0 {
      assert l'[if i < k then i else i + 1] == l[i] && l'[if j < k then j else j + 1] == l[j];
    }
  }

  /** After an insertion the listing is in (score, member) order exactly if it was before and the member fits. */
  lemma InsertSortedExactly(t: Tree, e: Entry, n: nat, names: seq<Bytes>)
    requires Good(t, n, names)
    ensures var r := ReachChild(t, e.score); Entries(t) == r.pre + r.es + r.post
    ensures Sorted(Entries(InsertRoot(t, e, n, names).it), names) <==> Sorted(Entries(t), names) && Fits(t, e, names)
  {
    hide Entries, InsertRoot, LandInChild, Shaped, Level, Ordered, ReachChild, Sorted, Ids, LeftFits, RightFits;
    var r := ReachChild(t, e.score);
    InsertRootListing(t, e, n, names);
    ReachChildLands(t, e, names);
    ReachChildSided(t, e.score, INT64_MIN, INT64_MAX, names);
    SidesFit(r, e, names);
    if Sorted(Entries(t), names) {
      EdgesDecide(r, e, names);
    } else if Sorted(Entries(InsertRoot(t, e, n, names).it), names) {
      UnsortedStays(Entries(t), LandAtRoot(t, e, names), e, names);
    }
  }

  /** Every entry fits into the tree that the entries before it build. */
  predicate AllFit(es: seq<Entry>, names: seq<Bytes>)
  {
    |es| <= 1 ||
    var n := |es| - 1;
    AllFit(es[..n], names) && Fits(Grow(es[..n], names).it, es[n], names)
  }

  /** Over every run of insertions: the listing ends in (score, member) order exactly if every entry fitted. */
  lemma {:induction false} GrowSortedExactly(es: seq<Entry>, names: seq<Bytes>)
    requires es != []
    ensures Sorted(Entries(Grow(es, names).it), names) <==> AllFit(es, names)
  {
    hide Sorted, Entries, Fits, InsertRoot;
    var n := |es| - 1;
    if n == 0 {
      OneIsSorted(es, names);
    } else {
      GrowSortedExactly(es[..n], names);
      GrowGood(es[..n], names);
      var g := Grow(es[..n], names);
      InsertSortedExactly(g.it, es[n], g.free, names);
    }
  }

  lemma OneIsSorted(es: seq<Entry>, names: seq<Bytes>)
    requires |es| == 1
    ensures Sorted(Entries(Grow(es, names).it), names)
  {
  }

  /** Only equal scores can be out of place at an edge. */
  lemma SidesFit(r: Landing, e: Entry, names: seq<Bytes>)
    requires Sided(r, e.score)
    ensures !r.afterEqual ==> LeftFits(r, e, names)
    ensures !r.underEqual ==> RightFits(r, e, names)
  {
    if r.pre != [] { assert r.pre[|r.pre| - 1] in r.pre; }
    if r.post != [] { assert r.post[0] in r.post; }
  }

  /** A score that no entry has yet never breaks the order. */
  lemma NewScoreKeepsOrder(t: Tree, e: Entry, n: nat, names: seq<Bytes>)
    requires Good(t, n, names) && Sorted(Entries(t), names)
    requires forall x :: x in Entries(t) ==> x.score != e.score
    ensures Sorted(Entries(InsertRoot(t, e, n, names).it), names)
  {
    hide Entries, InsertRoot, Shaped, Level, Ordered, ReachChild, Sorted, Ids;
    var r := ReachChild(t, e.score);
    InsertSortedExactly(t, e, n, names);
    ReachChildSided(t, e.score, INT64_MIN, INT64_MAX, names);
    if r.pre != [] {
      assert r.pre[|r.pre| - 1] in Entries(t);
      assert r.pre[|r.pre| - 1] in r.pre;
    }
    if r.post != [] {
      assert r.post[0] in Entries(t);
      assert r.post[0] in r.post;
    }
  }

  // ----- In terms of the members and their scores -----

  predicate DistinctScores(m: map<Bytes, int64>)
  {
    forall a, b :: a in m && b in m && a != b ==> m[a] != m[b]
  }

  /** Each listed entry is one member with its score. */
  lemma EntryIsMember(t: Tree, ms: seq<Member>, e: Entry)
    requires multiset(Entries(t)) == multiset(TableOf(ms)) && DistinctNames(ms) && e in Entries(t)
    ensures e.midx < |ms| && e == TableOf(ms)[e.midx]
    ensures ms[e.midx].data in ScoresOf(ms) && ScoresOf(ms)[ms[e.midx].data] == e.score
  {
    hide Entries, ScoresOf;
    assert TableOf(ms)[..|ms|] == TableOf(ms);
    TableBound(t, ms, |ms|);
    ScoresAt(ms, e.midx);
  }

  /** Adding a member with a score that no member has keeps the listing in (score, member) order. */
  lemma NewMemberKeepsOrder(t: Tree, n: nat, ms: seq<Member>, m: Member)
    requires Good(t, n, NamesOf(ms + [m])) && multiset(Entries(t)) == multiset(TableOf(ms)) && DistinctNames(ms)
    requires Sorted(Entries(t), NamesOf(ms)) && m.score !in ScoresOf(ms).Values
    ensures Sorted(Entries(InsertRoot(t, Entry(m.score, |ms|), n, NamesOf(ms + [m])).it), NamesOf(ms + [m]))
  {
    hide Entries, InsertRoot, Good, Sorted, ScoresOf, DistinctNames;
    forall e | e in Entries(t) ensures e.midx < |ms| && e.score != m.score {
      EntryIsMember(t, ms, e);
    }
    assert NamesOf(ms) <= NamesOf(ms + [m]);
    SortedNames(Entries(t), NamesOf(ms), NamesOf(ms + [m]));
    NewScoreKeepsOrder(t, Entry(m.score, |ms|), n, NamesOf(ms + [m]));
  }

  /** The listing that a member table gives rise to is in (score, member) order. */
  predicate TableInOrder(ms: seq<Member>)
  {
    ms == [] || Sorted(Entries(Build(ms).it), NamesOf(ms))
  }

  /** Exactly the tables each of whose members fits where the members before it put it are listed in order. */
  lemma TableInOrderExactly(ms: seq<Member>)
    ensures TableInOrder(ms) <==> AllFit(TableOf(ms), NamesOf(ms))
  {
    hide Sorted, Entries, Grow;
    if ms != [] { GrowSortedExactly(TableOf(ms), NamesOf(ms)); }
  }

  /** One more member in the table: its tree, and when the listing is still in order. */
  lemma MemberFits(ms: seq<Member>, m: Member)
    requires ms != []
    ensures TableInOrder(ms + [m]) <==>
            TableInOrder(ms) && Fits(Build(ms).it, Entry(m.score, |ms|), NamesOf(ms + [m]))
    ensures Build(ms + [m]) == InsertRoot(Build(ms).it, Entry(m.score, |ms|), Build(ms).free, NamesOf(ms + [m]))
    ensures Good(Build(ms).it, Build(ms).free, NamesOf(ms + [m]))
  {
    hide Sorted, Entries, Grow, InsertRoot, Good, Fits;
    var es, names, names' := TableOf(ms), NamesOf(ms), NamesOf(ms + [m]);
    var e := Entry(m.score, |ms|);
    assert TableOf(ms + [m]) == es + [e];
    GrowStep(es, e, names');
    GrowSame(es, names, names');
    GrowGood(es, names');
    GrowNamed(es, names);
    var g := Grow(es, names);
    InsertSortedExactly(g.it, e, g.free, names');
    SortedNames(Entries(g.it), names, names');
  }

  lemma SortedNames(es: seq<Entry>, names: seq<Bytes>, names': seq<Bytes>)
    requires names <= names' && Named(es, names)
    ensures Sorted(es, names) <==> Sorted(es, names')
  {
    forall i, j | 0 <= i < j < |es| ensures ScoreMemberCmp(es[i], es[j], names') == ScoreMemberCmp(es[i], es[j], names) {
      assert es[i] in es && es[j] in es;
    }
  }

  /** A new member with a score that no member has keeps the listing in order. */
  lemma NewScoreInOrder(ms: seq<Member>, m: Member)
    requires DistinctNames(ms) && TableInOrder(ms) && m.score !in ScoresOf(ms).Values
    ensures TableInOrder(ms + [m])
  {
    hide Sorted, Entries, Grow, InsertRoot, Good, ScoresOf, DistinctNames;
    if ms == [] {
      OneIsSorted(TableOf([m]), NamesOf([m]));
      assert ms + [m] == [m];
    } else {
      MemberFits(ms, m);
      GrowEntries(TableOf(ms), NamesOf(ms));
      NewMemberKeepsOrder(Build(ms).it, Build(ms).free, ms, m);
    }
  }

  lemma {:induction false} TableCounts(ms: seq<Member>, e: Entry)
    ensures multiset(TableOf(ms))[e] <= 1
  {
    if ms != [] {
      var k := |ms| - 1;
      TableCounts(ms[..k], e);
      assert TableOf(ms) == TableOf(ms[..k]) + [Entry(ms[k].score, k)];
      assert e in multiset(TableOf(ms[..k])) <==> e in TableOf(ms[..k]);
    }
  }

  lemma TwiceCounts(l: seq<Entry>, i: nat, j: nat)
    requires i < j < |l| && l[i] == l[j]
    ensures multiset(l)[l[i]] >= 2
  {
    assert l == l[..j] + [l[j]] + l[j + 1..];
    assert l[i] in l[..j];
  }

  /** However it was built: a tree over members with distinct scores lists them in (score, member) order. */
  lemma DistinctScoresSorted(t: Tree, n: nat, ms: seq<Member>)
    requires Good(t, n, NamesOf(ms)) && multiset(Entries(t)) == multiset(TableOf(ms)) && DistinctNames(ms)
    requires DistinctScores(ScoresOf(ms))
    ensures Sorted(Entries(t), NamesOf(ms))
  {
    hide Entries, ScoresOf, DistinctNames, Shaped, Level, Ordered, Ids;
    var l := Entries(t);
    ListingAscends(t, INT64_MIN, INT64_MAX, NamesOf(ms));
    forall i, j | 0 <= i < j < |l| ensures ScoreMemberCmp(l[i], l[j], NamesOf(ms)) <= 0 {
      EntryIsMember(t, ms, l[i]);
      EntryIsMember(t, ms, l[j]);
      if l[i].midx == l[j].midx {
        TwiceCounts(l, i, j);
        TableCounts(ms, l[i]);
        assert false;
      }
      NamesDiffer(ms, l[i].midx, l[j].midx);
      assert l[i].score != l[j].score;
    }
  }

  lemma NamesDiffer(ms: seq<Member>, i: nat, j: nat)
    requires DistinctNames(ms) && i < |ms| && j < |ms| && i != j
    ensures ms[i].data != ms[j].data
  {
  }

  // ----- The failing family -----

  /** Entries added in order fill the first leaf from the left. */
  lemma GrowLeaf(es: seq<Entry>, names: seq<Bytes>)
    requires 1 <= |es| <= 3 && forall i, j :: 0 <= i < j < |es| ==> ScoreMemberCmp(es[j], es[i], names) > 0
    ensures Grow(es, names) == Grown(Leaf(0, es), 1)
    decreases |es|
  {
    hide ScoreMemberCmp;
    if |es| > 1 {
      var k := |es| - 1;
      GrowLeaf(es[..k], names);
      LeafPosLast(es[..k], es[k], names);
      assert InsertAt(es[..k], k, es[k]) == es;
    }
  }

  lemma {:induction false} LeafPosLast(es: seq<Entry>, e: Entry, names: seq<Bytes>)
    requires forall i :: 0 <= i < |es| ==> ScoreMemberCmp(e, es[i], names) > 0
    ensures LeafPos(es, e, names) == |es|
  {
    hide ScoreMemberCmp;
    if es != [] { LeafPosLast(es[1..], e, names); }
  }

  /** The fourth equal score splits the leaf and goes right: it is not below the promoted score. */
  lemma TieGoesRight(a: Entry, b: Entry, c: Entry, d: Entry, names: seq<Bytes>)
    requires c.score == d.score && ScoreMemberCmp(d, c, names) > 0
    ensures InsertRoot(Leaf(0, [a, b, c]), d, 1, names) ==
            Grown(Inner(1, Cons(Leaf(0, [a, b]), d.score, Last(Leaf(2, [c, d])))), 3)
  {
    hide ScoreMemberCmp;
    var t := Leaf(0, [a, b, c]);
    assert [a, b, c][..2] == [a, b] && [a, b, c][2..] == [c];
    assert Split(t, 2) == SplitResult(Leaf(0, [a, b]), d.score, Leaf(2, [c]));
    assert [c][1..] == [];
    assert LeafPos([c], d, names) == 1;
    assert InsertAt([c], 1, d) == [c, d];
    assert Insert(Leaf(2, [c]), d, 3, names) == Grown(Leaf(2, [c, d]), 3);
  }

  /** The fifth goes left: it is not above the separator. */
  lemma TieGoesLeft(a: Entry, b: Entry, e: Entry, right: Tree, names: seq<Bytes>)
    requires ScoreMemberCmp(e, a, names) > 0 && ScoreMemberCmp(e, b, names) > 0
    ensures InsertRoot(Inner(1, Cons(Leaf(0, [a, b]), e.score, Last(right))), e, 3, names) ==
            Grown(Inner(1, Cons(Leaf(0, [a, b, e]), e.score, Last(right))), 3)
  {
    hide ScoreMemberCmp;
    var l := Leaf(0, [a, b]);
    var f := Cons(l, e.score, Last(right));
    assert Pick(f, e.score) == 0 && Nth(f, 0) == l && !Full(Inner(1, f)) && !Full(l);
    LeafPosLast([a, b], e, names);
    assert InsertAt([a, b], 2, e) == [a, b, e];
    assert Insert(l, e, 3, names) == Grown(Leaf(0, [a, b, e]), 3);
    assert InsertChild(l, e, 3, names) == Grown(Last(Leaf(0, [a, b, e])), 3);
    assert Graft(f, 0, Last(Leaf(0, [a, b, e]))) == Cons(Leaf(0, [a, b, e]), e.score, Last(right));
  }

  /** Five equal scores added in member order to an empty set are listed out of member order. */
  lemma TiesCrossLeaves(es: seq<Entry>, names: seq<Bytes>)
    requires |es| == 5
    requires forall i, j :: 0 <= i < j < 5 ==> es[i].score == es[j].score && ScoreMemberCmp(es[j], es[i], names) > 0
    ensures var l := Entries(Grow(es, names).it);
            l == [es[0], es[1], es[4], es[2], es[3]] && !Sorted(l, names)
  {
    hide ScoreMemberCmp, InsertRoot, Grow;
    var abc := [es[0], es[1], es[2]];
    GrowLeaf(abc, names);
    GrowStep(abc, es[3], names);
    GrowStep(abc + [es[3]], es[4], names);
    assert abc + [es[3]] + [es[4]] == es;
    TieGoesRight(es[0], es[1], es[2], es[3], names);
    TieGoesLeft(es[0], es[1], es[4], Leaf(2, [es[2], es[3]]), names);
    assert es[3].score == es[4].score && ScoreMemberCmp(es[4], es[2], names) > 0;
    PairListing(Leaf(0, [es[0], es[1], es[4]]), es[4].score, Leaf(2, [es[2], es[3]]));
    var l := [es[0], es[1], es[4], es[2], es[3]];
    assert l == [es[0], es[1], es[4]] + [es[2], es[3]];
    assert l[2] == es[4] && l[3] == es[2];
  }
}
