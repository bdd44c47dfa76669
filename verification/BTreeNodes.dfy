/** The node array, and when a stretch of it represents a tree. */
module BTreeNodes {
  import opened ByteStrings
  import opened Cells
  import opened BTreeShape

  /** One 64-byte node; `ptrs` is the union of child indices and member indices. */
  datatype NodeRec = NodeRec(keys: seq<int64>, ptrs: seq<nat>, isLeaf: bool, count: nat)

  const ZeroNode: NodeRec := NodeRec([0, 0, 0], [0, 0, 0, 0], false, 0)

  type Node = n: NodeRec | |n.keys| == MAX_KEYS && |n.ptrs| == MAX_KEYS + 1 witness ZeroNode

  predicate LeafNode(n: Node, es: seq<Entry>)
  {
    && n.isLeaf
    && n.count == |es| <= MAX_KEYS
    && forall k :: 0 <= k < |es| ==> n.keys[k] == es[k].score && n.ptrs[k] == es[k].midx
  }

  predicate InnerNode(n: Node, f: Forest)
  {
    && !n.isLeaf
    && n.count == |Seps(f)| <= MAX_KEYS
    && n.keys[..n.count] == Seps(f)
    && n.ptrs[..n.count + 1] == KidIds(f)
  }

  predicate Rep(a: seq<Node>, t: Tree)
  {
    && t.id < |a|
    && match t
       case Leaf(id, es) => LeafNode(a[id], es)
       case Inner(id, f) => InnerNode(a[id], f) && RepF(a, f)
  }

  predicate RepF(a: seq<Node>, f: Forest)
  {
    match f
    case Last(t) => Rep(a, t)
    case Cons(t, _, rest) => Rep(a, t) && RepF(a, rest)
  }

  ghost predicate Agree(a: seq<Node>, b: seq<Node>, cells: multiset<nat>)
  {
    |a| == |b| && forall k :: k in cells && k < |a| ==> a[k] == b[k]
  }

  lemma AgreeParts(a: seq<Node>, b: seq<Node>, x: multiset<nat>, y: multiset<nat>)
    requires Agree(a, b, x + y)
    ensures Agree(a, b, x) && Agree(a, b, y)
  {
    assert forall k :: k in x || k in y ==> k in x + y;
  }

  lemma {:induction false} RepSame(a: seq<Node>, b: seq<Node>, t: Tree)
    requires Rep(a, t) && Agree(a, b, Ids(t))
    ensures Rep(b, t)
  {
    assert t.id in Ids(t);
    if t.Inner? { RepSameF(a, b, t.kids); }
  }

  lemma {:induction false} RepSameF(a: seq<Node>, b: seq<Node>, f: Forest)
    requires RepF(a, f) && Agree(a, b, IdsF(f))
    ensures RepF(b, f)
  {
    if f.Cons? {
      AgreeParts(a, b, Ids(f.t), IdsF(f.rest));
      RepSameF(a, b, f.rest);
    }
    RepSame(a, b, f.t);
  }

  lemma {:induction false} RepNth(a: seq<Node>, f: Forest, i: nat)
    requires RepF(a, f) && i < Len(f)
    ensures Rep(a, Nth(f, i)) && KidIds(f)[i] == Nth(f, i).id
  {
    if i > 0 { RepNth(a, f.rest, i - 1); }
  }

  lemma {:induction false} RepJoin(a: seq<Node>, g: Forest, sep: int64, rest: Forest)
    ensures RepF(a, Join(g, sep, rest)) <==> RepF(a, g) && RepF(a, rest)
  {
    if g.Cons? { RepJoin(a, g.rest, sep, rest); }
  }

  lemma {:induction false} RepGraft(a: seq<Node>, b: seq<Node>, f: Forest, i: nat, g: Forest)
    requires RepF(a, f) && i < Len(f)
    requires RepF(b, g) && Agree(a, b, IdsBeside(f, i))
    ensures RepF(b, Graft(f, i, g))
  {
    hide Ids, IdsF, Rep, Agree;
    if f.Cons? {
      if i == 0 {
        RepSameF(a, b, f.rest);
        RepJoin(b, g, f.sep, f.rest);
      } else {
        AgreeParts(a, b, Ids(f.t), IdsBeside(f.rest, i - 1));
        RepSame(a, b, f.t);
        RepGraft(a, b, f.rest, i - 1, g);
      }
    }
  }

  lemma PairViews(g: Forest)
    requires g.Cons? && g.rest.Last?
    ensures Len(g) == 2 && Seps(g) == [g.sep] && KidIds(g) == [g.t.id, g.rest.t.id]
  {
  }

  lemma InsertPair(s: seq<nat>, i: nat, x: nat)
    requires i < |s|
    ensures InsertAt(s, i + 1, x) == s[..i] + [s[i], x] + s[i + 1..]
  {
  }

  /** n' is n with one more separator at i and one more child to the right of it. */
  predicate Widened(n: Node, n': Node, i: nat, sep: int64, child: nat)
  {
    && i <= n.count < MAX_KEYS
    && n'.isLeaf == n.isLeaf && n'.count == n.count + 1
    && n'.keys[..n'.count] == InsertAt(n.keys[..n.count], i, sep)
    && n'.ptrs[..n'.count + 1] == InsertAt(n.ptrs[..n.count + 1], i + 1, child)
  }

  /** The separators and child indices of a node that takes the two halves of its i-th child. */
  lemma InnerNodeGrafted(n: Node, f: Forest, i: nat, g: Forest, n': Node)
    requires InnerNode(n, f) && i < Len(f) <= MAX_KEYS && g.Cons? && g.rest.Last?
    requires g.t.id == KidIds(f)[i]
    requires Widened(n, n', i, g.sep, g.rest.t.id)
    ensures InnerNode(n', Graft(f, i, g))
  {
    GraftKeys(f, i, g);
    GraftKidIds(f, i, g);
    PairViews(g);
    InsertPair(KidIds(f), i, g.rest.t.id);
  }

  lemma InnerNodeReplaced(n: Node, f: Forest, i: nat, c: Tree)
    requires InnerNode(n, f) && i < Len(f) && c.id == KidIds(f)[i]
    ensures InnerNode(n, Graft(f, i, Last(c)))
  {
    var g := Last(c);
    GraftKeys(f, i, g);
    GraftKidIds(f, i, g);
    assert Seps(g) == [] && KidIds(g) == [c.id];
    SliceJoin(Seps(f), i);
    SliceReplace(KidIds(f), i);
  }

  lemma SliceJoin<T>(s: seq<T>, i: nat)
    requires i <= |s|
    ensures s[..i] + [] + s[i..] == s
  {
  }

  lemma SliceReplace<T>(s: seq<T>, i: nat)
    requires i < |s|
    ensures s[..i] + [s[i]] + s[i + 1..] == s
  {
  }

  lemma PickIs(f: Forest, score: int64, i: nat)
    requires i < Len(f)
    requires forall j :: 0 <= j < i ==> score > Seps(f)[j]
    requires i < Len(f) - 1 ==> score <= Seps(f)[i]
    ensures i == Pick(f, score)
  {
  }

  // ----- Who owns which cell -----

  /** Every cell at most once, and only cells already handed out. */
  ghost predicate Once(cells: multiset<nat>, free: nat)
  {
    forall k :: cells[k] <= 1 && (k in cells ==> k < free)
  }

  ghost predicate MidxBelow(t: Tree, n: nat)
  {
    forall e :: e in Entries(t) ==> e.midx < n
  }

  lemma ChildCells(t: Tree, i: nat, free: nat)
    requires t.Inner? && i < Len(t.kids) && Once(Ids(t), free)
    ensures t.id !in Ids(Nth(t.kids, i)) && t.id !in IdsBeside(t.kids, i) && t.id < free
    ensures forall k :: k in IdsBeside(t.kids, i) ==> k !in Ids(Nth(t.kids, i)) && k < free
    ensures forall k :: k in Ids(Nth(t.kids, i)) ==> k in Ids(t)
    ensures Once(Ids(Nth(t.kids, i)), free)
  {
    var x, y := IdsBeside(t.kids, i), Ids(Nth(t.kids, i));
    NthIds(t.kids, i);
    forall k ensures Ids(t)[k] == (if k == t.id then 1 else 0) + x[k] + y[k] {}
    assert t.id in Ids(t);
    forall k | k in x || k in y ensures k in Ids(t) && !(k in x && k in y) {}
  }

  lemma ChildFacts(t: Tree, i: nat, free: nat, n: nat)
    requires t.Inner? && i < Len(t.kids) && Shaped(t) && Once(Ids(t), free) && MidxBelow(t, n)
    ensures var c := Nth(t.kids, i); Shaped(c) && Once(Ids(c), free) && MidxBelow(c, n) && Height(c) < Height(t)
  {
    ChildCells(t, i, free);
    NthShaped(t.kids, i);
    GraftEntries(t.kids, i, Last(Nth(t.kids, i)));
  }

  lemma BesideAgrees(a: seq<Node>, b: seq<Node>, t: Tree, i: nat, free: nat)
    requires |a| == |b| && free <= |a|
    requires t.Inner? && i < Len(t.kids) && Once(Ids(t), free)
    requires forall k :: 0 <= k < free && k != t.id && k !in Ids(Nth(t.kids, i)) ==> a[k] == b[k]
    ensures Agree(a, b, IdsBeside(t.kids, i))
  {
    ChildCells(t, i, free);
  }

  lemma RepInner(b: seq<Node>, id: nat, f: Forest)
    requires id < |b| && InnerNode(b[id], f) && RepF(b, f)
    ensures Rep(b, Inner(id, f))
  {
  }

  /** The i-th child was replaced in place. */
  lemma PutChild(a: seq<Node>, b: seq<Node>, t: Tree, i: nat, c: Tree, free: nat)
    requires |a| == |b| && free <= |a|
    requires Rep(a, t) && t.Inner? && i < Len(t.kids) && Once(Ids(t), free)
    requires Rep(b, c) && c.id == Nth(t.kids, i).id
    requires forall k :: 0 <= k < free && k !in Ids(Nth(t.kids, i)) ==> a[k] == b[k]
    ensures Rep(b, Inner(t.id, Graft(t.kids, i, Last(c))))
  {
    var f, g := t.kids, Last(c);
    BesideAgrees(a, b, t, i, free);
    RepGraft(a, b, f, i, g);
    assert InnerNode(b[t.id], Graft(f, i, g)) by {
      ChildCells(t, i, free);
      RepNth(a, f, i);
      InnerNodeReplaced(a[t.id], f, i, c);
    }
    RepInner(b, t.id, Graft(f, i, g));
  }

  predicate PairRep(b: seq<Node>, g: Forest)
  {
    g.Cons? && g.rest.Last? && Rep(b, g.t) && Rep(b, g.rest.t)
  }

  lemma PairStands(b: seq<Node>, g: Forest)
    requires PairRep(b, g)
    ensures g.Cons? && g.rest.Last? && RepF(b, g)
  {
  }

  /** The i-th child was replaced by two, and the parent node widened. */
  lemma PutPair(a: seq<Node>, b: seq<Node>, t: Tree, i: nat, g: Forest, free: nat)
    requires |a| == |b| && free <= |a|
    requires Rep(a, t) && t.Inner? && i < Len(t.kids) <= MAX_KEYS && Once(Ids(t), free)
    requires PairRep(b, g) && g.t.id == Nth(t.kids, i).id
    requires Widened(a[t.id], b[t.id], i, g.sep, g.rest.t.id)
    requires forall k :: 0 <= k < free && k != t.id && k !in Ids(Nth(t.kids, i)) ==> a[k] == b[k]
    ensures Rep(b, Inner(t.id, Graft(t.kids, i, g)))
  {
    hide RepF, Once, Ids, Widened, PairRep, Graft;
    PairStands(b, g);
    var f := t.kids;
    BesideAgrees(a, b, t, i, free);
    RepGraft(a, b, f, i, g);
    RepNth(a, f, i);
    InnerNodeGrafted(a[t.id], f, i, g, b[t.id]);
    RepInner(b, t.id, Graft(f, i, g));
  }
}
