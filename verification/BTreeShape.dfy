/**
The sorted-set index as a value: trees whose nodes carry the index of the array cell that
stores them, and insertion with pre-emptive splits as a function on such trees.

A forest is the contents of an internal node, children and separator keys alternating.
*/
module BTreeShape {
  import opened ByteStrings
  import opened Cells
  import opened Decimal

  const MAX_KEYS: nat := 3
  type int64 = x: int | INT64_MIN <= x <= INT64_MAX

  /** A leaf slot: the cached score and the index of the member in the member table. */
  datatype Entry = Entry(score: int64, midx: nat)

  datatype Tree =
    | Leaf(id: nat, entries: seq<Entry>)
    | Inner(id: nat, kids: Forest)

  datatype Forest =
    | Last(t: Tree)
    | Cons(t: Tree, sep: int64, rest: Forest)

  // ----- Measures and views -----

  function Height(t: Tree): nat
  {
    match t
    case Leaf(_, _) => 0
    case Inner(_, f) => 1 + HeightF(f)
  }

  function HeightF(f: Forest): nat
  {
    match f
    case Last(t) => Height(t)
    case Cons(t, _, rest) => if Height(t) < HeightF(rest) then HeightF(rest) else Height(t)
  }

  function Len(f: Forest): (n: nat)
    ensures n >= 1
  {
    match f
    case Last(_) => 1
    case Cons(_, _, rest) => 1 + Len(rest)
  }

  function Nth(f: Forest, i: nat): (t: Tree)
    requires i < Len(f)
    ensures Height(t) <= HeightF(f)
  {
    if i == 0 then f.t else Nth(f.rest, i - 1)
  }

  function Seps(f: Forest): (s: seq<int64>)
    ensures |s| == Len(f) - 1
  {
    match f
    case Last(_) => []
    case Cons(_, sep, rest) => [sep] + Seps(rest)
  }

  function KidIds(f: Forest): (s: seq<nat>)
    ensures |s| == Len(f)
  {
    match f
    case Last(t) => [t.id]
    case Cons(t, _, rest) => [t.id] + KidIds(rest)
  }

  /** The in-order listing of the leaf slots. */
  function Entries(t: Tree): seq<Entry>
  {
    match t
    case Leaf(_, es) => es
    case Inner(_, f) => EntriesF(f)
  }

  function EntriesF(f: Forest): seq<Entry>
  {
    match f
    case Last(t) => Entries(t)
    case Cons(t, _, rest) => Entries(t) + EntriesF(rest)
  }

  /** The array cells a tree occupies, with multiplicity: an unshared tree has none above one. */
  function Ids(t: Tree): multiset<nat>
  {
    match t
    case Leaf(id, _) => multiset{id}
    case Inner(id, f) => multiset{id} + IdsF(f)
  }

  function IdsF(f: Forest): multiset<nat>
  {
    match f
    case Last(t) => Ids(t)
    case Cons(t, _, rest) => Ids(t) + IdsF(rest)
  }

  // ----- Invariants -----

  /** Leaves hold one to three entries, internal nodes one to three separators. */
  predicate Shaped(t: Tree)
  {
    match t
    case Leaf(_, es) => 1 <= |es| <= MAX_KEYS
    case Inner(_, f) => 2 <= Len(f) <= MAX_KEYS + 1 && ShapedF(f)
  }

  predicate ShapedF(f: Forest)
  {
    match f
    case Last(t) => Shaped(t)
    case Cons(t, _, rest) => Shaped(t) && ShapedF(rest)
  }

  /** Every leaf is exactly h levels below the root of t. */
  predicate Level(t: Tree, h: nat)
  {
    match t
    case Leaf(_, _) => h == 0
    case Inner(_, f) => h > 0 && LevelF(f, h - 1)
  }

  predicate LevelF(f: Forest, h: nat)
  {
    match f
    case Last(t) => Level(t, h)
    case Cons(t, _, rest) => Level(t, h) && LevelF(rest, h)
  }

  /** The score_member_cmp of the source, on two leaf slots. */
  function ScoreMemberCmp(a: Entry, b: Entry, names: seq<Bytes>): int
  {
    if a.score != b.score then (if a.score < b.score then -1 else 1)
    else BytesCmp(Name(names, a.midx), Name(names, b.midx))
  }

  /** The order of the slots: the lower score first and, among equal scores, the member first in dictionary order. */
  lemma ScoreThenMember(a: Entry, b: Entry, names: seq<Bytes>)
    ensures ScoreMemberCmp(a, b, names) < 0 <==>
            a.score < b.score || (a.score == b.score && Below(Name(names, a.midx), Name(names, b.midx)))
  {
    hide BytesCmp, Below;
    BytesCmpIsDictionary(Name(names, a.midx), Name(names, b.midx));
  }

  function Name(names: seq<Bytes>, midx: nat): Bytes
  {
    if midx < |names| then names[midx] else []
  }

  predicate Sorted(es: seq<Entry>, names: seq<Bytes>)
  {
    forall i, j :: 0 <= i < j < |es| ==> ScoreMemberCmp(es[i], es[j], names) <= 0
  }

  /**
  Scores lie between lo and hi, every separator weakly bounds the scores on both sides, and
  every leaf is sorted by score and member.
  */
  predicate Ordered(t: Tree, lo: int64, hi: int64, names: seq<Bytes>)
  {
    match t
    case Leaf(_, es) => Sorted(es, names) && forall e :: e in es ==> lo <= e.score <= hi
    case Inner(_, f) => OrderedF(f, lo, hi, names)
  }

  predicate OrderedF(f: Forest, lo: int64, hi: int64, names: seq<Bytes>)
  {
    match f
    case Last(t) => Ordered(t, lo, hi, names)
    case Cons(t, sep, rest) =>
      lo <= sep <= hi && Ordered(t, lo, sep, names) && OrderedF(rest, sep, hi, names)
  }

  // ----- Insertion -----

  predicate Full(t: Tree)
  {
    match t
    case Leaf(_, es) => |es| >= MAX_KEYS
    case Inner(_, f) => Len(f) > MAX_KEYS
  }

  /** The first slot that does not compare below e, as leaf_find_pos returns it. */
  function LeafPos(es: seq<Entry>, e: Entry, names: seq<Bytes>): (pos: nat)
    ensures pos <= |es|
    ensures forall j :: 0 <= j < pos ==> ScoreMemberCmp(e, es[j], names) > 0
    ensures pos < |es| ==> ScoreMemberCmp(e, es[pos], names) <= 0
  {
    if es == [] || ScoreMemberCmp(e, es[0], names) <= 0 then 0
    else 1 + LeafPos(es[1..], e, names)
  }

  function InsertAt<T>(s: seq<T>, k: nat, x: T): seq<T>
    requires k <= |s|
  {
    s[..k] + [x] + s[k..]
  }

  /** The child an entry descends to: the first whose separator is not below the score. */
  function Pick(f: Forest, score: int64): (i: nat)
    ensures i < Len(f)
    ensures forall j :: 0 <= j < i ==> score > Seps(f)[j]
    ensures i < Len(f) - 1 ==> score <= Seps(f)[i]
  {
    match f
    case Last(_) => 0
    case Cons(_, sep, rest) => if score > sep then 1 + Pick(rest, score) else 0
  }

  datatype SplitResult = SplitResult(left: Tree, promoted: int64, right: Tree)

  /** Splits a full node; the right half goes to cell `cell`. */
  function Split(t: Tree, cell: nat): (r: SplitResult)
    requires Full(t)
    ensures Height(r.left) <= Height(t) && Height(r.right) <= Height(t)
    ensures r.left.id == t.id && r.right.id == cell
  {
    match t
    case Leaf(id, es) =>
      SplitResult(Leaf(id, es[..2]), es[2].score, Leaf(cell, es[2..]))
    case Inner(id, f) =>
      var tail := f.rest;
      assert Len(f) > 2 && Len(tail) > 1;
      assert HeightF(tail.rest) <= HeightF(tail) <= HeightF(f);
      assert Height(f.t) <= HeightF(f) && Height(tail.t) <= HeightF(tail);
      assert HeightF(Cons(f.t, f.sep, Last(tail.t))) <= HeightF(f);
      SplitResult(Inner(id, Cons(f.t, f.sep, Last(tail.t))), tail.sep, Inner(cell, tail.rest))
  }

  /** g followed by separator sep and rest. */
  function Join(g: Forest, sep: int64, rest: Forest): Forest
  {
    match g
    case Last(t) => Cons(t, sep, rest)
    case Cons(t, s, g') => Cons(t, s, Join(g', sep, rest))
  }

  /** f with its i-th child replaced by the children of g. */
  function Graft(f: Forest, i: nat, g: Forest): Forest
    requires i < Len(f)
  {
    match f
    case Last(_) => g
    case Cons(t, sep, rest) =>
      if i == 0 then Join(g, sep, rest) else Cons(t, sep, Graft(rest, i - 1, g))
  }

  /** The tree after insertion, and the first cell still unused. */
  datatype Grown<T> = Grown(it: T, free: nat)

  function Insert(t: Tree, e: Entry, free: nat, names: seq<Bytes>): (r: Grown<Tree>)
    ensures r.it.id == t.id && free <= r.free
    decreases Height(t), 0
  {
    match t
    case Leaf(id, es) => Grown(Leaf(id, InsertAt(es, LeafPos(es, e, names), e)), free)
    case Inner(id, f) =>
      var i := Pick(f, e.score);
      var g := InsertChild(Nth(f, i), e, free, names);
      Grown(Inner(id, Graft(f, i, g.it)), g.free)
  }

  /** Splits a full child first, then descends into the half that takes the score. */
  function InsertChild(c: Tree, e: Entry, free: nat, names: seq<Bytes>): (r: Grown<Forest>)
    ensures free <= r.free
    decreases Height(c), 1
  {
    if !Full(c) then
      var g := Insert(c, e, free, names);
      Grown(Last(g.it), g.free)
    else
      var s := Split(c, free);
      if e.score >= s.promoted then
        var g := Insert(s.right, e, free + 1, names);
        Grown(Cons(s.left, s.promoted, Last(g.it)), g.free)
      else
        var g := Insert(s.left, e, free + 1, names);
        Grown(Cons(g.it, s.promoted, Last(s.right)), g.free)
  }

  /** Insertion at the root: a full root is split under a new root, which takes the first fresh cell. */
  function InsertRoot(t: Tree, e: Entry, free: nat, names: seq<Bytes>): (r: Grown<Tree>)
    ensures free <= r.free
  {
    if !Full(t) then Insert(t, e, free, names)
    else
      var g := InsertChild(t, e, free + 1, names);
      Grown(Inner(free, g.it), g.free)
  }

  // ----- Grafting keeps every view -----

  lemma {:induction false} JoinKeys(g: Forest, sep: int64, rest: Forest)
    ensures Len(Join(g, sep, rest)) == Len(g) + Len(rest)
    ensures Seps(Join(g, sep, rest)) == Seps(g) + [sep] + Seps(rest)
  {
    if g.Cons? { JoinKeys(g.rest, sep, rest); }
  }

  lemma {:induction false} JoinKidIds(g: Forest, sep: int64, rest: Forest)
    ensures KidIds(Join(g, sep, rest)) == KidIds(g) + KidIds(rest)
  {
    if g.Cons? { JoinKidIds(g.rest, sep, rest); }
  }

  lemma {:induction false} JoinEntries(g: Forest, sep: int64, rest: Forest)
    ensures EntriesF(Join(g, sep, rest)) == EntriesF(g) + EntriesF(rest)
  {
    if g.Cons? { JoinEntries(g.rest, sep, rest); }
  }

  lemma {:induction false} JoinIds(g: Forest, sep: int64, rest: Forest)
    ensures IdsF(Join(g, sep, rest)) == IdsF(g) + IdsF(rest)
  {
    if g.Cons? { JoinIds(g.rest, sep, rest); }
  }

  lemma {:induction false} GraftKeys(f: Forest, i: nat, g: Forest)
    requires i < Len(f)
    ensures Len(Graft(f, i, g)) == Len(f) - 1 + Len(g)
    ensures Seps(Graft(f, i, g)) == Seps(f)[..i] + Seps(g) + Seps(f)[i..]
  {
    if f.Cons? {
      if i == 0 {
        JoinKeys(g, f.sep, f.rest);
      } else {
        GraftKeys(f.rest, i - 1, g);
        ConsSlices(f.sep, Seps(f.rest), i - 1, i - 1, Seps(g));
      }
    }
  }

  lemma ConsSlices<T>(x: T, s: seq<T>, i: nat, j: nat, mid: seq<T>)
    requires i <= |s| && j <= |s|
    ensures [x] + (s[..i] + mid + s[j..]) == ([x] + s)[..i + 1] + mid + ([x] + s)[j + 1..]
  {
  }

  lemma {:induction false} GraftKidIds(f: Forest, i: nat, g: Forest)
    requires i < Len(f)
    ensures KidIds(Graft(f, i, g)) == KidIds(f)[..i] + KidIds(g) + KidIds(f)[i + 1..]
  {
    if f.Cons? {
      if i == 0 {
        JoinKidIds(g, f.sep, f.rest);
      } else {
        GraftKidIds(f.rest, i - 1, g);
        ConsSlices(f.t.id, KidIds(f.rest), i - 1, i, KidIds(g));
      }
    }
  }

  /** The cells of every child but the i-th. */
  function IdsBeside(f: Forest, i: nat): multiset<nat>
    requires i < Len(f)
  {
    match f
    case Last(_) => multiset{}
    case Cons(t, _, rest) => if i == 0 then IdsF(rest) else Ids(t) + IdsBeside(rest, i - 1)
  }

  lemma {:induction false} NthIds(f: Forest, i: nat)
    requires i < Len(f)
    ensures IdsF(f) == IdsBeside(f, i) + Ids(Nth(f, i))
  {
    if f.Cons? && i > 0 {
      NthIds(f.rest, i - 1);
      UnionAssociative(Ids(f.t), IdsBeside(f.rest, i - 1), Ids(Nth(f.rest, i - 1)));
    }
  }

  lemma {:induction false} GraftIds(f: Forest, i: nat, g: Forest)
    requires i < Len(f)
    ensures IdsF(Graft(f, i, g)) == IdsBeside(f, i) + IdsF(g)
  {
    if f.Cons? {
      if i == 0 {
        JoinIds(g, f.sep, f.rest);
      } else {
        GraftIds(f.rest, i - 1, g);
        UnionAssociative(Ids(f.t), IdsBeside(f.rest, i - 1), IdsF(g));
      }
    }
  }

  /** The entries of the children before the i-th. */
  function EntriesBefore(f: Forest, i: nat): seq<Entry>
    requires i <= Len(f)
  {
    if i == 0 then []
    else if f.Last? then Entries(f.t)
    else Entries(f.t) + EntriesBefore(f.rest, i - 1)
  }

  lemma {:induction false} EntriesBeforeStep(f: Forest, i: nat)
    requires i < Len(f)
    ensures EntriesBefore(f, i + 1) == EntriesBefore(f, i) + Entries(Nth(f, i))
  {
    if i > 0 { EntriesBeforeStep(f.rest, i - 1); }
  }

  lemma {:induction false} EntriesBeforeAll(f: Forest)
    ensures EntriesBefore(f, Len(f)) == EntriesF(f)
  {
    if f.Cons? { EntriesBeforeAll(f.rest); }
  }

  function EntriesAfter(f: Forest, i: nat): seq<Entry>
    requires i < Len(f)
  {
    match f
    case Last(_) => []
    case Cons(_, _, rest) => if i == 0 then EntriesF(rest) else EntriesAfter(rest, i - 1)
  }

  lemma {:induction false} GraftEntries(f: Forest, i: nat, g: Forest)
    requires i < Len(f)
    ensures EntriesF(f) == EntriesBefore(f, i) + Entries(Nth(f, i)) + EntriesAfter(f, i)
    ensures EntriesF(Graft(f, i, g)) == EntriesBefore(f, i) + EntriesF(g) + EntriesAfter(f, i)
  {
    if f.Cons? {
      if i == 0 { JoinEntries(g, f.sep, f.rest); } else { GraftEntries(f.rest, i - 1, g); }
    }
  }

  lemma {:induction false} NthShaped(f: Forest, i: nat)
    requires ShapedF(f) && i < Len(f)
    ensures Shaped(Nth(f, i))
  {
    if i > 0 { NthShaped(f.rest, i - 1); }
  }

  lemma {:induction false} JoinShaped(g: Forest, sep: int64, rest: Forest)
    ensures ShapedF(Join(g, sep, rest)) <==> ShapedF(g) && ShapedF(rest)
  {
    if g.Cons? { JoinShaped(g.rest, sep, rest); }
  }

  lemma {:induction false} GraftShaped(f: Forest, i: nat, g: Forest)
    requires ShapedF(f) && i < Len(f) && ShapedF(g)
    ensures ShapedF(Graft(f, i, g))
  {
    if f.Cons? {
      if i == 0 { JoinShaped(g, f.sep, f.rest); } else { GraftShaped(f.rest, i - 1, g); }
    }
  }

  lemma {:induction false} NthLevel(f: Forest, i: nat, h: nat)
    requires LevelF(f, h) && i < Len(f)
    ensures Level(Nth(f, i), h)
  {
    if i > 0 { NthLevel(f.rest, i - 1, h); }
  }

  lemma {:induction false} JoinLevel(g: Forest, sep: int64, rest: Forest, h: nat)
    ensures LevelF(Join(g, sep, rest), h) <==> LevelF(g, h) && LevelF(rest, h)
  {
    if g.Cons? { JoinLevel(g.rest, sep, rest, h); }
  }

  lemma {:induction false} GraftLevel(f: Forest, i: nat, g: Forest, h: nat)
    requires LevelF(f, h) && i < Len(f) && LevelF(g, h)
    ensures LevelF(Graft(f, i, g), h)
  {
    if f.Cons? {
      if i == 0 { JoinLevel(g, f.sep, f.rest, h); } else { GraftLevel(f.rest, i - 1, g, h); }
    }
  }

  function LowOf(f: Forest, i: nat, lo: int64): int64
    requires i < Len(f)
  {
    if i == 0 then lo else Seps(f)[i - 1]
  }

  function HighOf(f: Forest, i: nat, hi: int64): int64
    requires i < Len(f)
  {
    if i == Len(f) - 1 then hi else Seps(f)[i]
  }

  lemma {:induction false} NthOrdered(f: Forest, i: nat, lo: int64, hi: int64, names: seq<Bytes>)
    requires OrderedF(f, lo, hi, names) && i < Len(f)
    ensures Ordered(Nth(f, i), LowOf(f, i, lo), HighOf(f, i, hi), names)
  {
    if i > 0 { NthOrdered(f.rest, i - 1, f.sep, hi, names); }
  }

  lemma {:induction false} JoinOrdered(g: Forest, sep: int64, rest: Forest, lo: int64, hi: int64, names: seq<Bytes>)
    requires lo <= sep <= hi
    requires OrderedF(g, lo, sep, names) && OrderedF(rest, sep, hi, names)
    ensures OrderedF(Join(g, sep, rest), lo, hi, names)
  {
    if g.Cons? { JoinOrdered(g.rest, sep, rest, g.sep, hi, names); }
  }

  lemma {:induction false} GraftOrdered(f: Forest, i: nat, g: Forest, lo: int64, hi: int64, names: seq<Bytes>)
    requires OrderedF(f, lo, hi, names) && i < Len(f)
    requires OrderedF(g, LowOf(f, i, lo), HighOf(f, i, hi), names)
    ensures OrderedF(Graft(f, i, g), lo, hi, names)
  {
    if f.Cons? {
      if i == 0 {
        JoinOrdered(g, f.sep, f.rest, lo, hi, names);
      } else {
        GraftOrdered(f.rest, i - 1, g, f.sep, hi, names);
      }
    }
  }
}
