/** The member table beside the tree: names, scores, and the ranking that ZRANGE prints. */
module BTreeTable {
  import opened ByteStrings
  import opened Cells
  import opened Decimal
  import opened BTreeShape
  import opened BTreeLaws
  import opened BTreeNodes
  import opened BTreeGrowth
  import Replies

  datatype Member = Member(data: Bytes, score: int64)

  function NamesOf(ms: seq<Member>): (names: seq<Bytes>)
    ensures |names| == |ms| && forall i :: 0 <= i < |ms| ==> names[i] == ms[i].data
  {
    seq(|ms|, i requires 0 <= i < |ms| => ms[i].data)
  }

  /** The leaf slots that the first |ms| members should have. */
  function TableOf(ms: seq<Member>): (es: seq<Entry>)
    ensures |es| == |ms| && forall i :: 0 <= i < |ms| ==> es[i] == Entry(ms[i].score, i)
  {
    seq(|ms|, i requires 0 <= i < |ms| => Entry(ms[i].score, i))
  }

  predicate DistinctNames(ms: seq<Member>)
  {
    forall i, j :: 0 <= i < j < |ms| ==> ms[i].data != ms[j].data
  }

  /** The abstract sorted set: member to score. */
  ghost function ScoresOf(ms: seq<Member>): map<Bytes, int64>
  {
    if ms == [] then map[]
    else
      var k := |ms| - 1;
      ScoresOf(ms[..k])[ms[k].data := ms[k].score]
  }

  /**
  The nodes hold tree t in the first free cells; t lists exactly the first n of the members, and is the tree
  that adding them in table order builds.
  */
  ghost predicate Stores(a: seq<Node>, t: Tree, free: nat, ms: seq<Member>, n: nat)
    requires 0 < n <= |ms|
  {
    && Rep(a, t) && Good(t, free, NamesOf(ms)) && multiset(Entries(t)) == multiset(TableOf(ms)[..n])
    && Grown(t, free) == Grow(TableOf(ms)[..n], NamesOf(ms))
  }

  lemma GoodCells(t: Tree, n: nat, names: seq<Bytes>)
    requires Good(t, n, names)
    ensures Once(Ids(t), n)
  {
  }

  lemma TableBound(t: Tree, ms: seq<Member>, n: nat)
    requires n <= |ms| && multiset(Entries(t)) == multiset(TableOf(ms)[..n])
    ensures MidxBelow(t, |ms|) && |Entries(t)| == n
    ensures forall e :: e in Entries(t) <==> e in TableOf(ms)[..n]
  {
    forall e ensures e in Entries(t) <==> e in TableOf(ms)[..n] {
      assert e in multiset(Entries(t)) <==> e in multiset(TableOf(ms)[..n]);
    }
    assert |multiset(Entries(t))| == |Entries(t)| && |multiset(TableOf(ms)[..n])| == n;
  }

  lemma TableGrows(t: Tree, t': Tree, e: Entry, ms: seq<Member>, n: nat, k: nat)
    requires n < |ms| && multiset(Entries(t)) == multiset(TableOf(ms)[..n])
    requires k <= |Entries(t)| && Entries(t') == InsertAt(Entries(t), k, e) && e == TableOf(ms)[n]
    ensures multiset(Entries(t')) == multiset(TableOf(ms)[..n + 1])
    ensures |Entries(t')| == n + 1
  {
    TableBound(t, ms, n);
    InsertAtCounts(Entries(t), k, e);
    assert TableOf(ms)[..n + 1] == TableOf(ms)[..n] + [e];
  }

  /** A tree over n members uses so few cells that the next member always finds room. */
  lemma RoomForOneMore(t: Tree, e: Entry, free: nat, ms: seq<Member>, n: nat)
    requires 0 < n < |ms| && e == TableOf(ms)[n]
    requires Good(t, free, NamesOf(ms)) && multiset(Entries(t)) == multiset(TableOf(ms)[..n])
    ensures t.id < free && Once(Ids(t), free) && MidxBelow(t, |ms|)
    ensures var r := InsertRoot(t, e, free, NamesOf(ms));
            && r.free <= 2 * (n + 1) - 1
            && Good(r.it, r.free, NamesOf(ms))
            && multiset(Entries(r.it)) == multiset(TableOf(ms)[..n + 1])
  {
    var names := NamesOf(ms);
    var r := InsertRoot(t, e, free, names);
    GoodCells(t, free, names);
    assert t.id in Ids(t);
    TableBound(t, ms, n);
    InsertRootGood(t, e, free, names);
    InsertRootListing(t, e, free, names);
    TableGrows(t, r.it, e, ms, n, LandAtRoot(t, e, names));
    CellsBounded(r.it);
    assert |Range(0, r.free)| == r.free;
  }

  // ----- The abstract sorted set -----

  lemma {:induction false} ScoresAt(ms: seq<Member>, i: nat)
    requires DistinctNames(ms) && i < |ms|
    ensures ms[i].data in ScoresOf(ms) && ScoresOf(ms)[ms[i].data] == ms[i].score
  {
    var k := |ms| - 1;
    if i < k { ScoresAt(ms[..k], i); }
  }

  lemma {:induction false} ScoresOnly(ms: seq<Member>, name: Bytes)
    requires forall i :: 0 <= i < |ms| ==> ms[i].data != name
    ensures name !in ScoresOf(ms)
  {
    if ms != [] { ScoresOnly(ms[..|ms| - 1], name); }
  }

  lemma {:induction false} MemberCountIsSize(ms: seq<Member>)
    requires DistinctNames(ms)
    ensures |ScoresOf(ms)| == |ms|
  {
    if ms != [] {
      var k := |ms| - 1;
      MemberCountIsSize(ms[..k]);
      ScoresOnly(ms[..k], ms[k].data);
    }
  }

  lemma MemberAppended(ms: seq<Member>, m: Member)
    ensures ScoresOf(ms + [m]) == ScoresOf(ms)[m.data := m.score]
  {
    assert (ms + [m])[..|ms|] == ms;
  }

  lemma {:induction false} ScoreUpdated(ms: seq<Member>, x: nat, score: int64)
    requires DistinctNames(ms) && x < |ms|
    ensures ScoresOf(ms[x := Member(ms[x].data, score)]) == ScoresOf(ms)[ms[x].data := score]
  {
    var k, ms' := |ms| - 1, ms[x := Member(ms[x].data, score)];
    if x < k {
      ScoreUpdated(ms[..k], x, score);
      assert ms'[..k] == ms[..k][x := Member(ms[x].data, score)];
      assert ms[k].data != ms[x].data;
    } else {
      assert ms'[..k] == ms[..k];
    }
  }

  /** The member table after a ZADD: the member's score changes in place, or the member joins the end. */
  function Upsert(ms: seq<Member>, m: Member): seq<Member>
  {
    if ms == [] then [m]
    else if ms[0].data == m.data then [m] + ms[1..]
    else [ms[0]] + Upsert(ms[1..], m)
  }

  lemma {:induction false} UpsertFound(ms: seq<Member>, x: nat, m: Member)
    requires DistinctNames(ms) && x < |ms| && ms[x].data == m.data
    ensures Upsert(ms, m) == ms[x := m]
  {
    if x == 0 {
      assert ms[0 := m] == [m] + ms[1..];
    } else {
      UpsertFound(ms[1..], x - 1, m);
      assert ms[x := m] == [ms[0]] + ms[1..][x - 1 := m];
    }
  }

  lemma {:induction false} UpsertNew(ms: seq<Member>, m: Member)
    requires forall i :: 0 <= i < |ms| ==> ms[i].data != m.data
    ensures Upsert(ms, m) == ms + [m]
  {
    if ms != [] {
      UpsertNew(ms[1..], m);
      assert ms + [m] == [ms[0]] + (ms[1..] + [m]);
    }
  }

  /** The tree over a member table: the table decides it. */
  function Build(ms: seq<Member>): Grown<Tree>
    requires ms != []
  {
    Grow(TableOf(ms), NamesOf(ms))
  }

  /** A name added to the table does not disturb the order of the entries already indexed. */
  lemma NamesGrow(t: Tree, free: nat, ms: seq<Member>, m: Member)
    requires ms != [] && Good(t, free, NamesOf(ms)) && multiset(Entries(t)) == multiset(TableOf(ms)[..|ms|])
    requires Grown(t, free) == Grow(TableOf(ms)[..|ms|], NamesOf(ms))
    ensures Good(t, free, NamesOf(ms + [m])) && multiset(Entries(t)) == multiset(TableOf(ms + [m])[..|ms|])
    ensures Grown(t, free) == Grow(TableOf(ms + [m])[..|ms|], NamesOf(ms + [m]))
  {
    hide Grow;
    assert TableOf(ms + [m])[..|ms|] == TableOf(ms)[..|ms|];
    TableBound(t, ms, |ms|);
    GrowSame(TableOf(ms)[..|ms|], NamesOf(ms), NamesOf(ms + [m]));
    OrderedSame(t, INT64_MIN, INT64_MAX, NamesOf(ms), NamesOf(ms + [m]));
  }

  lemma {:induction false} OrderedSame(t: Tree, lo: int64, hi: int64, names: seq<Bytes>, names': seq<Bytes>)
    requires Ordered(t, lo, hi, names) && names <= names' && MidxBelow(t, |names|)
    ensures Ordered(t, lo, hi, names')
  {
    if t.Inner? { OrderedSameF(t.kids, lo, hi, names, names'); }
  }

  lemma {:induction false} OrderedSameF(f: Forest, lo: int64, hi: int64, names: seq<Bytes>, names': seq<Bytes>)
    requires OrderedF(f, lo, hi, names) && names <= names' && forall e :: e in EntriesF(f) ==> e.midx < |names|
    ensures OrderedF(f, lo, hi, names')
  {
    if f.Last? {
      OrderedSame(f.t, lo, hi, names, names');
    } else {
      OrderedSame(f.t, lo, f.sep, names, names');
      OrderedSameF(f.rest, f.sep, hi, names, names');
    }
  }

  // ----- Selecting entries by position -----

  function EntryNames(es: seq<Entry>, ms: seq<Member>): (ds: seq<Bytes>)
    requires forall e :: e in es ==> e.midx < |ms|
    ensures |ds| == |es| && forall i :: 0 <= i < |es| ==> ds[i] == ms[es[i].midx].data
  {
    seq(|es|, i requires 0 <= i < |es| => assert es[i] in es; ms[es[i].midx].data)
  }

  /** The names of the entries whose positions, counted from idx, lie in [start, stop]. */
  function Picked(es: seq<Entry>, idx: nat, start: int, stop: int, ms: seq<Member>): seq<Bytes>
    requires forall e :: e in es ==> e.midx < |ms|
  {
    if es == [] then []
    else (if start <= idx <= stop then [ms[es[0].midx].data] else []) + Picked(es[1..], idx + 1, start, stop, ms)
  }

  lemma {:induction false} PickedConcat(a: seq<Entry>, b: seq<Entry>, idx: nat, start: int, stop: int, ms: seq<Member>)
    requires forall e :: e in a || e in b ==> e.midx < |ms|
    ensures Picked(a + b, idx, start, stop, ms) ==
            Picked(a, idx, start, stop, ms) + Picked(b, idx + |a|, start, stop, ms)
  {
    if a == [] {
      assert a + b == b;
    } else {
      assert (a + b)[1..] == a[1..] + b;
      PickedConcat(a[1..], b, idx + 1, start, stop, ms);
      var x := if start <= idx <= stop then [ms[a[0].midx].data] else [];
      assert x + (Picked(a[1..], idx + 1, start, stop, ms) + Picked(b, idx + |a|, start, stop, ms)) ==
             x + Picked(a[1..], idx + 1, start, stop, ms) + Picked(b, idx + |a|, start, stop, ms);
    }
  }

  lemma CollectNone(idx: nat, start: int, stop: int, ms: seq<Member>, cap: nat, reply: Bytes)
    ensures Replies.CollectFitting(Picked([], idx, start, stop, ms), cap, reply) == reply
  {
  }

  lemma CollectMore(a: seq<Entry>, b: seq<Entry>, idx: nat, start: int, stop: int, ms: seq<Member>, cap: nat, reply: Bytes)
    requires forall e :: e in a || e in b ==> e.midx < |ms|
    ensures Replies.CollectFitting(Picked(a + b, idx, start, stop, ms), cap, reply) ==
            Replies.CollectFitting(Picked(b, idx + |a|, start, stop, ms), cap,
                                   Replies.CollectFitting(Picked(a, idx, start, stop, ms), cap, reply))
  {
    PickedConcat(a, b, idx, start, stop, ms);
    Replies.CollectConcat(Picked(a, idx, start, stop, ms), Picked(b, idx + |a|, start, stop, ms), cap, reply);
  }

  lemma CollectOne(e: Entry, idx: nat, start: int, stop: int, ms: seq<Member>, cap: nat, reply: Bytes)
    requires e.midx < |ms|
    ensures Replies.CollectFitting(Picked([e], idx, start, stop, ms), cap, reply) ==
            if start <= idx <= stop then Replies.AppendFitting(reply, Replies.ItemText(ms[e.midx].data), cap) else reply
  {
    assert [e][1..] == [];
    assert Picked([e], idx, start, stop, ms) == if start <= idx <= stop then [ms[e.midx].data] else [];
  }

  lemma {:induction false} PickedNone(es: seq<Entry>, idx: nat, lo: int, hi: int, ms: seq<Member>)
    requires forall e :: e in es ==> e.midx < |ms|
    requires idx + |es| <= lo || hi < idx
    ensures Picked(es, idx, lo, hi, ms) == []
  {
    if es != [] { PickedNone(es[1..], idx + 1, lo, hi, ms); }
  }

  lemma {:induction false} PickedAll(es: seq<Entry>, idx: nat, lo: int, hi: int, ms: seq<Member>)
    requires forall e :: e in es ==> e.midx < |ms|
    requires lo <= idx && idx + |es| <= hi + 1
    ensures Picked(es, idx, lo, hi, ms) == EntryNames(es, ms)
  {
    if es != [] {
      PickedAll(es[1..], idx + 1, lo, hi, ms);
      assert EntryNames(es, ms) == [ms[es[0].midx].data] + EntryNames(es[1..], ms);
    }
  }

  lemma PickedMiddle(a: seq<Entry>, b: seq<Entry>, c: seq<Entry>, lo: int, hi: int, ms: seq<Member>)
    requires forall e :: e in a || e in b || e in c ==> e.midx < |ms|
    requires |a| == lo && |a| + |b| == hi + 1
    ensures Picked(a + b + c, 0, lo, hi, ms) == EntryNames(b, ms)
  {
    hide Picked;
    PickedConcat(a + b, c, 0, lo, hi, ms);
    PickedConcat(a, b, 0, lo, hi, ms);
    PickedNone(a, 0, lo, hi, ms);
    PickedAll(b, lo, lo, hi, ms);
    PickedNone(c, hi + 1, lo, hi, ms);
  }

  /** Picking positions lo..hi is slicing the names. */
  lemma PickedSlice(es: seq<Entry>, lo: int, hi: int, ms: seq<Member>)
    requires forall e :: e in es ==> e.midx < |ms|
    requires 0 <= lo <= hi < |es|
    ensures Picked(es, 0, lo, hi, ms) == EntryNames(es, ms)[lo..hi + 1]
  {
    hide Picked;
    var a, b, c := es[..lo], es[lo..hi + 1], es[hi + 1..];
    PickedMiddle(a, b, c, lo, hi, ms);
    assert es == a + b + c;
    assert EntryNames(es, ms)[lo..hi + 1] == EntryNames(b, ms);
  }
}
