/**
The decoder's nodes: doubly linked lists threaded through a store of recycled cells. A pointer is the
index of a cell; a list value says which cells a list occupies and what it stands for.
*/
module RespNodes {
  import opened ByteStrings
  import opened Cells
  import opened Options
  import opened RespSpec

  type Ptr = Option<nat>

  datatype Kind = KIncomplete | KSimple | KError | KInteger | KBulk | KNull | KArray

  /** `bulk` is an offset into the parser's buffer: strings are not copied. */
  datatype Node = Node(next: Ptr, prev: Ptr, kind: Kind, integer: int, bulk: nat, bulkLen: nat,
                       childHead: Ptr, childTail: Ptr, childCount: nat)

  const ZeroNode: Node := Node(None, None, KIncomplete, 0, 0, 0, None, None, 0)

  /** The value handed to the caller. */
  datatype Out = Out(kind: Kind, integer: int, bulk: nat, bulkLen: nat,
                     arrayHead: Ptr, arrayTail: Ptr, arrayCount: nat)

  const NoValue: Out := Out(KIncomplete, 0, 0, 0, None, None, 0)

  /** First child, next sibling. */
  datatype List = Nil | Cell(id: nat, v: Value, kids: List, rest: List)

  function Head(l: List): Ptr
  {
    if l.Nil? then None else Some(l.id)
  }

  function Tail(l: List): Ptr
  {
    if l.Nil? then None else if l.rest.Nil? then Some(l.id) else Tail(l.rest)
  }

  function Len(l: List): nat
  {
    if l.Nil? then 0 else 1 + Len(l.rest)
  }

  function Vals(l: List): (vs: seq<Value>)
    ensures |vs| == Len(l)
  {
    if l.Nil? then [] else [l.v] + Vals(l.rest)
  }

  function Ids(l: List): multiset<nat>
  {
    if l.Nil? then multiset{} else multiset{l.id} + Ids(l.kids) + Ids(l.rest)
  }

  function Snoc(l: List, id: nat, v: Value, kids: List): List
  {
    if l.Nil? then Cell(id, v, kids, Nil) else l.(rest := Snoc(l.rest, id, v, kids))
  }

  // ----- What the cells stand for -----

  /** The value that the type-specific fields stand for, given the children; only an array has any. */
  function Reads(buf: Bytes, kind: Kind, integer: int, bulk: nat, bulkLen: nat,
                 tail: Ptr, count: nat, kids: List): Option<Value>
  {
    if kind == KArray then
      if tail == Tail(kids) && count == Len(kids) then Some(Array(Vals(kids))) else None
    else if kids.Cell? then None
    else if kind == KInteger then Some(Integer(integer))
    else if kind == KNull then Some(Null)
    else if bulk + bulkLen > |buf| then None
    else
      var text := buf[bulk..bulk + bulkLen];
      match kind
      case KSimple => Some(Simple(text))
      case KError => Some(Error(text))
      case KBulk => Some(Bulk(text))
      case _ => None
  }

  predicate NodeStands(buf: Bytes, n: Node, v: Value, kids: List)
  {
    && n.childHead == Head(kids)
    && Reads(buf, n.kind, n.integer, n.bulk, n.bulkLen, n.childTail, n.childCount, kids) == Some(v)
  }

  predicate OutStands(buf: Bytes, o: Out, v: Value, kids: List)
  {
    && o.arrayHead == Head(kids)
    && Reads(buf, o.kind, o.integer, o.bulk, o.bulkLen, o.arrayTail, o.arrayCount, kids) == Some(v)
  }

  /** The store holds list l, whose first cell points back to prev. */
  predicate Rep(st: seq<Node>, buf: Bytes, l: List, prev: Ptr)
  {
    l.Cell? ==>
    && l.id < |st|
    && st[l.id].next == Head(l.rest) && st[l.id].prev == prev
    && NodeStands(buf, st[l.id], l.v, l.kids)
    && Rep(st, buf, l.kids, None)
    && Rep(st, buf, l.rest, Some(l.id))
  }

  /** The free list: the cells ids, linked through next. */
  predicate Chain(st: seq<Node>, head: Ptr, ids: seq<nat>)
    decreases ids
  {
    if ids == [] then head == None
    else head == Some(ids[0]) && ids[0] < |st| && Chain(st, st[ids[0]].next, ids[1..])
  }

  // ----- Frames -----

  ghost predicate Agree(st: seq<Node>, st': seq<Node>, cells: multiset<nat>)
  {
    |st| <= |st'| && forall k :: k in cells && k < |st| ==> st'[k] == st[k]
  }

  lemma AgreeParts(st: seq<Node>, st': seq<Node>, x: multiset<nat>, y: multiset<nat>)
    requires Agree(st, st', x + y)
    ensures Agree(st, st', x) && Agree(st, st', y)
  {
    assert forall k :: k in x || k in y ==> k in x + y;
  }

  lemma {:induction false} RepSame(st: seq<Node>, st': seq<Node>, buf: Bytes, l: List, prev: Ptr)
    requires Rep(st, buf, l, prev) && Agree(st, st', Ids(l))
    ensures Rep(st', buf, l, prev)
  {
    if l.Cell? {
      assert l.id in Ids(l);
      AgreeParts(st, st', multiset{l.id} + Ids(l.kids), Ids(l.rest));
      AgreeParts(st, st', multiset{l.id}, Ids(l.kids));
      RepSame(st, st', buf, l.kids, None);
      RepSame(st, st', buf, l.rest, Some(l.id));
    }
  }

  lemma {:induction false} ChainSame(st: seq<Node>, st': seq<Node>, head: Ptr, ids: seq<nat>)
    requires Chain(st, head, ids) && Agree(st, st', multiset(ids))
    ensures Chain(st', head, ids)
    decreases ids
  {
    if ids != [] {
      assert ids == [ids[0]] + ids[1..];
      AgreeParts(st, st', multiset{ids[0]}, multiset(ids[1..]));
      ChainSame(st, st', st[ids[0]].next, ids[1..]);
    }
  }

  lemma {:induction false} ChainBounds(st: seq<Node>, head: Ptr, ids: seq<nat>)
    requires Chain(st, head, ids)
    ensures forall k :: k in ids ==> k < |st|
    decreases ids
  {
    if ids != [] {
      ChainBounds(st, st[ids[0]].next, ids[1..]);
      forall k | k in ids ensures k < |st| { assert k == ids[0] || k in ids[1..]; }
    }
  }

  // ----- Appending -----

  lemma {:induction false} SnocViews(l: List, id: nat, v: Value, kids: List)
    ensures Tail(Snoc(l, id, v, kids)) == Some(id) && Len(Snoc(l, id, v, kids)) == Len(l) + 1
    ensures Vals(Snoc(l, id, v, kids)) == Vals(l) + [v]
    ensures Head(Snoc(l, id, v, kids)) == if l.Nil? then Some(id) else Head(l)
  {
    if l.Cell? {
      SnocViews(l.rest, id, v, kids);
      assert [l.v] + (Vals(l.rest) + [v]) == [l.v] + Vals(l.rest) + [v];
    }
  }

  lemma {:induction false} SnocIds(l: List, id: nat, v: Value, kids: List)
    ensures Ids(Snoc(l, id, v, kids)) == Ids(l) + (multiset{id} + Ids(kids))
  {
    if l.Cell? {
      SnocIds(l.rest, id, v, kids);
      var a, b, c := multiset{l.id} + Ids(l.kids), Ids(l.rest), multiset{id} + Ids(kids);
      assert a + (b + c) == a + b + c;
    }
  }

  lemma {:induction false} TailIn(l: List)
    requires l.Cell?
    ensures Tail(l).Some? && Tail(l).value in Ids(l)
  {
    if l.rest.Cell? { TailIn(l.rest); }
  }

  ghost predicate Once(cells: multiset<nat>)
  {
    forall k :: cells[k] <= 1
  }

  lemma IdsApart(l: List)
    requires l.Cell? && Once(Ids(l))
    ensures l.id !in Ids(l.kids) && l.id !in Ids(l.rest) && l.id in Ids(l)
    ensures Once(Ids(l.kids)) && Once(Ids(l.rest))
    ensures forall k :: k in Ids(l.kids) ==> k !in Ids(l.rest) && k in Ids(l)
    ensures forall k :: k in Ids(l.rest) ==> k in Ids(l)
  {
    var a, b := Ids(l.kids), Ids(l.rest);
    forall k ensures Ids(l)[k] == (if k == l.id then 1 else 0) + a[k] + b[k] {}
    forall k | k in a ensures k !in b && k != l.id && k in Ids(l) {}
    forall k | k in b ensures k != l.id && k in Ids(l) {}
  }

  /** The new last cell is linked to the old last cell in both directions. */
  lemma {:induction false} AppendRep(st: seq<Node>, st': seq<Node>, buf: Bytes, l: List, prev: Ptr,
                                     id: nat, v: Value, kids: List)
    requires Rep(st, buf, l, prev) && |st| == |st'| && id < |st| && Once(Ids(l))
    requires NodeStands(buf, st'[id], v, kids) && Rep(st', buf, kids, None)
    requires st'[id].next == None && st'[id].prev == if l.Nil? then prev else Tail(l)
    requires forall k :: k in Ids(l) && Some(k) != Tail(l) && k < |st| ==> st'[k] == st[k]
    requires l.Cell? ==> Tail(l).Some? && Tail(l).value < |st| &&
                         st'[Tail(l).value] == st[Tail(l).value].(next := Some(id))
    ensures Rep(st', buf, Snoc(l, id, v, kids), prev)
  {
    if l.Cell? {
      IdsApart(l);
      TailIn(l);
      if l.rest.Cell? { TailIn(l.rest); }
      AppendRep(st, st', buf, l.rest, Some(l.id), id, v, kids);
      assert Rep(st', buf, l.kids, None) by { RepSame(st, st', buf, l.kids, None); }
      Relinked(st, st', buf, l, prev, Snoc(l.rest, id, v, kids));
    }
  }

  lemma Relinked(st: seq<Node>, st': seq<Node>, buf: Bytes, l: List, prev: Ptr, rest: List)
    requires l.Cell? && Rep(st, buf, l, prev) && |st| == |st'|
    requires st'[l.id] == st[l.id].(next := Head(rest))
    requires Rep(st', buf, l.kids, None) && Rep(st', buf, rest, Some(l.id))
    ensures Rep(st', buf, l.(rest := rest), prev)
  {
  }

  // ----- Who holds which cell -----

  /** The store together with the cells on the free list. */
  datatype Mem = Mem(st: seq<Node>, free: seq<nat>)

  /** Every free cell exists and is on the free list once. */
  ghost predicate Sound(m: Mem)
  {
    Once(multiset(m.free)) && forall k :: k in m.free ==> k < |m.st|
  }

  /**
  From m to m' the cells in held were taken, out of the free list or newly allocated; every other cell
  of the two is still on the free list, and no cell that was in use has changed.
  */
  ghost predicate Moved(m: Mem, m': Mem, held: multiset<nat>)
  {
    && |m.st| <= |m'.st|
    && multiset(m'.free) + held == multiset(m.free) + Range(|m.st|, |m'.st|)
    && forall k :: 0 <= k < |m.st| && k !in m.free ==> m'.st[k] == m.st[k]
  }

  lemma MovedNowhere(m: Mem)
    ensures Moved(m, m, multiset{})
  {
  }

  lemma MovedCounts(m: Mem, m': Mem, held: multiset<nat>, k: nat)
    requires Moved(m, m', held)
    ensures multiset(m'.free)[k] + held[k] == multiset(m.free)[k] + Range(|m.st|, |m'.st|)[k]
  {
    assert (multiset(m'.free) + held)[k] == (multiset(m.free) + Range(|m.st|, |m'.st|))[k];
  }

  /** Held cells exist, are held once, and are not free. */
  lemma MovedSound(m: Mem, m': Mem, held: multiset<nat>)
    requires Sound(m) && Moved(m, m', held)
    ensures Sound(m') && Once(held)
    ensures forall k :: k in held ==> k < |m'.st| && k !in m'.free
    ensures forall k :: k in held || k in m'.free ==> k in m.free || k >= |m.st|
  {
    forall k: nat
      ensures multiset(m'.free)[k] + held[k] <= 1
      ensures k in held || k in m'.free ==> k < |m'.st| && (k in m.free || k >= |m.st|)
    {
      MovedCounts(m, m', held, k);
      assert k in m.free <==> multiset(m.free)[k] > 0;
      assert k in m'.free <==> multiset(m'.free)[k] > 0;
    }
    forall k | k in held ensures k !in m'.free {
      assert k in m'.free <==> multiset(m'.free)[k] > 0;
    }
  }

  /** Steps compose: what the first took is out of reach of the second. */
  lemma MovedThen(m: Mem, m1: Mem, m2: Mem, h1: multiset<nat>, h2: multiset<nat>)
    requires Sound(m) && Moved(m, m1, h1) && Moved(m1, m2, h2)
    ensures Moved(m, m2, h1 + h2) && Agree(m1.st, m2.st, h1)
  {
    MovedSound(m, m1, h1);
    RangeSplit(|m.st|, |m1.st|, |m2.st|);
    var f, f1, f2 := multiset(m.free), multiset(m1.free), multiset(m2.free);
    var r1, r2 := Range(|m.st|, |m1.st|), Range(|m1.st|, |m2.st|);
    assert f2 + (h1 + h2) == h1 + (f2 + h2) by { UnionRotates(f2, h1, h2); }
    assert h1 + (f1 + r2) == f1 + h1 + r2;
    UnionAssociative(f, r1, r2);
  }

  /** Giving some held cells back. */
  lemma MovedBack(m: Mem, m1: Mem, m2: Mem, held: multiset<nat>, back: multiset<nat>)
    requires Sound(m) && Moved(m, m1, held + back)
    requires |m2.st| == |m1.st| && multiset(m2.free) == multiset(m1.free) + back
    requires forall k :: 0 <= k < |m1.st| && k !in back ==> m2.st[k] == m1.st[k]
    ensures Moved(m, m2, held)
  {
    MovedSound(m, m1, held + back);
    assert multiset(m1.free) + back + held == multiset(m1.free) + (held + back);
    forall k | 0 <= k < |m.st| && k !in m.free ensures k !in back {
      assert k !in held + back;
    }
  }

  /** Writing to held cells. */
  lemma MovedWrite(m: Mem, m1: Mem, m2: Mem, held: multiset<nat>)
    requires Sound(m) && Moved(m, m1, held)
    requires |m2.st| == |m1.st| && m2.free == m1.free
    requires forall k :: 0 <= k < |m1.st| && k !in held ==> m2.st[k] == m1.st[k]
    ensures Moved(m, m2, held)
  {
    MovedSound(m, m1, held);
  }
}
