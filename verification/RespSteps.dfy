/** The decoder's single steps, as facts about verdicts and about the node store as a value. */
module RespSteps {
  import opened ByteStrings
  import opened Options
  import opened Cells
  import opened Decimal
  import opened RespSpec
  import opened RespLaws
  import opened RespNodes

  datatype Status = StatusNeedMore | StatusOk | StatusError | StatusUndefined

  function StatusOf(r: Verdict): Status
  {
    match r
    case NeedMore => StatusNeedMore
    case Bad => StatusError
    case Undefined => StatusUndefined
    case Done(_, _) => StatusOk
  }

  // ----- Absolute positions and the verdict on a suffix -----

  ghost predicate FirstCrlf(w: Bytes, from: nat, r: Option<nat>)
  {
    && (r.Some? ==> from <= r.value && CrlfAt(w, r.value) && forall j :: from <= j < r.value ==> !CrlfAt(w, j))
    && (r.None? ==> forall j :: from <= j ==> !CrlfAt(w, j))
  }

  lemma CrlfInSuffix(w: Bytes, pos: nat, r: Option<nat>)
    requires pos <= |w| && FirstCrlf(w, pos + 1, r)
    ensures FindCrlf(w[pos..], 1) == if r.Some? then Some(r.value - pos) else None
  {
    var s := w[pos..];
    forall j: int | 0 <= j ensures CrlfAt(s, j) == CrlfAt(w, pos + j) {}
    if r.Some? {
      FindCrlfIs(s, 1, r.value - pos);
    } else {
      assert forall j :: 1 <= j ==> !CrlfAt(s, j);
    }
  }

  lemma SubWindow(w: Bytes, pos: nat, end: nat, a: nat, b: nat)
    requires pos <= a <= b <= end <= |w|
    ensures w[pos..end][a - pos..b - pos] == w[a..b]
  {
    var x := w[pos..end];
    forall i | 0 <= i < b - a ensures x[a - pos..b - pos][i] == w[a..b][i] {
      assert x[a - pos + i] == w[a + i];
    }
  }

  lemma {:induction false} AccumulateSticks(s: Bytes, k: nat)
    requires k <= |s| && !Accumulate(s[..k]).Number?
    ensures Accumulate(s) == Accumulate(s[..k])
    decreases |s| - k
  {
    if k < |s| {
      assert s[..k + 1][..k] == s[..k];
      AccumulateSticks(s, k + 1);
    } else {
      assert s[..k] == s;
    }
  }

  lemma AccumulateNone(s: Bytes)
    ensures Accumulate(s[..0]) == Number(0)
  {
  }

  lemma AccumulateNext(s: Bytes, k: nat)
    requires k < |s|
    ensures Accumulate(s[..k + 1]) == AddDigit(Accumulate(s[..k]), s[k])
  {
    assert s[..k + 1][..k] == s[..k];
  }

  // ----- Appending a cell, on the store as a value -----

  function Link(st: seq<Node>, tail: Ptr, id: nat): seq<Node>
    requires id < |st| && (tail.Some? ==> tail.value < |st|)
  {
    var st' := st[id := st[id].(next := None, prev := tail)];
    if tail.Some? then st'[tail.value := st'[tail.value].(next := Some(id))] else st'
  }

  lemma LinkRep(st: seq<Node>, b: Bytes, l: List, id: nat, v: Value, kids: List)
    requires Rep(st, b, l, None) && id < |st|
    requires NodeStands(b, st[id], v, kids) && Rep(st, b, kids, None)
    requires Once(Ids(l) + (multiset{id} + Ids(kids)))
    ensures Tail(l).Some? ==> Tail(l).value < |st|
    ensures Rep(Link(st, Tail(l), id), b, Snoc(l, id, v, kids), None)
    ensures forall k :: 0 <= k < |st| && k !in Ids(l) + (multiset{id} + Ids(kids)) ==> Link(st, Tail(l), id)[k] == st[k]
  {
    hide Rep, Ids, NodeStands;
    PartsOnce(l, id, kids);
    if l.Cell? {
      TailIn(l);
      TailBound(st, b, l, None);
    }
    LinkCells(st, Tail(l), id);
    LinkStands(st, b, Tail(l), id, v, kids);
    hide Link;
    var st' := Link(st, Tail(l), id);
    RepSame(st, st', b, kids, None);
    AppendRep(st, st', b, l, None, id, v, kids);
  }

  lemma LinkCells(st: seq<Node>, tail: Ptr, id: nat)
    requires id < |st| && (tail.Some? ==> tail.value < |st| && tail.value != id)
    ensures var st' := Link(st, tail, id);
            && |st'| == |st|
            && st'[id] == st[id].(next := None, prev := tail)
            && (tail.Some? ==> st'[tail.value] == st[tail.value].(next := Some(id)))
            && forall k :: 0 <= k < |st| && k != id && Some(k) != tail ==> st'[k] == st[k]
  {
  }

  lemma LinkStands(st: seq<Node>, b: Bytes, tail: Ptr, id: nat, v: Value, kids: List)
    requires id < |st| && (tail.Some? ==> tail.value < |st| && tail.value != id)
    requires NodeStands(b, st[id], v, kids)
    ensures NodeStands(b, Link(st, tail, id)[id], v, kids)
  {
  }

  lemma LinkChain(st: seq<Node>, head: Ptr, free: seq<nat>, l: List, id: nat, kids: List)
    requires Chain(st, head, free) && id < |st| && (Tail(l).Some? ==> Tail(l).value < |st|)
    requires forall k :: k in Ids(l) + (multiset{id} + Ids(kids)) ==> k !in free
    ensures Chain(Link(st, Tail(l), id), head, free)
  {
    hide Chain, Ids;
    var all := Ids(l) + (multiset{id} + Ids(kids));
    assert id in all;
    if l.Cell? {
      TailIn(l);
      assert Tail(l).value in all;
    }
    assert forall k :: k in multiset(free) <==> k in free;
    ChainSame(st, Link(st, Tail(l), id), head, free);
  }

  lemma LinkHead(l: List, id: nat, v: Value, kids: List)
    ensures Tail(Snoc(l, id, v, kids)) == Some(id) && Len(Snoc(l, id, v, kids)) == Len(l) + 1
    ensures Head(Snoc(l, id, v, kids)) == if Tail(l).None? then Some(id) else Head(l)
  {
    SnocViews(l, id, v, kids);
    if l.Cell? { TailIn(l); }
  }

  lemma NilIds()
    ensures Ids(Nil) == multiset{}
  {
  }

  lemma RepNext(st: seq<Node>, b: Bytes, l: List, prev: Ptr)
    requires l.Cell? && Rep(st, b, l, prev)
    ensures l.id < |st| && st[l.id].next == Head(l.rest)
  {
  }

  /** A cell put in front of the free list. */
  lemma FreeFirst(m: RespNodes.Mem, head: Ptr, id: nat)
    requires Chain(m.st, head, m.free) && Sound(m) && id < |m.st| && id !in m.free
    ensures var st := m.st[id := m.st[id].(next := head, prev := None)];
            Chain(st, Some(id), [id] + m.free) && Sound(RespNodes.Mem(st, [id] + m.free))
  {
    var st := m.st[id := m.st[id].(next := head, prev := None)];
    ChainSame(m.st, st, head, m.free);
    assert ([id] + m.free)[1..] == m.free;
  }

  /** What a walk finds in the first cell of a list. */
  lemma RepReads(st: seq<Node>, b: Bytes, l: List, prev: Ptr)
    requires l.Cell? && Rep(st, b, l, prev)
    ensures l.id < |st| && st[l.id].next == Head(l.rest) && st[l.id].childHead == Head(l.kids)
    ensures var n := st[l.id];
            Reads(b, n.kind, n.integer, n.bulk, n.bulkLen, n.childTail, n.childCount, l.kids) == Some(l.v)
    ensures Rep(st, b, l.kids, None) && Rep(st, b, l.rest, Some(l.id))
  {
    hide Reads;
  }

  lemma RepParts(st: seq<Node>, b: Bytes, l: List, prev: Ptr)
    requires l.Cell? && Rep(st, b, l, prev)
    ensures l.id < |st| && st[l.id].childHead == Head(l.kids)
    ensures Rep(st, b, l.kids, None) && Rep(st, b, l.rest, Some(l.id))
  {
  }

  lemma ReleasedCounts(free: seq<nat>, free0: seq<nat>, kids: multiset<nat>, id: nat)
    requires multiset(free) == multiset(free0) + kids && id !in free0 && id !in kids
    ensures id !in free
    ensures multiset([id] + free) == multiset(free0) + (multiset{id} + kids)
  {
    assert id in free <==> id in multiset(free);
  }

  /** Taking the first cell of the free list. */
  lemma TakeFirst(m: RespNodes.Mem, head: Ptr)
    requires Sound(m) && Chain(m.st, head, m.free) && head.Some?
    ensures head.value < |m.st|
    ensures var m' := RespNodes.Mem(m.st[head.value := ZeroNode], m.free[1..]);
            Sound(m') && Chain(m'.st, m.st[head.value].next, m'.free) && Moved(m, m', multiset{head.value})
  {
    var id := head.value;
    var m' := RespNodes.Mem(m.st[id := ZeroNode], m.free[1..]);
    assert m.free == [id] + m'.free;
    assert multiset(m.free) == multiset{id} + multiset(m'.free);
    assert multiset(m.free)[id] <= 1;
    assert Range(|m.st|, |m.st|) == multiset{};
    assert Moved(m, m', multiset{id});
    MovedSound(m, m', multiset{id});
    ChainSame(m.st, m'.st, m.st[id].next, m'.free);
  }

  /** Allocating a cell when the free list is empty. */
  lemma GrowOne(m: RespNodes.Mem)
    requires Sound(m) && Chain(m.st, None, m.free)
    ensures var m' := RespNodes.Mem(m.st + [ZeroNode], m.free);
            Sound(m') && Chain(m'.st, None, m'.free) && Moved(m, m', multiset{|m.st|})
  {
    assert Range(|m.st|, |m.st| + 1) == multiset{|m.st|};
  }

  /** Only the given cells changed. */
  ghost predicate SameOutside(st: seq<Node>, st': seq<Node>, cells: multiset<nat>)
  {
    |st| == |st'| && forall k :: 0 <= k < |st| && k !in cells ==> st'[k] == st[k]
  }

  lemma NothingChanged(st: seq<Node>)
    ensures SameOutside(st, st, multiset{})
  {
  }

  lemma ChangedThen(a: seq<Node>, b: seq<Node>, c: seq<Node>, x: multiset<nat>, y: multiset<nat>)
    requires SameOutside(a, b, x) && SameOutside(b, c, y)
    ensures SameOutside(a, c, x + y)
  {
  }

  lemma ReleaseApart(l: List, given: multiset<nat>, all: multiset<nat>, free: multiset<nat>, free0: multiset<nat>)
    requires l.Cell? && given + Ids(l) == all && free == free0 + given && Once(free0 + all)
    ensures Once(free + Ids(l))
    ensures given + (multiset{l.id} + Ids(l.kids)) + Ids(l.rest) == all
    ensures forall k :: k == l.id || k in Ids(l.kids) ==> k in given + (multiset{l.id} + Ids(l.kids))
  {
    UnionAssociative(free0, given, Ids(l));
    UnionAssociative(given, multiset{l.id} + Ids(l.kids), Ids(l.rest));
  }

  lemma CellApart(l: List, free: multiset<nat>)
    requires l.Cell? && Once(free + Ids(l))
    ensures Once(free + Ids(l.kids)) && l.id !in free && l.id !in Ids(l.kids) && l.id !in Ids(l.rest)
    ensures forall k :: k in Ids(l.rest) ==> k !in free && k !in Ids(l.kids)
    ensures forall k :: k in Ids(l.kids) ==> k !in free
  {
    var a, b := Ids(l.kids), Ids(l.rest);
    forall k ensures free[k] + multiset{l.id}[k] + a[k] + b[k] <= 1 {
      assert (free + Ids(l))[k] <= 1;
    }
  }

  lemma PartsOnce(l: List, id: nat, kids: List)
    requires Once(Ids(l) + (multiset{id} + Ids(kids)))
    ensures Once(Ids(l)) && id !in Ids(l) && id !in Ids(kids)
    ensures forall k :: k in Ids(kids) ==> k !in Ids(l)
    ensures forall k :: k == id || k in Ids(l) || k in Ids(kids) ==> k in Ids(l) + (multiset{id} + Ids(kids))
  {
    hide Ids;
    var a, b := Ids(l), Ids(kids);
    forall k ensures a[k] + multiset{id}[k] + b[k] <= 1 {
      assert (a + (multiset{id} + b))[k] <= 1;
    }
  }

  lemma {:induction false} TailBound(st: seq<Node>, b: Bytes, l: List, prev: Ptr)
    requires l.Cell? && Rep(st, b, l, prev)
    ensures Tail(l).Some? && Tail(l).value < |st|
  {
    if l.rest.Cell? { TailBound(st, b, l.rest, Some(l.id)); }
  }

  lemma StayedPut(m: RespNodes.Mem)
    ensures Moved(m, m, Ids(Nil))
  {
    MovedNowhere(m);
  }

  /** The first decisions of the decoder. */
  lemma ParseCases(s: Bytes)
    ensures s == [] ==> Parse(s) == NeedMore
    ensures s != [] && !Typed(s[0]) ==> Parse(s) == ParseInline(s)
    ensures s != [] && Typed(s[0]) ==>
              Parse(s) == if FindCrlf(s, 1).None? then NeedMore else ParseTyped(s, FindCrlf(s, 1).value)
  {
  }

  // ----- The array loop, on verdicts -----

  function OfItems(r: ItemsVerdict): Verdict
  {
    match r
    case Stopped(why) => why
    case Items(vs, used) => Done(Array(vs), used)
  }

  function PrependAll(vs: seq<Value>, used: nat, r: ItemsVerdict): ItemsVerdict
  {
    if r.Items? then Items(vs + r.vs, used + r.used) else r
  }

  lemma ItemsBegin(s: Bytes, count: nat)
    ensures ParseItems(s, count) == PrependAll([], 0, ParseItems(s, count))
  {
    hide ParseItems;
    var r := ParseItems(s, count);
    if r.Items? { assert [] + r.vs == r.vs; }
  }

  lemma ItemsNext(vs: seq<Value>, used: nat, s: Bytes, count: nat)
    requires count > 0
    ensures var r := Parse(s);
            PrependAll(vs, used, ParseItems(s, count)) ==
            if r.Done? then PrependAll(vs + [r.v], used + r.used, ParseItems(s[r.used..], count - 1)) else Stopped(r)
  {
    ItemsStep(s, count);
    hide ParseItems, Parse;
    var r := Parse(s);
    if r.Done? {
      var more := ParseItems(s[r.used..], count - 1);
      if more.Items? { assert vs + ([r.v] + more.vs) == vs + [r.v] + more.vs; }
    }
  }

  lemma ItemsEnd(vs: seq<Value>, used: nat, s: Bytes)
    ensures PrependAll(vs, used, ParseItems(s, 0)) == Items(vs, used)
  {
    assert vs + [] == vs;
  }

  lemma NilListed(st: seq<Node>, b: Bytes)
    ensures Rep(st, b, Nil, None) && Head(Nil) == None && Tail(Nil) == None && Len(Nil) == 0 && Vals(Nil) == []
  {
  }

  lemma ArrayStands(b: Bytes, kids: List)
    ensures Reads(b, KArray, 0, 0, 0, Tail(kids), Len(kids), kids) == Some(Array(Vals(kids)))
  {
  }

  lemma FilledStands(b: Bytes, o: Out, n: Node, v: Value, kids: List)
    requires OutStands(b, o, v, kids)
    requires n.kind == o.kind && n.integer == o.integer && n.bulk == o.bulk && n.bulkLen == o.bulkLen
    requires if o.kind == KArray then n.childHead == o.arrayHead && n.childTail == o.arrayTail && n.childCount == o.arrayCount
             else n.childHead == None
    ensures NodeStands(b, n, v, kids)
  {
  }

  // ----- Cells held across a step -----

  lemma HoldThrough(m: RespNodes.Mem, m1: RespNodes.Mem, m2: RespNodes.Mem, held: multiset<nat>, more: multiset<nat>,
                    b: Bytes, l: List)
    requires Sound(m) && Moved(m, m1, held) && Moved(m1, m2, more)
    requires Ids(l) <= held && Rep(m1.st, b, l, None)
    ensures Moved(m, m2, held + more) && Rep(m2.st, b, l, None) && Agree(m1.st, m2.st, held)
  {
    hide Moved, Rep, Ids;
    MovedThen(m, m1, m2, held, more);
    RepSame(m1.st, m2.st, b, l, None);
  }

  lemma HeldUnchanged(m1: RespNodes.Mem, m2: RespNodes.Mem, held: multiset<nat>, id: nat)
    requires Agree(m1.st, m2.st, held) && id in held && id < |m1.st|
    ensures id < |m2.st| && m2.st[id] == m1.st[id]
  {
  }

  lemma SpareApart(l: List, child: nat)
    requires Once(Ids(l) + multiset{child})
    ensures child !in Ids(l) && child in Ids(l) + multiset{child}
  {
    assert (Ids(l) + multiset{child})[child] == Ids(l)[child] + 1;
  }

  lemma MovedOnce(m: RespNodes.Mem, m': RespNodes.Mem, held: multiset<nat>)
    requires Sound(m) && Moved(m, m', held)
    ensures Once(multiset(m'.free) + held)
  {
    forall k: nat ensures (multiset(m'.free) + held)[k] <= 1 {
      MovedCounts(m, m', held, k);
      assert k in m.free <==> multiset(m.free)[k] > 0;
    }
  }

  // ----- Tokens, one at a time -----

  lemma SkipBlanksIs(s: Bytes, i: nat, k: nat)
    requires i <= k <= |s| && (forall j :: i <= j < k ==> Blank(s[j])) && (k < |s| ==> !Blank(s[k]))
    ensures SkipBlanks(s, i) == k
  {
  }

  lemma TokenEndIs(s: Bytes, i: nat, k: nat)
    requires i <= k <= |s| && (forall j :: i <= j < k ==> !Blank(s[j])) && (k < |s| ==> Blank(s[k]))
    ensures TokenEnd(s, i) == k
  {
  }

  lemma TokensBegin(line: Bytes)
    ensures Bulks(Tokens(line, 0)) == [] + Bulks(Tokens(line, 0))
  {
  }

  lemma TokensNext(line: Bytes, i: nat)
    requires i <= |line|
    ensures SkipBlanks(line, i) < |line| ==> TokenEnd(line, SkipBlanks(line, i)) > i
  {
  }

  /** With nothing but blanks left, the tokens taken are all of them. */
  lemma NoMoreTokens(line: Bytes, i: nat, vs: seq<Value>)
    requires i <= |line| && Bulks(Tokens(line, 0)) == vs + Bulks(Tokens(line, i)) && SkipBlanks(line, i) >= |line|
    ensures Bulks(Tokens(line, 0)) == vs + Bulks(Tokens(line, |line|))
  {
    assert Tokens(line, i) == [] == Tokens(line, |line|);
  }

  /** One more token taken. */
  lemma TokenTaken(line: Bytes, i: nat, vs: seq<Value>, vs': seq<Value>)
    requires i <= |line| && Bulks(Tokens(line, 0)) == vs + Bulks(Tokens(line, i)) && SkipBlanks(line, i) < |line|
    requires var a := SkipBlanks(line, i); vs' == vs + [Bulk(line[a..TokenEnd(line, a)])]
    ensures Bulks(Tokens(line, 0)) == vs' + Bulks(Tokens(line, TokenEnd(line, SkipBlanks(line, i))))
  {
    hide Tokens, SkipBlanks, TokenEnd, Bulks;
    var a := SkipBlanks(line, i);
    var t, more := line[a..TokenEnd(line, a)], Tokens(line, TokenEnd(line, a));
    TokensSplit(line, i);
    BulksCons(t, more);
    assert vs + ([Bulk(t)] + Bulks(more)) == vs + [Bulk(t)] + Bulks(more);
  }

  lemma TokensSplit(line: Bytes, i: nat)
    requires i <= |line| && SkipBlanks(line, i) < |line|
    ensures var a := SkipBlanks(line, i);
            Tokens(line, i) == [line[a..TokenEnd(line, a)]] + Tokens(line, TokenEnd(line, a))
  {
  }

  lemma BulksCons(t: Bytes, ts: seq<Bytes>)
    ensures Bulks([t] + ts) == [Bulk(t)] + Bulks(ts)
  {
  }

  lemma TokensDone(line: Bytes, vs: seq<Value>)
    ensures vs + Bulks(Tokens(line, |line|)) == vs
  {
    assert Bulks([]) == [];
  }

  // ----- Conservation -----

  lemma ReturnedAll(m: RespNodes.Mem, m1: RespNodes.Mem, m2: RespNodes.Mem, held: multiset<nat>)
    requires Sound(m) && Moved(m, m1, held)
    requires |m2.st| == |m1.st| && multiset(m2.free) == multiset(m1.free) + held
    requires forall k :: 0 <= k < |m1.st| && k !in held ==> m2.st[k] == m1.st[k]
    ensures Moved(m, m2, multiset{})
  {
    assert multiset{} + held == held;
    MovedBack(m, m1, m2, multiset{}, held);
  }

  lemma ConservedAcross(m: RespNodes.Mem, m': RespNodes.Mem, live: multiset<nat>)
    requires Moved(m, m', multiset{}) && multiset(m.free) + live == Range(0, |m.st|)
    ensures multiset(m'.free) + live == Range(0, |m'.st|)
  {
    RangeSplit(0, |m.st|, |m'.st|);
    var a, b := multiset(m.free), Range(|m.st|, |m'.st|);
    assert multiset(m'.free) == a + b;
    assert a + b + live == a + live + b;
  }
}
