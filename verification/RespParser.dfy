/**
The streaming parser: a fixed buffer with a read and a write position, a store of recycled nodes, and
the recursive decoder that fills in values node by node.
*/
module RespParser {
  import opened ByteStrings
  import opened Options
  import opened Cells
  import opened Decimal
  import opened RespSpec
  import opened RespLaws
  import opened RespNodes
  import opened RespSteps

  class Parser {
    const buf: array<byte>
    var rPos: nat
    var wPos: nat
    var store: seq<Node>
    var freeList: Ptr
    ghost var frees: seq<nat>

    ghost predicate Valid()
      reads this
    {
      rPos <= wPos <= buf.Length && Chain(store, freeList, frees) && Sound(Mem())
    }

    ghost function Mem(): Mem
      reads this
    {
      RespNodes.Mem(store, frees)
    }

    /** The bytes fed and not yet consumed. */
    ghost function Unread(): Bytes
      requires rPos <= wPos <= buf.Length
      reads this, buf
    {
      buf[rPos..wPos]
    }

    /** head, tail and count describe the list l in the store. */
    ghost predicate Listed(l: List, head: Ptr, tail: Ptr, count: nat)
      reads this, buf
    {
      head == Head(l) && tail == Tail(l) && count == Len(l) && Rep(store, buf[..], l, None)
    }

    constructor (cap: nat)
      ensures Valid() && fresh(buf) && buf.Length == (if cap == 0 then 65536 else cap)
      ensures Unread() == [] && Mem() == RespNodes.Mem([], [])
    {
      buf := new byte[if cap == 0 then 65536 else cap](_ => 0);
      rPos, wPos := 0, 0;
      store, freeList, frees := [], None, [];
    }

    // ----- Nodes -----

    method NodeAlloc() returns (id: nat)
      requires Valid()
      modifies this`store, this`freeList, this`frees
      ensures Valid() && Moved(old(Mem()), Mem(), multiset{id})
      ensures id < |store| && store[id] == ZeroNode
    {
      ghost var m := Mem();
      if freeList.Some? {
        id := freeList.value;
        TakeFirst(m, freeList);
        freeList := store[id].next;
        store := store[id := ZeroNode];
        frees := frees[1..];
      } else {
        id := |store|;
        GrowOne(m);
        store := store + [ZeroNode];
      }
    }

    method NodeFree(id: nat)
      requires Valid() && id < |store| && id !in frees
      modifies this`store, this`freeList, this`frees
      ensures Valid() && frees == [id] + old(frees)
      ensures |store| == |old(store)| && forall k :: 0 <= k < |store| && k != id ==> store[k] == old(store)[k]
    {
      hide Chain, Sound;
      FreeFirst(Mem(), freeList, id);
      store := store[id := store[id].(next := freeList, prev := None)];
      freeList := Some(id);
      frees := [id] + frees;
    }

    /** Returns every cell of a list, nested lists included, to the free list. */
    method NodeListRelease(first: Ptr, ghost l: List, ghost prev: Ptr)
      requires Valid() && first == Head(l) && Rep(store, buf[..], l, prev)
      requires Once(multiset(frees) + Ids(l))
      modifies this`store, this`freeList, this`frees
      ensures Valid() && multiset(frees) == multiset(old(frees)) + Ids(l)
      ensures SameOutside(old(store), store, Ids(l))
      decreases l, 1
    {
      hide Valid, Rep, Ids, Once, SameOutside;
      ghost var st := store;
      NothingChanged(st);
      var head := first;
      NilIds();
      ghost var rest, before, given := l, prev, multiset{};
      while head.Some?
        invariant Valid() && head == Head(rest) && Rep(store, buf[..], rest, before)
        invariant given + Ids(rest) == Ids(l) && multiset(frees) == multiset(old(frees)) + given
        invariant SameOutside(st, store, given)
        invariant rest == l || rest < l
        decreases rest
      {
        RepNext(store, buf[..], rest, before);
        var next := store[head.value].next;
        ReleaseApart(rest, given, Ids(l), multiset(frees), multiset(old(frees)));
        ghost var mid := store;
        NodeRelease(head.value, rest, before);
        ChangedThen(st, mid, store, given, multiset{rest.id} + Ids(rest.kids));
        given := given + (multiset{rest.id} + Ids(rest.kids));
        before, rest, head := head, rest.rest, next;
      }
      assert given + multiset{} == given;
    }

    /** Returns one cell and the cells below it; the rest of its list stays as it was. */
    method NodeRelease(id: nat, ghost l: List, ghost prev: Ptr)
      requires Valid() && l.Cell? && id == l.id && Rep(store, buf[..], l, prev)
      requires Once(multiset(frees) + Ids(l))
      modifies this`store, this`freeList, this`frees
      ensures Valid() && multiset(frees) == multiset(old(frees)) + (multiset{id} + Ids(l.kids))
      ensures SameOutside(old(store), store, multiset{id} + Ids(l.kids))
      ensures Rep(store, buf[..], l.rest, Some(id))
      decreases l, 0
    {
      hide Valid, Rep, Ids, Once;
      ghost var st, free := store, frees;
      CellApart(l, multiset(frees));
      RepParts(store, buf[..], l, prev);
      NilIds();
      if store[id].childHead.Some? {
        NodeListRelease(store[id].childHead, l.kids, None);
        ReleasedCounts(frees, free, Ids(l.kids), id);
        SetNode(id, store[id].(childHead := None));
      }
      ReleasedCounts(frees, free, Ids(l.kids), id);
      NodeFree(id);
      RepSame(st, store, buf[..], l.rest, Some(id));
    }

    method SetNode(id: nat, node: Node)
      requires Valid() && id < |store| && id !in frees
      modifies this`store
      ensures Valid() && store == old(store)[id := node]
    {
      ghost var st := store;
      store := store[id := node];
      ChainSame(st, store, freeList, frees);
    }

    method NodeAppend(head: Ptr, tail: Ptr, count: nat, id: nat, ghost l: List, ghost v: Value, ghost kids: List)
      returns (head': Ptr, tail': Ptr, count': nat)
      requires Valid() && Listed(l, head, tail, count) && id < |store|
      requires NodeStands(buf[..], store[id], v, kids) && Rep(store, buf[..], kids, None)
      requires Once(Ids(l) + (multiset{id} + Ids(kids)))
      requires forall k :: k in Ids(l) + (multiset{id} + Ids(kids)) ==> k !in frees
      modifies this`store
      ensures Valid() && Listed(Snoc(l, id, v, kids), head', tail', count')
      ensures |store| == |old(store)|
      ensures forall k :: 0 <= k < |store| && k !in Ids(l) + (multiset{id} + Ids(kids)) ==> store[k] == old(store)[k]
    {
      hide Rep, NodeStands, Chain, Ids, Once;
      LinkRep(store, buf[..], l, id, v, kids);
      LinkChain(store, freeList, frees, l, id, kids);
      LinkHead(l, id, v, kids);
      store := store[id := store[id].(next := None, prev := tail)];
      if tail.Some? {
        store := store[tail.value := store[tail.value].(next := Some(id))];
        head' := head;
      } else {
        head' := Some(id);
      }
      tail', count' := Some(id), count + 1;
    }

    // ----- Scanning -----

    method FindCrlfFrom(from: nat) returns (r: Option<nat>)
      requires wPos <= buf.Length
      ensures FirstCrlf(buf[..wPos], from, r)
    {
      var i := from;
      while i + 1 < wPos
        invariant from <= i
        invariant forall j :: from <= j < i ==> !CrlfAt(buf[..wPos], j)
      {
        if buf[i] == CR && buf[i + 1] == LF {
          return Some(i);
        }
        i := i + 1;
      }
      return None;
    }

    method ScanInt(from: nat, to: nat) returns (r: Scan)
      requires from <= to <= buf.Length
      ensures r == ParseInt(buf[from..to])
    {
      hide Accumulate;
      if from >= to {
        return NotANumber;
      }
      var i, neg := from, false;
      if buf[i] == MINUS {
        neg := true;
        i := i + 1;
      }
      if i >= to || !IsDigit(buf[i]) {
        return NotANumber;
      }
      ghost var digits := buf[i..to];
      assert digits == if neg then buf[from..to][1..] else buf[from..to];
      ghost var first := i;
      var value := 0;
      AccumulateNone(digits);
      while i < to
        invariant first <= i <= to && Accumulate(digits[..i - first]) == Number(value)
      {
        ghost var k := i - first;
        AccumulateNext(digits, k);
        SliceAt(buf[..], first, i, to);
        if !IsDigit(buf[i]) {
          AccumulateSticks(digits, k + 1);
          return NotANumber;
        }
        if value * 10 + (buf[i] - 48) > INT64_MAX {
          AccumulateSticks(digits, k + 1);
          return Overflow;
        }
        value := value * 10 + (buf[i] - 48);
        i := i + 1;
      }
      assert digits[..to - first] == digits;
      return Number(if neg then -value else value);
    }

    // ----- Decoding -----

    /** The outcome of decoding agrees with verdict r; the value's cells are exactly those of kids. */
    ghost predicate Parsed(r: Verdict, pos: nat, status: Status, pos': nat, out: Out, kids: List)
      reads this, buf
    {
      && status == StatusOf(r)
      && (r.Done? ==> pos' == pos + r.used && OutStands(buf[..], out, r.v, kids) && Rep(store, buf[..], kids, None))
      && (!r.Done? ==> kids == Nil)
    }

    method ParseValue(pos: nat) returns (status: Status, pos': nat, out: Out, ghost kids: List)
      requires Valid() && pos <= wPos
      modifies this`store, this`freeList, this`frees
      ensures Valid() && Moved(old(Mem()), Mem(), Ids(kids))
      ensures Parsed(Parse(buf[pos..wPos]), pos, status, pos', out, kids)
      decreases wPos - pos, 1
    {
      hide Chain, Sound, Moved, Rep, Ids, Parse, ParseTyped, ParseInt, ParseInline, FindCrlf;
      pos', out, kids := pos, NoValue, Nil;
      StayedPut(Mem());
      ghost var s := buf[pos..wPos];
      ParseCases(s);
      if pos >= wPos {
        return StatusNeedMore, pos', out, kids;
      }
      var prefix := buf[pos];
      if !Typed(prefix) {
        status, pos', out, kids := ParseInlineLine(pos);
        return;
      }
      var crlf := FindCrlfFrom(pos + 1);
      assert buf[..wPos][pos..] == s;
      CrlfInSuffix(buf[..wPos], pos, crlf);
      if crlf.None? {
        return StatusNeedMore, pos', out, kids;
      }
      status, pos', out, kids := ParseLine(pos, crlf.value, prefix);
    }

    /** Decodes a typed message whose first line ends at crlf. */
    method ParseLine(pos: nat, crlf: nat, prefix: byte) returns (status: Status, pos': nat, out: Out, ghost kids: List)
      requires Valid() && pos < crlf && crlf + 1 < wPos && buf[crlf] == CR && buf[crlf + 1] == LF && prefix == buf[pos]
      modifies this`store, this`freeList, this`frees
      ensures Valid() && Moved(old(Mem()), Mem(), Ids(kids))
      ensures CrlfAt(buf[pos..wPos], crlf - pos)
      ensures Parsed(ParseTyped(buf[pos..wPos], crlf - pos), pos, status, pos', out, kids)
      decreases wPos - pos, 0
    {
      hide Chain, Sound, Moved, Rep, Ids, ParseInt, ParseItems;
      pos', out, kids := pos, NoValue, Nil;
      StayedPut(Mem());
      NilListed(store, buf[..]);
      ghost var s := buf[pos..wPos];
      ghost var line := s[1..crlf - pos];
      SubWindow(buf[..], pos, wPos, pos + 1, crlf);
      SliceAt(buf[..], pos, crlf, wPos);
      SliceAt(buf[..], pos, crlf + 1, wPos);
      assert CrlfAt(s, crlf - pos);
      if prefix == PLUS || prefix == MINUS {
        var kind := if prefix == PLUS then KSimple else KError;
        out := out.(kind := kind, bulk := pos + 1, bulkLen := crlf - (pos + 1));
        assert buf[..][pos + 1..crlf] == line;
        return StatusOk, crlf + 2, out, kids;
      }
      var n := ScanInt(pos + 1, crlf);
      if !n.Number? {
        return StatusOf(FromScan(n)), pos', out, kids;
      }
      if prefix == COLON {
        return StatusOk, crlf + 2, out.(kind := KInteger, integer := n.value), kids;
      }
      if prefix == DOLLAR {
        status, pos', out := ParseBulkBody(pos, crlf, n.value);
        return;
      }
      if n.value < 0 {
        return StatusOk, crlf + 2, out.(kind := KNull), kids;
      }
      assert s[crlf - pos + 2..] == buf[crlf + 2..wPos];
      status, pos', out, kids := ParseArray(crlf + 2, n.value);
    }

    /** The body of a bulk string is a window into the buffer; no node is needed. */
    method ParseBulkBody(pos: nat, crlf: nat, len: int) returns (status: Status, pos': nat, out: Out)
      requires Valid() && pos < crlf && crlf + 1 < wPos && buf[crlf] == CR && buf[crlf + 1] == LF
      ensures CrlfAt(buf[pos..wPos], crlf - pos)
      ensures Parsed(ParseBulk(buf[pos..wPos], crlf - pos, len), pos, status, pos', out, Nil)
    {
      hide Chain, Sound;
      pos', out := pos, NoValue;
      ghost var s := buf[pos..wPos];
      assert CrlfAt(s, crlf - pos);
      if len < 0 {
        return StatusOk, crlf + 2, out.(kind := KNull);
      }
      var start, end := crlf + 2, crlf + 2 + len;
      if end + 2 > wPos {
        return StatusNeedMore, pos', out;
      }
      if buf[end] != CR || buf[end + 1] != LF {
        return StatusError, pos', out;
      }
      assert s == buf[..][pos..wPos];
      SubWindow(buf[..], pos, wPos, start, end);
      return StatusOk, end + 2, out.(kind := KBulk, bulk := start, bulkLen := len);
    }

    /** Fills in a blank cell from a decoded value and appends it to the list. */
    method Attach(child: nat, nested: Out, head: Ptr, tail: Ptr, n: nat,
                  ghost l: List, ghost v: Value, ghost kids: List, ghost m: RespNodes.Mem)
      returns (head': Ptr, tail': Ptr, n': nat)
      requires Valid() && Listed(l, head, tail, n) && child < |store| && store[child] == ZeroNode
      requires OutStands(buf[..], nested, v, kids) && Rep(store, buf[..], kids, None)
      requires Sound(m) && Moved(m, Mem(), Ids(l) + (multiset{child} + Ids(kids)))
      modifies this`store
      ensures Valid() && Listed(Snoc(l, child, v, kids), head', tail', n')
      ensures Moved(m, Mem(), Ids(Snoc(l, child, v, kids)))
    {
      hide Valid, Moved, Rep, Ids, Once, NodeStands, OutStands, Snoc, Sound;
      ghost var all, before := Ids(l) + (multiset{child} + Ids(kids)), Mem();
      MovedSound(m, before, all);
      PartsOnce(l, child, kids);
      var node := store[child].(kind := nested.kind, integer := nested.integer,
                                bulk := nested.bulk, bulkLen := nested.bulkLen);
      if nested.kind == KArray {
        node := node.(childHead := nested.arrayHead, childTail := nested.arrayTail, childCount := nested.arrayCount);
      }
      SetNode(child, node);
      FilledStands(buf[..], nested, node, v, kids);
      RepSame(before.st, store, buf[..], l, None);
      RepSame(before.st, store, buf[..], kids, None);
      head', tail', n' := NodeAppend(head, tail, n, child, l, v, kids);
      SnocIds(l, child, v, kids);
      MovedWrite(m, before, Mem(), all);
    }

    /** Gives up: the spare cell and everything collected so far go back to the free list. */
    method Abandon(child: nat, head: Ptr, ghost l: List, ghost m: RespNodes.Mem)
      requires Valid() && head == Head(l) && Rep(store, buf[..], l, None)
      requires Sound(m) && Moved(m, Mem(), Ids(l) + multiset{child})
      modifies this`store, this`freeList, this`frees
      ensures Valid() && Moved(m, Mem(), multiset{})
    {
      hide Valid, Moved, Rep, Ids, Once;
      ghost var m1 := Mem();
      MovedSound(m, m1, Ids(l) + multiset{child});
      SpareApart(l, child);
      NodeFree(child);
      ghost var m2 := Mem();
      MovedBack(m, m1, m2, Ids(l), multiset{child});
      RepSame(m1.st, m2.st, buf[..], l, None);
      MovedOnce(m, m2, Ids(l));
      NodeListRelease(head, l, None);
      assert multiset{} + Ids(l) == Ids(l);
      MovedBack(m, m2, Mem(), multiset{}, Ids(l));
    }

    /** One round of the array loop: allocate a cell, decode a value, append it or give everything up. */
    method ParseElement(pos: nat, head: Ptr, tail: Ptr, n: nat, ghost l: List, ghost m: RespNodes.Mem)
      returns (status: Status, pos': nat, head': Ptr, tail': Ptr, n': nat, ghost l': List)
      requires Valid() && pos <= wPos && Listed(l, head, tail, n)
      requires Sound(m) && Moved(m, Mem(), Ids(l))
      modifies this`store, this`freeList, this`frees
      ensures Valid() && status == StatusOf(Parse(buf[pos..wPos]))
      ensures var r := Parse(buf[pos..wPos]);
              if r.Done? then
                pos' == pos + r.used && Listed(l', head', tail', n') && Moved(m, Mem(), Ids(l')) && Vals(l') == Vals(l) + [r.v]
              else Moved(m, Mem(), multiset{})
      decreases wPos - pos, 2
    {
      hide Valid, Moved, Rep, Ids, Parse, Reads, Sound;
      head', tail', n', l' := head, tail, n, l;
      ghost var m1 := Mem();
      var child := NodeAlloc();
      ghost var m2 := Mem();
      HoldThrough(m, m1, m2, Ids(l), multiset{child}, buf[..], l);
      var nested: Out;
      ghost var kids: List;
      status, pos', nested, kids := ParseValue(pos);
      ghost var m3 := Mem();
      HoldThrough(m, m2, m3, Ids(l) + multiset{child}, Ids(kids), buf[..], l);
      NilIds();
      if status != StatusOk {
        assert Ids(l) + multiset{child} + Ids(Nil) == Ids(l) + multiset{child};
        Abandon(child, head, l, m);
        return;
      }
      UnionAssociative(Ids(l), multiset{child}, Ids(kids));
      HeldUnchanged(m2, m3, Ids(l) + multiset{child}, child);
      ghost var v := Parse(buf[pos..wPos]).v;
      SnocViews(l, child, v, kids);
      head', tail', n' := Attach(child, nested, head, tail, n, l, v, kids, m);
      l' := Snoc(l, child, v, kids);
    }

    method ParseArray(start: nat, count: nat) returns (status: Status, pos': nat, out: Out, ghost kids: List)
      requires Valid() && start <= wPos
      modifies this`store, this`freeList, this`frees
      ensures Valid() && Moved(old(Mem()), Mem(), Ids(kids))
      ensures Parsed(OfItems(ParseItems(buf[start..wPos], count)), start, status, pos', out, kids)
      decreases wPos - start, 3
    {
      hide Moved, Rep, Ids, Parse, ParseItems, Reads, Chain, Sound;
      ghost var m, s := Mem(), buf[start..wPos];
      var head: Ptr, tail: Ptr, n := None, None, 0;
      kids, pos', out := Nil, start, NoValue;
      StayedPut(m);
      NilIds();
      NilListed(store, buf[..]);
      ItemsBegin(s, count);
      var i := 0;
      while i < count
        invariant i <= count && start <= pos' <= wPos && Valid()
        invariant Listed(kids, head, tail, n) && Moved(m, Mem(), Ids(kids)) && |Vals(kids)| == i
        invariant ParseItems(s, count) == PrependAll(Vals(kids), pos' - start, ParseItems(buf[pos'..wPos], count - i))
      {
        ghost var rest := buf[pos'..wPos];
        ItemsNext(Vals(kids), pos' - start, rest, count - i);
        ghost var l := kids;
        status, pos', head, tail, n, kids := ParseElement(pos', head, tail, n, l, m);
        if status != StatusOk {
          kids := Nil;
          return;
        }
        assert rest[Parse(rest).used..] == buf[pos'..wPos];
        i := i + 1;
      }
      ItemsEnd(Vals(kids), pos' - start, buf[pos'..wPos]);
      ArrayStands(buf[..], kids);
      return StatusOk, pos', out.(kind := KArray, arrayHead := head, arrayTail := tail, arrayCount := n), kids;
    }

    // ----- Inline commands -----

    method FindLfFrom(from: nat) returns (r: Option<nat>)
      requires from <= wPos <= buf.Length
      ensures FindLf(buf[from..wPos], 0) == if r.Some? then Some(r.value - from) else None
      ensures r.Some? ==> from <= r.value < wPos
    {
      ghost var s := buf[from..wPos];
      var i := from;
      while i < wPos
        invariant from <= i <= wPos
        invariant forall j :: 0 <= j < i - from ==> s[j] != LF
      {
        assert s[i - from] == buf[i];
        if buf[i] == LF {
          return Some(i);
        }
        i := i + 1;
      }
      return None;
    }

    /** Skips blanks, then the token after them: the token is [a, b), or a is the end of the line. */
    method NextToken(i: nat, end: nat, ghost pos: nat) returns (a: nat, b: nat)
      requires pos <= i <= end <= buf.Length
      ensures i <= a <= b <= end
      ensures var line := buf[pos..end];
              a == pos + SkipBlanks(line, i - pos) && b == pos + TokenEnd(line, a - pos)
    {
      ghost var line := buf[pos..end];
      a := i;
      while a < end && Blank(buf[a])
        invariant i <= a <= end
        invariant forall j :: i - pos <= j < a - pos ==> Blank(line[j])
      {
        assert line[a - pos] == buf[a];
        a := a + 1;
      }
      assert a < end ==> line[a - pos] == buf[a];
      SkipBlanksIs(line, i - pos, a - pos);
      b := a;
      while b < end && !Blank(buf[b])
        invariant a <= b <= end
        invariant forall j :: a - pos <= j < b - pos ==> !Blank(line[j])
      {
        assert line[b - pos] == buf[b];
        b := b + 1;
      }
      assert b < end ==> line[b - pos] == buf[b];
      TokenEndIs(line, a - pos, b - pos);
    }

    method AppendToken(a: nat, b: nat, head: Ptr, tail: Ptr, n: nat, ghost l: List, ghost m: RespNodes.Mem)
      returns (head': Ptr, tail': Ptr, n': nat, ghost l': List)
      requires Valid() && Listed(l, head, tail, n) && a <= b <= buf.Length
      requires Sound(m) && Moved(m, Mem(), Ids(l))
      modifies this`store, this`freeList, this`frees
      ensures Valid() && Listed(l', head', tail', n') && Moved(m, Mem(), Ids(l'))
      ensures Vals(l') == Vals(l) + [Bulk(buf[a..b])]
    {
      hide Valid, Moved, Rep, Ids, Sound;
      ghost var m1 := Mem();
      var node := NodeAlloc();
      HoldThrough(m, m1, Mem(), Ids(l), multiset{node}, buf[..], l);
      NilIds();
      NilListed(store, buf[..]);
      UnionAssociative(Ids(l), multiset{node}, Ids(Nil));
      assert Ids(l) + multiset{node} + Ids(Nil) == Ids(l) + multiset{node};
      ghost var v := Bulk(buf[a..b]);
      assert buf[..][a..b] == buf[a..b];
      SnocViews(l, node, v, Nil);
      head', tail', n' := Attach(node, NoValue.(kind := KBulk, bulk := a, bulkLen := b - a), head, tail, n, l, v, Nil, m);
      l' := Snoc(l, node, v, Nil);
    }

    method ParseInlineLine(pos: nat) returns (status: Status, pos': nat, out: Out, ghost kids: List)
      requires Valid() && pos < wPos
      modifies this`store, this`freeList, this`frees
      ensures Valid() && Moved(old(Mem()), Mem(), Ids(kids))
      ensures Parsed(ParseInline(buf[pos..wPos]), pos, status, pos', out, kids)
    {
      hide Moved, Rep, Ids, Reads, Chain, Sound, Tokens, Bulks;
      ghost var m, s := Mem(), buf[pos..wPos];
      pos', out, kids := pos, NoValue, Nil;
      StayedPut(m);
      NilListed(store, buf[..]);
      var lf := FindLfFrom(pos);
      if lf.None? {
        return StatusNeedMore, pos', out, kids;
      }
      var end := if lf.value > pos && buf[lf.value - 1] == CR then lf.value - 1 else lf.value;
      SliceOfSlice(buf[..], pos, end, wPos);
      var head, tail, n;
      head, tail, n, kids := CollectTokens(pos, end);
      ArrayStands(buf[..], kids);
      return StatusOk, lf.value + 1,
        out.(kind := KArray, arrayHead := head, arrayTail := tail, arrayCount := n), kids;
    }

    /** The cells taken since m hold, in order, the tokens of the line before position at. */
    ghost predicate Gathered(m: RespNodes.Mem, line: Bytes, at: nat, l: List, head: Ptr, tail: Ptr, n: nat)
      requires at <= |line|
      reads this, buf
    {
      && Valid() && Sound(m) && Listed(l, head, tail, n) && Moved(m, Mem(), Ids(l))
      && Bulks(Tokens(line, 0)) == Vals(l) + Bulks(Tokens(line, at))
    }

    /** Takes the next token of the line, if there is one. */
    method TakeToken(i: nat, pos: nat, end: nat, head: Ptr, tail: Ptr, n: nat, ghost l: List, ghost m: RespNodes.Mem)
      returns (i': nat, head': Ptr, tail': Ptr, n': nat, ghost l': List)
      requires pos <= i < end <= buf.Length && Gathered(m, buf[pos..end], i - pos, l, head, tail, n)
      modifies this`store, this`freeList, this`frees
      ensures i < i' <= end && Gathered(m, buf[pos..end], i' - pos, l', head', tail', n')
    {
      hide Valid, Moved, Ids, Tokens, Bulks, SkipBlanks, TokenEnd, Listed, Vals, Sound;
      ghost var line := buf[pos..end];
      var a, b := NextToken(i, end, pos);
      TokensNext(line, i - pos);
      if a >= end {
        NoMoreTokens(line, i - pos, Vals(l));
        return end, head, tail, n, l;
      }
      SubWindow(buf[..], pos, end, a, b);
      head', tail', n', l' := AppendToken(a, b, head, tail, n, l, m);
      TokenTaken(line, i - pos, Vals(l), Vals(l'));
      i' := b;
    }

    /** One cell for each token of the line [pos, end). */
    method CollectTokens(pos: nat, end: nat) returns (head: Ptr, tail: Ptr, n: nat, ghost kids: List)
      requires Valid() && pos <= end <= buf.Length
      modifies this`store, this`freeList, this`frees
      ensures Valid() && Listed(kids, head, tail, n) && Moved(old(Mem()), Mem(), Ids(kids))
      ensures Vals(kids) == Bulks(Tokens(buf[pos..end], 0))
    {
      hide Gathered, Moved, Ids, Tokens, Bulks, Listed, Vals, Valid;
      ghost var m, line := Mem(), buf[pos..end];
      NothingGathered(line);
      head, tail, n, kids := None, None, 0, Nil;
      var i := pos;
      while i < end
        invariant pos <= i <= end && Gathered(m, line, i - pos, kids, head, tail, n)
        decreases end - i
      {
        i, head, tail, n, kids := TakeToken(i, pos, end, head, tail, n, kids, m);
      }
      AllGathered(m, line, kids, head, tail, n);
    }

    lemma NothingGathered(line: Bytes)
      requires Valid()
      ensures Gathered(Mem(), line, 0, Nil, None, None, 0)
    {
      hide Moved, Tokens, Bulks;
      StayedPut(Mem());
      TokensBegin(line);
    }

    lemma AllGathered(m: RespNodes.Mem, line: Bytes, l: List, head: Ptr, tail: Ptr, n: nat)
      requires Gathered(m, line, |line|, l, head, tail, n)
      ensures Valid() && Listed(l, head, tail, n) && Moved(m, Mem(), Ids(l)) && Vals(l) == Bulks(Tokens(line, 0))
    {
      hide Valid, Moved, Listed, Tokens, Bulks;
      TokensDone(line, Vals(l));
    }

    // ----- The parser's own operations -----

    /** Together the free list and the live cells are all cells ever allocated, each once. */
    ghost predicate Conserved(live: multiset<nat>)
      reads this
    {
      multiset(frees) + live == Range(0, |store|)
    }

    /** Shifts the unread bytes to the start of the buffer. */
    method Compact()
      requires Valid()
      modifies this`rPos, this`wPos, buf
      ensures Valid() && Unread() == old(Unread()) && rPos == 0
    {
      hide Chain, Sound;
      if rPos == 0 {
        return;
      }
      var unread := wPos - rPos;
      var i := 0;
      while i < unread
        invariant 0 <= i <= unread && rPos == old(rPos) && wPos == old(wPos)
        invariant forall k :: 0 <= k < i ==> buf[k] == old(buf[rPos + k])
        invariant forall k :: i <= k < buf.Length ==> buf[k] == old(buf[k])
      {
        buf[i] := buf[rPos + i];
        i := i + 1;
      }
      wPos := unread;
      rPos := 0;
    }

    function Space(): nat
      requires wPos <= buf.Length
      reads this
    {
      buf.Length - wPos
    }

    /** What a successful read of chunk from the socket leaves: the bytes at the write position, committed. */
    method Commit(chunk: Bytes)
      requires Valid() && |chunk| <= Space()
      modifies this`wPos, buf
      ensures Valid() && Unread() == old(Unread()) + chunk && rPos == old(rPos)
    {
      hide Chain, Sound;
      var i := 0;
      while i < |chunk|
        invariant 0 <= i <= |chunk| && wPos == old(wPos)
        invariant forall k :: 0 <= k < i ==> buf[wPos + k] == chunk[k]
        invariant forall k :: 0 <= k < wPos ==> buf[k] == old(buf[k])
      {
        buf[wPos + i] := chunk[i];
        i := i + 1;
      }
      wPos := wPos + |chunk|;
    }

    /** Appends a chunk, compacting first when only that makes it fit; refused only if it cannot fit at all. */
    method Feed(chunk: Bytes) returns (ok: bool)
      requires Valid()
      modifies this`rPos, this`wPos, buf
      ensures Valid()
      ensures ok <==> |old(Unread())| + |chunk| <= buf.Length
      ensures Unread() == if ok then old(Unread()) + chunk else old(Unread())
    {
      hide Chain, Sound;
      if |chunk| == 0 {
        assert Unread() + chunk == Unread();
        return true;
      }
      if wPos + |chunk| <= buf.Length {
        Commit(chunk);
        return true;
      }
      var freeTotal := buf.Length - (wPos - rPos);
      if freeTotal < |chunk| {
        return false;
      }
      Compact();
      Commit(chunk);
      return true;
    }

    /**
    Decodes the next value. A value other than OK consumes nothing and keeps no cell; OK consumes exactly
    the bytes of the verdict, and the cells it keeps are those of the value.
    */
    method Next() returns (status: Status, out: Out, ghost kids: List)
      requires Valid()
      modifies this, buf
      ensures Valid() && Moved(old(Mem()), Mem(), Ids(kids))
      ensures var r := Parse(old(Unread()));
              && status == StatusOf(r)
              && Unread() == (if r.Done? then old(Unread())[r.used..] else old(Unread()))
              && (if r.Done? then OutStands(buf[..], out, r.v, kids) && Rep(store, buf[..], kids, None) else kids == Nil)
      ensures status != StatusOk ==> rPos <= buf.Length / 2
    {
      hide Chain, Sound, Moved, Rep, Ids, Parse, Reads;
      if rPos > buf.Length / 2 {
        Compact();
      }
      var pos;
      status, pos, out, kids := ParseValue(rPos);
      if status == StatusOk {
        ghost var s := Unread();
        rPos := pos;
        assert Unread() == s[Parse(s).used..];
      }
    }

    /** Returns the cells of a value that Next handed out. */
    method ValueRelease(value: Out, ghost v: Value, ghost kids: List)
      requires Valid() && OutStands(buf[..], value, v, kids) && Rep(store, buf[..], kids, None)
      requires Once(multiset(frees) + Ids(kids))
      modifies this`store, this`freeList, this`frees
      ensures Valid() && multiset(frees) == multiset(old(frees)) + Ids(kids)
      ensures |store| == |old(store)| && forall k :: 0 <= k < |store| && k !in Ids(kids) ==> store[k] == old(store)[k]
    {
      hide Valid, Rep, Ids, Once;
      NilIds();
      if value.kind == KArray && value.arrayHead.Some? {
        NodeListRelease(value.arrayHead, kids, None);
      }
    }

    /** Reads a value back from its cells, as a command handler walks them. */
    method ReadValue(value: Out, ghost v: Value, ghost kids: List) returns (r: Value)
      requires OutStands(buf[..], value, v, kids) && Rep(store, buf[..], kids, None)
      ensures r == v
    {
      r := ReadFields(value.kind, value.integer, value.bulk, value.bulkLen, value.arrayHead, v, kids,
                      value.arrayTail, value.arrayCount);
    }

    method ReadFields(kind: Kind, integer: int, bulk: nat, bulkLen: nat, first: Ptr,
                      ghost v: Value, ghost kids: List, ghost tail: Ptr, ghost count: nat) returns (r: Value)
      requires first == Head(kids) && Rep(store, buf[..], kids, None)
      requires Reads(buf[..], kind, integer, bulk, bulkLen, tail, count, kids) == Some(v)
      ensures r == v
      decreases kids, 1
    {
      hide Rep;
      match kind
      case KArray =>
        var vs := ReadList(first, kids, None);
        r := Array(vs);
      case KInteger => r := Integer(integer);
      case KNull => r := Null;
      case KSimple => r := Simple(buf[bulk..bulk + bulkLen]);
      case KError => r := Error(buf[bulk..bulk + bulkLen]);
      case KBulk => r := Bulk(buf[bulk..bulk + bulkLen]);
    }

    /** The values of a list, following next from its first cell. */
    method ReadList(first: Ptr, ghost l: List, ghost prev: Ptr) returns (vs: seq<Value>)
      requires first == Head(l) && Rep(store, buf[..], l, prev)
      ensures vs == Vals(l)
      decreases l, 0
    {
      hide Rep, NodeStands, Reads;
      vs := [];
      var head := first;
      ghost var rest, before := l, prev;
      while head.Some?
        invariant head == Head(rest) && Rep(store, buf[..], rest, before)
        invariant Vals(l) == vs + Vals(rest) && (rest == l || rest < l)
        decreases rest
      {
        RepReads(store, buf[..], rest, before);
        var n := store[head.value];
        var v := ReadFields(n.kind, n.integer, n.bulk, n.bulkLen, n.childHead, rest.v, rest.kids, n.childTail, n.childCount);
        assert vs + ([rest.v] + Vals(rest.rest)) == vs + [v] + Vals(rest.rest);
        vs := vs + [v];
        before, rest, head := head, rest.rest, n.next;
      }
    }

    /**
    Next followed by release: whatever the verdict, every cell that was free is free again, so the free
    list again holds every cell ever allocated that is not live elsewhere, each once.
    */
    method NextAndRelease(ghost live: multiset<nat>) returns (status: Status, v: Option<Value>)
      requires Valid() && Conserved(live)
      modifies this, buf
      ensures Valid() && Conserved(live) && Moved(old(Mem()), Mem(), multiset{})
      ensures var r := Parse(old(Unread()));
              && status == StatusOf(r)
              && v == (if r.Done? then Some(r.v) else None)
              && Unread() == (if r.Done? then old(Unread())[r.used..] else old(Unread()))
      ensures status != StatusOk ==> rPos <= buf.Length / 2
    {
      hide Chain, Moved, Rep, Ids, Once, Parse, Reads, Sound;
      ghost var m, s := Mem(), Unread();
      var out;
      ghost var kids;
      status, out, kids := Next();
      ghost var m1 := Mem();
      NilIds();
      v := None;
      if status == StatusOk {
        var value := ReadValue(out, Parse(s).v, kids);
        v := Some(value);
        MovedOnce(m, m1, Ids(kids));
        ghost var unread := Unread();
        ValueRelease(out, value, kids);
        assert Unread() == unread;
        ReturnedAll(m, m1, Mem(), Ids(kids));
      }
      ConservedAcross(m, Mem(), live);
    }
  }
}
