/**
The append log as a byte string: records of many lists one after another, each pointing back to the
previous record of its list.
*/
module LogSpec {
  import opened ByteStrings

  const NO_PREV: nat := 0xffff_ffff
  const HEADER: nat := 8
  const MAX_ELEM: nat := 512
  const MAX_KEY: nat := 256

  // ----- Little-endian fields -----

  function Pow256(n: nat): (p: nat)
    ensures p > 0
  {
    if n == 0 then 1 else 256 * Pow256(n - 1)
  }

  function Le(v: nat, n: nat): (s: Bytes)
    ensures |s| == n
  {
    if n == 0 then [] else [v % 256] + Le(v / 256, n - 1)
  }

  function FromLe(s: Bytes): nat
  {
    if s == [] then 0 else s[0] + 256 * FromLe(s[1..])
  }

  lemma {:induction false} LeRoundTrip(v: nat, n: nat)
    requires v < Pow256(n)
    ensures FromLe(Le(v, n)) == v
  {
    if n > 0 {
      LeRoundTrip(v / 256, n - 1);
      assert Le(v, n)[1..] == Le(v / 256, n - 1);
    }
  }

  lemma FieldWidths()
    ensures Pow256(2) == 0x1_0000 && Pow256(4) == 0x1_0000_0000
  {
    assert Pow256(1) == 256 && Pow256(3) == 256 * Pow256(2);
  }

  // ----- Records -----

  datatype Item = Item(off: nat, prev: nat, key: Bytes, val: Bytes)

  function RecordSize(keyLen: nat, valLen: nat): nat
  {
    HEADER + keyLen + valLen
  }

  function Size(it: Item): nat
  {
    RecordSize(|it.key|, |it.val|)
  }

  function Record(prev: nat, key: Bytes, val: Bytes): (s: Bytes)
    ensures |s| == RecordSize(|key|, |val|)
  {
    Le(prev, 4) + Le(|key|, 2) + Le(|val|, 2) + key + val
  }

  lemma FieldBytes(v: nat)
    ensures Le(v, 2) == [v % 256, v / 256 % 256]
    ensures Le(v, 4) == [v % 256, v / 256 % 256, v / 256 / 256 % 256, v / 256 / 256 / 256 % 256]
  {
    assert Le(v, 2) == [v % 256] + Le(v / 256, 1);
    var w := v / 256 / 256;
    assert Le(v, 4) == [v % 256] + Le(v / 256, 3) && Le(v / 256, 3) == [v / 256 % 256] + Le(w, 2);
    assert Le(w, 2) == [w % 256] + Le(w / 256, 1);
  }

  /** The record in memory: previous offset, key length, value length, each low byte first, then key and value. */
  lemma RecordLayout(prev: nat, key: Bytes, val: Bytes)
    ensures var r := Record(prev, key, val); var k, v := |key|, |val|;
            && |r| == 8 + k + v
            && r[..4] == [prev % 256, prev / 256 % 256, prev / 256 / 256 % 256, prev / 256 / 256 / 256 % 256]
            && r[4..8] == [k % 256, k / 256 % 256, v % 256, v / 256 % 256]
            && r[8..8 + k] == key && r[8 + k..] == val
  {
    hide Le;
    var r := Record(prev, key, val);
    FieldBytes(prev);
    FieldBytes(|key|);
    FieldBytes(|val|);
    assert r[..4] == Le(prev, 4) && r[4..8] == Le(|key|, 2) + Le(|val|, 2);
  }

  predicate HasHeader(b: Bytes, off: nat)
  {
    off + HEADER <= |b|
  }

  function PrevAt(b: Bytes, off: nat): nat
    requires HasHeader(b, off)
  {
    FromLe(b[off..off + 4])
  }

  function KeyLenAt(b: Bytes, off: nat): nat
    requires HasHeader(b, off)
  {
    FromLe(b[off + 4..off + 6])
  }

  function ValLenAt(b: Bytes, off: nat): nat
    requires HasHeader(b, off)
  {
    FromLe(b[off + 6..off + 8])
  }

  /** A whole record lies at off. */
  predicate HasItem(b: Bytes, off: nat)
  {
    HasHeader(b, off) && off + RecordSize(KeyLenAt(b, off), ValLenAt(b, off)) <= |b|
  }

  function ItemAt(b: Bytes, off: nat): (it: Item)
    requires HasItem(b, off)
    ensures it.off == off && off + Size(it) <= |b|
  {
    var k, v := KeyLenAt(b, off), ValLenAt(b, off);
    Item(off, PrevAt(b, off), b[off + 8..off + 8 + k], b[off + 8 + k..off + 8 + k + v])
  }

  predicate Fits(prev: nat, key: Bytes, val: Bytes)
  {
    prev <= NO_PREV && |key| <= MAX_KEY && |val| <= MAX_ELEM
  }

  /** Reading a record just written gives back its fields. */
  lemma RecordReads(pre: Bytes, prev: nat, key: Bytes, val: Bytes)
    requires Fits(prev, key, val)
    ensures var b := pre + Record(prev, key, val);
            HasItem(b, |pre|) && ItemAt(b, |pre|) == Item(|pre|, prev, key, val) && PrevAt(b, |pre|) == prev
  {
    hide Le, FromLe, Pow256;
    FieldWidths();
    LeRoundTrip(prev, 4);
    LeRoundTrip(|key|, 2);
    LeRoundTrip(|val|, 2);
    var b, n, k, v := pre + Record(prev, key, val), |pre|, |key|, |val|;
    assert b[n..n + 4] == Le(prev, 4);
    assert b[n + 4..n + 6] == Le(k, 2);
    assert b[n + 6..n + 8] == Le(v, 2);
    assert b[n + 8..n + 8 + k] == key;
    assert b[n + 8 + k..n + 8 + k + v] == val;
  }

  lemma ItemStays(b: Bytes, t: Bytes, off: nat)
    requires HasItem(b, off)
    ensures HasItem(b + t, off) && ItemAt(b + t, off) == ItemAt(b, off)
  {
    hide FromLe;
    var c, k, v := b + t, KeyLenAt(b, off), ValLenAt(b, off);
    assert c[off..off + 4] == b[off..off + 4];
    assert c[off + 4..off + 6] == b[off + 4..off + 6];
    assert c[off + 6..off + 8] == b[off + 6..off + 8];
    assert c[off + 8..off + 8 + k] == b[off + 8..off + 8 + k];
    assert c[off + 8 + k..off + 8 + k + v] == b[off + 8 + k..off + 8 + k + v];
  }

  // ----- The linear scan -----

  /** The records from off to the end, in log order. */
  function Scan(b: Bytes, off: nat): seq<Item>
    decreases |b| - off
  {
    if !HasItem(b, off) then []
    else
      var it := ItemAt(b, off);
      [it] + Scan(b, off + Size(it))
  }

  /** The records from off on fill the log exactly. */
  predicate Whole(b: Bytes, off: nat)
    decreases |b| - off
  {
    off == |b| || (HasItem(b, off) && Whole(b, off + Size(ItemAt(b, off))))
  }

  lemma {:induction false} ScanAppend(b: Bytes, off: nat, prev: nat, key: Bytes, val: Bytes)
    requires Whole(b, off) && Fits(prev, key, val)
    ensures var c := b + Record(prev, key, val);
            Whole(c, off) && Scan(c, off) == Scan(b, off) + [Item(|b|, prev, key, val)]
    decreases |b| - off
  {
    hide ItemAt, FromLe, Record;
    var c := b + Record(prev, key, val);
    RecordReads(b, prev, key, val);
    if off < |b| {
      ItemStays(b, Record(prev, key, val), off);
      ScanAppend(b, off + Size(ItemAt(b, off)), prev, key, val);
    } else {
      assert Scan(c, |c|) == [];
      assert Scan(b, off) == [];
    }
  }

  lemma {:induction false} ScanOffsets(b: Bytes, off: nat)
    ensures forall i :: 0 <= i < |Scan(b, off)| ==>
              off <= Scan(b, off)[i].off && HasItem(b, Scan(b, off)[i].off) && ItemAt(b, Scan(b, off)[i].off) == Scan(b, off)[i]
    ensures forall i, j :: 0 <= i < j < |Scan(b, off)| ==> Scan(b, off)[i].off < Scan(b, off)[j].off
    decreases |b| - off
  {
    if HasItem(b, off) { ScanOffsets(b, off + Size(ItemAt(b, off))); }
  }

  // ----- The backward chain -----

  /** Following the back pointers from off stays inside the log, strictly backward, until NO_PREV. */
  predicate Linked(b: Bytes, off: nat)
    decreases if off == NO_PREV then 0 else off + 1
  {
    off == NO_PREV ||
    (&& HasItem(b, off) && off < NO_PREV
     && (PrevAt(b, off) == NO_PREV || PrevAt(b, off) < off)
     && Linked(b, PrevAt(b, off)))
  }

  function Chain(b: Bytes, off: nat): seq<Item>
    requires Linked(b, off)
    decreases if off == NO_PREV then 0 else off + 1
  {
    if off == NO_PREV then [] else [ItemAt(b, off)] + Chain(b, PrevAt(b, off))
  }

  lemma ChainEnds(b: Bytes)
    ensures Linked(b, NO_PREV) && Chain(b, NO_PREV) == []
  {
  }

  /** One step back along a list whose records from the n-th on are the chain from off. */
  lemma ChainStep(b: Bytes, off: nat, l: seq<Item>, n: nat)
    requires Linked(b, off) && off != NO_PREV && n <= |l| && Chain(b, off) == l[n..]
    ensures n < |l| && l[n].off == off && HasHeader(b, off)
    ensures Linked(b, PrevAt(b, off)) && Chain(b, PrevAt(b, off)) == l[n + 1..]
  {
    hide FromLe;
    var rest := Chain(b, PrevAt(b, off));
    assert l[n..] == [ItemAt(b, off)] + rest;
    assert l[n] == l[n..][0];
    assert l[n + 1..] == l[n..][1..] == rest;
  }

  lemma {:induction false} ChainStays(b: Bytes, t: Bytes, off: nat)
    requires Linked(b, off)
    ensures Linked(b + t, off) && Chain(b + t, off) == Chain(b, off)
    decreases if off == NO_PREV then 0 else off + 1
  {
    if off != NO_PREV {
      ItemStays(b, t, off);
      ChainStays(b, t, PrevAt(b, off));
    }
  }

  /** Offsets strictly decrease along a chain, so it visits no record twice. */
  lemma {:induction false} ChainDescends(b: Bytes, off: nat)
    requires Linked(b, off)
    ensures forall i :: 0 <= i < |Chain(b, off)| ==> Chain(b, off)[i].off <= off
    ensures forall i, j :: 0 <= i < j < |Chain(b, off)| ==> Chain(b, off)[j].off < Chain(b, off)[i].off
    decreases if off == NO_PREV then 0 else off + 1
  {
    if off != NO_PREV {
      var p := PrevAt(b, off);
      ChainDescends(b, p);
      if p == NO_PREV { assert Chain(b, p) == []; }
    }
  }

  // ----- One list among many -----

  /** The records of a list, newest first. */
  function NewestFirst(items: seq<Item>, key: Bytes): seq<Item>
  {
    if items == [] then []
    else
      var last := items[|items| - 1];
      (if last.key == key then [last] else []) + NewestFirst(items[..|items| - 1], key)
  }

  datatype Meta = Meta(head: nat, tail: nat, count: nat)

  const NoList: Meta := Meta(NO_PREV, NO_PREV, 0)

  /** The list of a key, by linear scan of the log. */
  function ListOf(b: Bytes, key: Bytes): seq<Item>
  {
    NewestFirst(Scan(b, 0), key)
  }

  /** The chain from the head is exactly the list the scan finds. */
  ghost predicate Agrees(b: Bytes, key: Bytes, m: Meta)
  {
    && Linked(b, m.head)
    && Chain(b, m.head) == ListOf(b, key)
    && m.count == |ListOf(b, key)|
    && m.tail == if m.count == 0 then NO_PREV else ListOf(b, key)[m.count - 1].off
  }

  lemma HeadTells(b: Bytes, key: Bytes, m: Meta)
    requires Agrees(b, key, m)
    ensures m.head == NO_PREV <==> m.count == 0
  {
  }

  /** Pushing to a list puts the new record in front of it. */
  lemma PushAgrees(b: Bytes, m: Meta, key: Bytes, val: Bytes)
    requires Whole(b, 0) && |b| < NO_PREV && Agrees(b, key, m) && |key| <= MAX_KEY && |val| <= MAX_ELEM
    ensures m.head <= NO_PREV
    ensures var c := b + Record(m.head, key, val);
            && Whole(c, 0)
            && ListOf(c, key) == [Item(|b|, m.head, key, val)] + ListOf(b, key)
            && Agrees(c, key, Meta(|b|, if m.head == NO_PREV then |b| else m.tail, m.count + 1))
  {
    hide Record, HasItem, ItemAt, PrevAt, Scan, Whole, NewestFirst, Linked, Chain;
    var r := Record(m.head, key, val);
    var c := b + r;
    HeadTells(b, key, m);
    HeadInside(b, m.head);
    RecordReads(b, m.head, key, val);
    ScanAppend(b, 0, m.head, key, val);
    ChainStays(b, r, m.head);
    ChainExtends(c, |b|);
    var it, l := Item(|b|, m.head, key, val), ListOf(b, key);
    AppendNewest(Scan(b, 0), it, key);
    assert ListOf(c, key) == [it] + l;
    assert m.count > 0 ==> ([it] + l)[m.count] == l[m.count - 1];
  }

  lemma HeadInside(b: Bytes, off: nat)
    requires Linked(b, off)
    ensures off <= NO_PREV && (off != NO_PREV ==> off < |b|)
  {
  }

  lemma ChainExtends(b: Bytes, off: nat)
    requires HasItem(b, off) && off < NO_PREV && Linked(b, PrevAt(b, off))
    requires PrevAt(b, off) == NO_PREV || PrevAt(b, off) < off
    ensures Linked(b, off) && Chain(b, off) == [ItemAt(b, off)] + Chain(b, PrevAt(b, off))
  {
  }

  lemma AppendNewest(items: seq<Item>, it: Item, key: Bytes)
    ensures NewestFirst(items + [it], key) ==
            if it.key == key then [it] + NewestFirst(items, key) else NewestFirst(items, key)
  {
    assert (items + [it])[..|items|] == items;
  }

  /** Pushing to a list leaves every other list as it was. */
  lemma PushSpares(b: Bytes, prev: nat, key: Bytes, val: Bytes, other: Bytes, m: Meta)
    requires Whole(b, 0) && Fits(prev, key, val) && other != key && Agrees(b, other, m)
    ensures var c := b + Record(prev, key, val); ListOf(c, other) == ListOf(b, other) && Agrees(c, other, m)
  {
    ScanAppend(b, 0, prev, key, val);
    ChainStays(b, Record(prev, key, val), m.head);
    AppendNewest(Scan(b, 0), Item(|b|, prev, key, val), other);
  }

  lemma {:induction false} ChainItems(b: Bytes, off: nat)
    requires Linked(b, off)
    ensures forall i :: 0 <= i < |Chain(b, off)| ==>
              HasItem(b, Chain(b, off)[i].off) && ItemAt(b, Chain(b, off)[i].off) == Chain(b, off)[i]
    decreases if off == NO_PREV then 0 else off + 1
  {
    hide FromLe;
    if off != NO_PREV { ChainItems(b, PrevAt(b, off)); }
  }

  function Vals(l: seq<Item>): (vs: seq<Bytes>)
    ensures |vs| == |l| && forall i :: 0 <= i < |l| ==> vs[i] == l[i].val
  {
    seq(|l|, i requires 0 <= i < |l| => l[i].val)
  }
}
