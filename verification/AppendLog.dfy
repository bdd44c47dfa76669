/** The log in memory: LPUSH appends a record, LRANGE walks the back pointers and prints. */
module AppendLog {
  import opened ByteStrings
  import opened LogSpec
  import RespSpec
  import Replies
  import Decimal

  const MAX_CHAIN: nat := 1024

  class Log {
    const base: array<byte>
    var writePos: nat

    ghost predicate Valid()
      reads this, base
    {
      writePos <= base.Length < NO_PREV && Whole(base[..writePos], 0)
    }

    /** The bytes written so far. */
    ghost function Bytes(): Bytes
      requires Valid()
      reads this, base
    {
      base[..writePos]
    }

    constructor (capacity: nat)
      requires 4096 <= capacity < NO_PREV
      ensures Valid() && Bytes() == [] && fresh(base) && base.Length == capacity
    {
      base := new byte[capacity](_ => 0);
      writePos := 0;
    }

    method WriteBytes(at: nat, s: ByteStrings.Bytes)
      requires at + |s| <= base.Length
      modifies base
      ensures base[..at + |s|] == old(base[..at]) + s
    {
      for i := 0 to |s|
        invariant base[..at + i] == old(base[..at]) + s[..i]
      {
        base[at + i] := s[i];
        assert base[..at + i + 1] == base[..at + i] + [s[i]];
      }
    }

    /**
    LPUSH. Refused only for a key or value out of bounds or a full log; otherwise the new record heads its
    list and the chain still is what a scan of the log finds. Every other list is as it was.
    */
    method LPush(m: Meta, key: ByteStrings.Bytes, val: ByteStrings.Bytes) returns (ok: bool, m': Meta)
      requires Valid() && Agrees(Bytes(), key, m)
      modifies this`writePos, base
      ensures Valid()
      ensures ok <==> 0 < |key| <= 256 && 0 < |val| <= 512 &&
                      old(writePos) + RecordSize(|key|, |val|) <= base.Length
      ensures !ok ==> m' == m && Bytes() == old(Bytes())
      ensures ok ==> Bytes() == old(Bytes()) + Record(m.head, key, val)
      ensures Agrees(Bytes(), key, m')
      ensures ok ==> ListOf(Bytes(), key) == [Item(old(writePos), m.head, key, val)] + ListOf(old(Bytes()), key)
      ensures forall other, n :: other != key && Agrees(old(Bytes()), other, n) ==>
                Agrees(Bytes(), other, n) && ListOf(Bytes(), other) == ListOf(old(Bytes()), other)
    {
      hide Whole, Agrees, Record, ListOf;
      m' := m;
      if |key| == 0 || |key| > MAX_KEY || |val| == 0 || |val| > MAX_ELEM {
        return false, m';
      }
      var need := RecordSize(|key|, |val|);
      if writePos + need > base.Length {
        return false, m';
      }
      ghost var b := Bytes();
      PushAgrees(b, m, key, val);
      forall other, n | other != key && Agrees(b, other, n)
        ensures Agrees(b + Record(m.head, key, val), other, n)
        ensures ListOf(b + Record(m.head, key, val), other) == ListOf(b, other)
      {
        PushSpares(b, m.head, key, val, other, n);
      }
      WriteBytes(writePos, Record(m.head, key, val));
      m' := Meta(writePos, if m.head == NO_PREV then writePos else m.tail, m.count + 1);
      writePos := writePos + need;
      ok := true;
    }

    /** Walks back from the head, newest record first, for at most 1024 records. */
    method CollectOffsets(m: Meta, ghost key: ByteStrings.Bytes) returns (offsets: seq<nat>)
      requires Valid() && Agrees(Bytes(), key, m)
      ensures var l := ListOf(Bytes(), key);
              && |offsets| == (if |l| < 1024 then |l| else 1024)
              && forall i :: 0 <= i < |offsets| ==> offsets[i] == l[i].off
    {
      hide Whole, Scan, NewestFirst, ItemAt, Chain, Linked, FromLe, HasItem;
      ghost var b, l := Bytes(), ListOf(Bytes(), key);
      ChainEnds(b);
      offsets := [];
      var cur: nat := m.head;
      while cur != NO_PREV && |offsets| < MAX_CHAIN
        invariant |offsets| <= MAX_CHAIN && |offsets| <= |l| && Linked(b, cur) && Chain(b, cur) == l[|offsets|..]
        invariant forall i :: 0 <= i < |offsets| ==> offsets[i] == l[i].off
        decreases |l| - |offsets|
      {
        ChainStep(b, cur, l, |offsets|);
        if cur + HEADER > base.Length {
          assert false;
          break;
        }
        offsets := offsets + [cur];
        SliceOfPrefix(base[..], cur, cur + 4, writePos);
        cur := FromLe(base[cur..cur + 4]);
      }
    }

    /** The value bytes of the record at off. */
    method ValAt(off: nat, ghost it: Item) returns (val: ByteStrings.Bytes)
      requires Valid() && HasItem(Bytes(), off) && ItemAt(Bytes(), off) == it
      ensures val == it.val
    {
      hide FromLe, Whole;
      ghost var b := Bytes();
      assert b[off + 4..off + 6] == base[off + 4..off + 6] && b[off + 6..off + 8] == base[off + 6..off + 8];
      var k, v := FromLe(base[off + 4..off + 6]), FromLe(base[off + 6..off + 8]);
      val := base[off + 8 + k..off + 8 + k + v];
      assert val == b[off + 8 + k..off + 8 + k + v];
    }

    /**
    LRANGE. The reply is the header for the clamped slice of the newest 1024 elements followed by all of
    them; refused exactly when that does not fit.
    */
    method LRange(m: Meta, start: int, stop: int, reply: array<byte>, ghost key: ByteStrings.Bytes)
      returns (ok: bool, replyLen: nat)
      requires Valid() && Agrees(Bytes(), key, m) && reply != base
      modifies reply
      ensures Answered(Replies.Slice(Newest(old(Bytes()), key), start, stop), reply[..], ok, replyLen)
    {
      hide Whole, Agrees, ListOf, Answered, RespSpec.Header, Replies.ItemTexts, Newest, Replies.Slice, Vals;
      ghost var ds := Replies.Slice(Newest(Bytes(), key), start, stop);
      CountTells(Bytes(), key, m);
      EmptySlice(start, stop);
      if m.count == 0 || m.head == NO_PREV {
        ok, replyLen := WriteHeader(reply, 0);
        AnsweredNone(reply[..], ok, replyLen);
        return;
      }
      var offsets := CollectOffsets(m, key);
      SliceOfNewest(ListOf(Bytes(), key), Bytes(), key, start, stop);
      var lo := if start < 0 then 0 else start;
      var hi := if stop < 0 || stop >= |offsets| then |offsets| - 1 else stop;
      if lo > hi {
        ok, replyLen := WriteHeader(reply, 0);
        AnsweredNone(reply[..], ok, replyLen);
        return;
      }
      ok, replyLen := WriteSlice(offsets, lo, hi, reply, ListOf(Bytes(), key), m.head);
    }

    method WriteSlice(offsets: seq<nat>, lo: nat, hi: nat, reply: array<byte>, ghost l: seq<Item>, ghost head: nat)
      returns (ok: bool, replyLen: nat)
      requires Valid() && reply != base && lo <= hi < |offsets| <= |l|
      requires Linked(Bytes(), head) && Chain(Bytes(), head) == l
      requires forall i :: 0 <= i < |offsets| ==> offsets[i] == l[i].off
      modifies reply
      ensures Answered(Vals(l)[lo..hi + 1], reply[..], ok, replyLen)
    {
      hide Whole, Linked, Chain, Answered, RespSpec.Header, Replies.ItemTexts, Vals;
      ghost var ds := Vals(l)[lo..hi + 1];
      ok, replyLen := WriteHeader(reply, hi - lo + 1);
      if !ok {
        AnsweredRefused(ds, reply[..], replyLen);
        return;
      }
      ghost var h := reply[..replyLen];
      ok, replyLen := WriteItems(offsets, lo, hi, reply, replyLen, l, head);
      if ok { assert reply[..][..replyLen] == reply[..replyLen]; }
      AnsweredAll(ds, reply[..], ok, replyLen);
    }

    static method WriteHeader(reply: array<byte>, count: nat) returns (ok: bool, replyLen: nat)
      modifies reply
      ensures ok <==> |RespSpec.Header(RespSpec.STAR, count)| < reply.Length
      ensures ok ==> replyLen < reply.Length && reply[..replyLen] == RespSpec.Header(RespSpec.STAR, count)
    {
      hide RespSpec.Header;
      replyLen := Replies.Snprintf(reply, 0, RespSpec.Header(RespSpec.STAR, count));
      ok := replyLen < reply.Length;
      if ok { assert reply[..replyLen] == reply[0..replyLen]; }
    }

    method WriteItems(offsets: seq<nat>, lo: nat, hi: nat, reply: array<byte>, start: nat,
                      ghost l: seq<Item>, ghost head: nat) returns (ok: bool, replyLen: nat)
      requires Valid() && reply != base && start < reply.Length && lo <= hi < |offsets| <= |l|
      requires Linked(Bytes(), head) && Chain(Bytes(), head) == l
      requires forall i :: 0 <= i < |offsets| ==> offsets[i] == l[i].off
      modifies reply
      ensures var text := Replies.ItemTexts(Vals(l)[lo..hi + 1]);
              && (ok <==> start + |text| < reply.Length)
              && (ok ==> replyLen == start + |text| && reply[..replyLen] == old(reply[..start]) + text)
    {
      hide Whole, Linked, Chain, HasItem, ItemAt, Replies.ItemText, Replies.ItemTexts;
      ghost var b, vs := Bytes(), Vals(l);
      ChainItems(b, head);
      replyLen := start;
      NoTexts(vs, lo);
      var i := lo;
      while i <= hi
        invariant lo <= i <= hi + 1 && replyLen < reply.Length && Valid() && Bytes() == b
        invariant replyLen == start + |Replies.ItemTexts(vs[lo..i])|
        invariant reply[..replyLen] == old(reply[..start]) + Replies.ItemTexts(vs[lo..i])
      {
        var off := offsets[i];
        HeaderInside(b, off);
        if off + HEADER > base.Length {
          assert false;
          return false, replyLen;
        }
        var val := ValAt(off, l[i]);
        OneMoreText(vs, lo, i, hi + 1);
        var n := Replies.Snprintf(reply, replyLen, Replies.ItemText(val));
        if replyLen + n >= reply.Length {
          return false, replyLen;
        }
        assert reply[..replyLen + n] == reply[..replyLen] + reply[replyLen..replyLen + n];
        replyLen := replyLen + n;
        i := i + 1;
      }
      ok := true;
    }

    /** LLEN. */
    static function LLen(m: Meta): nat
    {
      m.count
    }
  }

  /** The elements LRANGE can see: the newest 1024. */
  function Newest(b: Bytes, key: Bytes): seq<Bytes>
  {
    NewestOf(Vals(ListOf(b, key)))
  }

  function NewestOf(vs: seq<Bytes>): (r: seq<Bytes>)
    ensures r <= vs && |r| == if |vs| < 1024 then |vs| else 1024
  {
    if |vs| < MAX_CHAIN then vs else vs[..MAX_CHAIN]
  }

  /** The reply for the elements ds, or a refusal if it does not fit. */
  ghost predicate Answered(ds: seq<Bytes>, reply: Bytes, ok: bool, len: nat)
  {
    var text := RespSpec.Header(RespSpec.STAR, |ds|) + Replies.ItemTexts(ds);
    (ok <==> |text| < |reply|) && (ok ==> len == |text| && reply[..len] == text)
  }

  /** A successful LRANGE reply is the array of the selected elements exactly when none holds a NUL. */
  lemma AnswerExact(ds: seq<Bytes>, reply: Bytes, len: nat)
    requires Answered(ds, reply, true, len)
    ensures reply[..len] == Replies.ArrayReply(ds) <==> Replies.NulFree(ds)
  {
    Replies.ItemTextsAre(ds);
    Replies.ArrayReplyIs(ds);
  }

  /** What a client makes of a successful LRANGE reply without NUL bytes: exactly the selected elements. */
  lemma AnswerDecodes(ds: seq<Bytes>, reply: Bytes, len: nat)
    requires Answered(ds, reply, true, len) && Replies.NulFree(ds)
    requires |ds| <= Decimal.INT64_MAX && forall d :: d in ds ==> |d| <= Decimal.INT64_MAX
    ensures RespSpec.Parse(reply[..len]) == RespSpec.Done(RespSpec.Array(RespSpec.Bulks(ds)), len)
  {
    hide RespSpec.Parse;
    AnswerExact(ds, reply, len);
    Replies.ArrayReplyDecodes(ds, []);
    assert reply[..len] + [] == reply[..len];
  }

  lemma CountTells(b: Bytes, key: Bytes, m: Meta)
    requires Agrees(b, key, m)
    ensures m.head == NO_PREV <==> m.count == 0
    ensures m.count == 0 ==> Newest(b, key) == []
    ensures Linked(b, m.head) && Chain(b, m.head) == ListOf(b, key)
  {
  }

  lemma EmptySlice(start: int, stop: int)
    ensures Replies.Slice<Bytes>([], start, stop) == []
  {
  }

  lemma SliceOfNewest(l: seq<Item>, b: Bytes, key: Bytes, start: int, stop: int)
    requires l == ListOf(b, key)
    ensures var total := if |l| < 1024 then |l| else 1024;
            var w := Replies.Clamp(start, stop, total);
            Replies.Slice(Newest(b, key), start, stop) == if w.0 > w.1 then [] else Vals(l)[w.0..w.1 + 1]
  {
    hide ListOf;
    if |l| >= MAX_CHAIN { assert |Vals(l)[..MAX_CHAIN]| == MAX_CHAIN; }
  }

  lemma HeaderInside(b: Bytes, off: nat)
    requires HasItem(b, off)
    ensures off + HEADER <= |b|
  {
  }

  lemma NoTexts(vs: seq<Bytes>, lo: nat)
    requires lo <= |vs|
    ensures Replies.ItemTexts(vs[lo..lo]) == []
  {
  }

  lemma {:induction false} TextsConcat(a: seq<Bytes>, b: seq<Bytes>)
    ensures Replies.ItemTexts(a + b) == Replies.ItemTexts(a) + Replies.ItemTexts(b)
  {
    hide Replies.ItemText;
    if a == [] {
      assert a + b == b;
    } else {
      assert (a + b)[1..] == a[1..] + b;
      TextsConcat(a[1..], b);
    }
  }

  /** One more element adds its text, and what comes later only adds to it. */
  lemma OneMoreText(vs: seq<Bytes>, lo: nat, i: nat, end: nat)
    requires lo <= i < end <= |vs|
    ensures Replies.ItemTexts(vs[lo..i + 1]) == Replies.ItemTexts(vs[lo..i]) + Replies.ItemText(vs[i])
    ensures |Replies.ItemTexts(vs[lo..i + 1])| <= |Replies.ItemTexts(vs[lo..end])|
  {
    hide Replies.ItemText;
    assert vs[lo..i + 1] == vs[lo..i] + [vs[i]];
    assert vs[lo..end] == vs[lo..i + 1] + vs[i + 1..end];
    TextsConcat(vs[lo..i], [vs[i]]);
    TextsConcat(vs[lo..i + 1], vs[i + 1..end]);
    assert Replies.ItemTexts([vs[i]]) == Replies.ItemText(vs[i]);
  }

  lemma AnsweredNone(reply: Bytes, ok: bool, len: nat)
    requires ok <==> |RespSpec.Header(RespSpec.STAR, 0)| < |reply|
    requires ok ==> len < |reply| && reply[..len] == RespSpec.Header(RespSpec.STAR, 0)
    ensures Answered([], reply, ok, len)
  {
    var h := RespSpec.Header(RespSpec.STAR, 0);
    assert h + Replies.ItemTexts([]) == h;
  }

  lemma AnsweredRefused(ds: seq<Bytes>, reply: Bytes, len: nat)
    requires |RespSpec.Header(RespSpec.STAR, |ds|)| >= |reply|
    ensures Answered(ds, reply, false, len)
  {
  }

  lemma AnsweredAll(ds: seq<Bytes>, reply: Bytes, ok: bool, len: nat)
    requires var h, text := RespSpec.Header(RespSpec.STAR, |ds|), Replies.ItemTexts(ds);
             (ok <==> |h| + |text| < |reply|) && (ok ==> len == |h| + |text| && reply[..len] == h + text)
    ensures Answered(ds, reply, ok, len)
  {
  }
}
