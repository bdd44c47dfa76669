/**
Text written into caller-supplied reply buffers: snprintf, the formatters, and the array replies that
ZRANGE and LRANGE assemble piece by piece.
*/
module Replies {
  import opened ByteStrings
  import opened Options
  import opened Decimal
  import opened RespSpec
  import opened RespLaws

  // ----- Writing into a buffer -----

  /** snprintf at an offset: the text if it fits with its terminator, else as much of it as fits. */
  method Snprintf(dst: array<byte>, at: nat, text: Bytes) returns (n: nat)
    requires at <= dst.Length
    modifies dst
    ensures n == |text| && dst[..at] == old(dst[..at])
    ensures at + n < dst.Length ==> dst[at..at + n] == text && dst[at + n] == NUL
    ensures at < dst.Length <= at + n ==> dst[at..dst.Length - 1] == text[..dst.Length - 1 - at] && dst[dst.Length - 1] == NUL
    ensures forall j :: at + n < j < dst.Length ==> dst[j] == old(dst[j])
  {
    n := |text|;
    if at == dst.Length {
      return;
    }
    var k := if at + n < dst.Length then n else dst.Length - at - 1;
    var i := 0;
    while i < k
      invariant 0 <= i <= k && dst[..at] == old(dst[..at])
      invariant dst[at..at + i] == text[..i]
      invariant forall j :: at + n < j < dst.Length ==> dst[j] == old(dst[j])
    {
      dst[at + i] := text[i];
      assert dst[at..at + i + 1] == dst[at..at + i] + [text[i]];
      i := i + 1;
    }
    dst[at + k] := NUL;
  }

  method AppendStr(dst: array<byte>, used: nat, s: Bytes) returns (ok: bool, used': nat)
    requires used <= dst.Length
    modifies dst
    ensures ok <==> used + |s| < dst.Length
    ensures ok ==> used' == used + |s| && dst[..used'] == old(dst[..used]) + s
    ensures !ok ==> used' == used && dst[..] == old(dst[..])
  {
    used' := used;
    if used + |s| >= dst.Length {
      return false, used';
    }
    var i := 0;
    while i < |s|
      invariant 0 <= i <= |s|
      invariant dst[..used + i] == old(dst[..used]) + s[..i]
    {
      dst[used + i] := s[i];
      assert dst[..used + i + 1] == dst[..used + i] + [s[i]];
      i := i + 1;
    }
    return true, used + |s|;
  }

  /** The formatters' common promise: the text of v and a terminator if both fit, else a refusal. */
  ghost predicate Formatted(dst: Bytes, n: int, v: Value)
  {
    if |Encode(v)| < |dst| then n == |Encode(v)| && dst[..n] == Encode(v) && dst[n] == NUL
    else n == -1
  }

  /** resp_format_simple and resp_format_error: the two differ in the type byte only. */
  method FormatLine(dst: array<byte>, isError: bool, text: Bytes) returns (n: int)
    requires NUL !in text
    modifies dst
    ensures Formatted(dst[..], n, if isError then Error(text) else Simple(text))
  {
    var ok, used := AppendStr(dst, 0, [if isError then MINUS else PLUS]);
    if !ok {
      return -1;
    }
    ok, used := AppendStr(dst, used, text);
    if !ok {
      return -1;
    }
    ok, used := AppendStr(dst, used, CRLF);
    if !ok {
      return -1;
    }
    dst[used] := NUL;
    return used;
  }

  method FormatInteger(dst: array<byte>, value: int) returns (n: int)
    requires INT64_MIN <= value <= INT64_MAX
    modifies dst
    ensures Formatted(dst[..], n, Integer(value))
  {
    n := Snprintf(dst, 0, Header(COLON, value));
    if n >= dst.Length {
      return -1;
    }
    assert dst[..][..n] == dst[0..n];
  }

  method FormatBulk(dst: array<byte>, data: Bytes) returns (n: int)
    modifies dst
    ensures Formatted(dst[..], n, Bulk(data))
  {
    var h := Snprintf(dst, 0, Header(DOLLAR, |data|));
    if h >= dst.Length {
      return -1;
    }
    assert dst[..h] == dst[0..h];
    if h + |data| + 3 > dst.Length {
      return -1;
    }
    var ok, used := AppendStr(dst, h, data);
    ok, used := AppendStr(dst, used, CRLF);
    dst[used] := NUL;
    return used;
  }

  method FormatNull(dst: array<byte>) returns (n: int)
    modifies dst
    ensures Formatted(dst[..], n, Null)
  {
    NullText();
    var ok, used := AppendStr(dst, 0, [DOLLAR, MINUS, 49, CR, LF]);
    if !ok {
      return -1;
    }
    dst[used] := NUL;
    return used;
  }

  lemma NullText()
    ensures Encode(Null) == [36, 45, 49, 13, 10]
  {
    assert Digits(1) == [49];
  }

  /** Whatever a formatter accepts reads back as the value it was given, unless that value is not printable. */
  lemma FormattedDecodes(dst: Bytes, n: int, v: Value)
    requires Formatted(dst, n, v) && n >= 0 && |dst| <= INT64_MAX
    ensures Parse(dst[..n]) == Done(v, n) <==> Printable(v)
  {
    assert Encode(v) + [] == Encode(v);
    RoundTripExactly(v, []);
  }

  // ----- Pieces of an array reply -----

  /** What "%.*s" prints of a byte string: everything before its first NUL. */
  function UntilNul(d: Bytes): (r: Bytes)
    ensures r <= d && 0 !in r && (|r| < |d| ==> d[|r|] == 0)
    ensures |r| == |d| <==> NUL !in d
  {
    if d == [] || d[0] == NUL then [] else [d[0]] + UntilNul(d[1..])
  }

  /** One bulk string as "$%zu\r\n%.*s\r\n" prints it. */
  function ItemText(d: Bytes): Bytes
  {
    Header(DOLLAR, |d|) + UntilNul(d) + CRLF
  }

  function ItemTexts(ds: seq<Bytes>): Bytes
  {
    if ds == [] then [] else ItemText(ds[0]) + ItemTexts(ds[1..])
  }

  predicate NulFree(ds: seq<Bytes>)
  {
    forall d :: d in ds ==> NUL !in d
  }

  lemma ItemTextIs(d: Bytes)
    ensures ItemText(d) == Encode(Bulk(d)) <==> NUL !in d
    ensures |ItemText(d)| <= |Encode(Bulk(d))|
    ensures |ItemText(d)| == |Encode(Bulk(d))| <==> NUL !in d
  {
  }

  lemma FirstNul(d: Bytes, r: Bytes, k: nat)
    requires k < |d| && d[k] == 0 && 0 !in d[..k] && r <= d && 0 !in r && (|r| < |d| ==> d[|r|] == 0)
    ensures |r| == k
  {
    assert forall i :: 0 <= i < k ==> d[..k][i] == d[i];
    assert forall i :: 0 <= i < |r| ==> r[i] == d[i];
  }

  /** With a NUL inside, the length still counts all bytes: those from the NUL on are missing before the line end. */
  lemma ItemTextMisses(d: Bytes, k: nat)
    requires k < |d| && d[k] == 0 && 0 !in d[..k]
    ensures ItemText(d) == [36] + Digits(|d|) + [13, 10] + d[..k] + [13, 10]
  {
    var r := UntilNul(d);
    assert r == d[..|r|];
    if |r| != k {
      FirstNul(d, r, k);
      assert false;
    }
  }

  lemma {:induction false} ItemTextsAre(ds: seq<Bytes>)
    ensures |ItemTexts(ds)| <= |EncodeAll(Bulks(ds))|
    ensures |ItemTexts(ds)| == |EncodeAll(Bulks(ds))| <==> NulFree(ds)
    ensures NulFree(ds) ==> ItemTexts(ds) == EncodeAll(Bulks(ds))
  {
    if ds != [] {
      ItemTextIs(ds[0]);
      ItemTextsAre(ds[1..]);
      assert Bulks(ds)[1..] == Bulks(ds[1..]);
      assert NulFree(ds) <==> NUL !in ds[0] && NulFree(ds[1..]) by {
        assert ds == [ds[0]] + ds[1..];
      }
    }
  }

  /** The reply a range command should give. */
  function ArrayReply(ds: seq<Bytes>): Bytes
  {
    Encode(Array(Bulks(ds)))
  }

  lemma ArrayReplyIs(ds: seq<Bytes>)
    ensures ArrayReply(ds) == Header(STAR, |ds|) + EncodeAll(Bulks(ds))
  {
  }

  /** A range reply reads back as the array of exactly those elements. */
  lemma ArrayReplyDecodes(ds: seq<Bytes>, rest: Bytes)
    requires |ds| <= INT64_MAX && forall d :: d in ds ==> |d| <= INT64_MAX
    ensures Parse(ArrayReply(ds) + rest) == Done(Array(Bulks(ds)), |ArrayReply(ds)|)
  {
    BulksPrintable(ds);
    DecodeEncode(Array(Bulks(ds)), rest);
  }

  // ----- The clamping of ZRANGE and LRANGE -----

  /** Both commands clamp alike: below zero the start is 0 and the stop is the last element. */
  function Clamp(start: int, stop: int, total: nat): (w: (int, int))
    ensures 0 <= w.0 && w.1 < total
  {
    (if start < 0 then 0 else start, if stop < 0 || stop >= total then total - 1 else stop)
  }

  /** The elements a range command should list. */
  function Slice<T>(s: seq<T>, start: int, stop: int): seq<T>
  {
    var w := Clamp(start, stop, |s|);
    if w.0 > w.1 then [] else s[w.0..w.1 + 1]
  }

  /** The range a client asks for: from start, up to stop inclusive or, below zero, to the end. */
  predicate Wanted(i: int, start: int, stop: int)
  {
    start <= i && (stop < 0 || i <= stop)
  }

  /** A range command selects one run of the elements, and an element is in it exactly if its index is asked for. */
  lemma SliceIsWanted<T>(s: seq<T>, start: int, stop: int) returns (lo: nat, hi: nat)
    ensures lo <= hi <= |s| && Slice(s, start, stop) == s[lo..hi]
    ensures forall i :: 0 <= i < |s| ==> (lo <= i < hi <==> Wanted(i, start, stop))
  {
    var w := Clamp(start, stop, |s|);
    if w.0 > w.1 { lo, hi := 0, 0; } else { lo, hi := w.0, w.1 + 1; }
  }

  // ----- ZRANGE: pieces that do not fit are skipped -----

  function AppendFitting(reply: Bytes, text: Bytes, cap: nat): Bytes
  {
    if |reply| + |text| < cap then reply + text else reply
  }

  function CollectFitting(ds: seq<Bytes>, cap: nat, reply: Bytes): Bytes
  {
    if ds == [] then reply
    else CollectFitting(ds[1..], cap, AppendFitting(reply, ItemText(ds[0]), cap))
  }

  lemma {:induction false} CollectConcat(a: seq<Bytes>, b: seq<Bytes>, cap: nat, reply: Bytes)
    ensures CollectFitting(a + b, cap, reply) == CollectFitting(b, cap, CollectFitting(a, cap, reply))
  {
    if a == [] {
      assert a + b == b;
    } else {
      assert (a + b)[1..] == a[1..] + b;
      CollectConcat(a[1..], b, cap, AppendFitting(reply, ItemText(a[0]), cap));
    }
  }

  /** The collected reply stays below the capacity, and is complete exactly when everything fits. */
  lemma {:induction false} CollectExact(ds: seq<Bytes>, cap: nat, reply: Bytes)
    requires |reply| < cap
    ensures |CollectFitting(ds, cap, reply)| < cap
    ensures |CollectFitting(ds, cap, reply)| <= |reply| + |ItemTexts(ds)|
    ensures |reply| + |ItemTexts(ds)| < cap ==> CollectFitting(ds, cap, reply) == reply + ItemTexts(ds)
  {
    hide ItemText;
    if ds == [] {
      assert reply + [] == reply;
    } else {
      var next := AppendFitting(reply, ItemText(ds[0]), cap);
      CollectExact(ds[1..], cap, next);
      assert reply + (ItemText(ds[0]) + ItemTexts(ds[1..])) == reply + ItemText(ds[0]) + ItemTexts(ds[1..]);
    }
  }

  /** What ZRANGE writes for the elements ds, when the header fits. */
  function CollectedReply(ds: seq<Bytes>, cap: nat): Bytes
  {
    CollectFitting(ds, cap, Header(STAR, |ds|))
  }

  /**
  ZRANGE answers with the array of the selected elements exactly when the whole answer fits the buffer
  and no element holds a NUL; otherwise the header announces more than follows.
  */
  lemma CollectedReplyExact(ds: seq<Bytes>, cap: nat)
    requires |Header(STAR, |ds|)| < cap
    ensures CollectedReply(ds, cap) == ArrayReply(ds) <==> |ArrayReply(ds)| < cap && NulFree(ds)
    ensures CollectedReply(ds, cap) != ArrayReply(ds) ==> |CollectedReply(ds, cap)| < |ArrayReply(ds)|
  {
    var h := Header(STAR, |ds|);
    CollectExact(ds, cap, h);
    ItemTextsAre(ds);
    ArrayReplyIs(ds);
  }

  /** The elements that ZRANGE does not skip, when used bytes of the buffer are taken. */
  function Kept(ds: seq<Bytes>, cap: nat, used: nat): seq<Bytes>
  {
    if ds == [] then []
    else if used + |ItemText(ds[0])| < cap then [ds[0]] + Kept(ds[1..], cap, used + |ItemText(ds[0])|)
    else Kept(ds[1..], cap, used)
  }

  lemma NoTexts()
    ensures ItemTexts([]) == []
  {
  }

  lemma TextsCons(d: Bytes, ds: seq<Bytes>)
    ensures ItemTexts([d] + ds) == ItemText(d) + ItemTexts(ds)
  {
    assert ([d] + ds)[1..] == ds;
  }

  lemma {:induction false} CollectKeeps(ds: seq<Bytes>, cap: nat, reply: Bytes)
    requires |reply| < cap
    ensures CollectFitting(ds, cap, reply) == reply + ItemTexts(Kept(ds, cap, |reply|))
    ensures |Kept(ds, cap, |reply|)| <= |ds| && forall d :: d in Kept(ds, cap, |reply|) ==> d in ds
    ensures |Kept(ds, cap, |reply|)| == |ds| <==> |reply| + |ItemTexts(ds)| < cap
    ensures |Kept(ds, cap, |reply|)| == |ds| ==> Kept(ds, cap, |reply|) == ds
  {
    hide ItemText, ItemTexts;
    NoTexts();
    if ds == [] {
      assert reply + [] == reply;
    } else {
      var t := ItemText(ds[0]);
      var next := AppendFitting(reply, t, cap);
      CollectKeeps(ds[1..], cap, next);
      var k := Kept(ds[1..], cap, |next|);
      TextsCons(ds[0], ds[1..]);
      assert [ds[0]] + ds[1..] == ds;
      if |reply| + |t| < cap {
        TextsCons(ds[0], k);
        assert reply + t + ItemTexts(k) == reply + (t + ItemTexts(k));
      }
    }
  }

  /** What a client makes of a ZRANGE reply without NUL bytes: exactly the slice, or an unfinished array. */
  lemma CollectedReplyDecodes(ds: seq<Bytes>, cap: nat)
    requires |Header(STAR, |ds|)| < cap && NulFree(ds)
    requires |ds| <= INT64_MAX && forall d :: d in ds ==> |d| <= INT64_MAX
    ensures Parse(CollectedReply(ds, cap)) ==
            if |ArrayReply(ds)| < cap then Done(Array(Bulks(ds)), |ArrayReply(ds)|) else NeedMore
  {
    hide Header, Parse, ItemTexts, Kept, Encode;
    var h := Header(STAR, |ds|);
    var kept := Kept(ds, cap, |h|);
    CollectKeeps(ds, cap, h);
    ItemTextsAre(ds);
    ArrayReplyIs(ds);
    if kept == ds {
      ArrayReplyDecodes(ds, []);
      assert ArrayReply(ds) + [] == ArrayReply(ds);
    } else {
      ItemTextsAre(kept);
      BulksPrintable(kept);
      ShortArrayWaits(Bulks(kept), |ds|);
    }
  }
}
