/** Laws of the codec: verdicts survive more input, decoding undoes printing, and decoding is bounded. */
module RespLaws {
  import opened ByteStrings
  import opened Options
  import opened Decimal
  import opened RespSpec

  // ----- A verdict other than NeedMore is final -----

  lemma FindCrlfIs(s: Bytes, from: nat, i: nat)
    requires from <= i && CrlfAt(s, i) && forall j :: from <= j < i ==> !CrlfAt(s, j)
    ensures FindCrlf(s, from) == Some(i)
  {
    var r := FindCrlf(s, from);
    assert r.Some?;
    assert !(r.value < i) && !(i < r.value);
  }

  lemma FindCrlfStable(s: Bytes, t: Bytes, from: nat)
    requires FindCrlf(s, from).Some?
    ensures FindCrlf(s + t, from) == FindCrlf(s, from)
  {
    var i := FindCrlf(s, from).value;
    assert forall j :: j < i ==> CrlfAt(s + t, j) == CrlfAt(s, j);
    assert CrlfAt(s + t, i);
    FindCrlfIs(s + t, from, i);
  }

  lemma FindLfStable(s: Bytes, t: Bytes)
    requires FindLf(s, 0).Some?
    ensures FindLf(s + t, 0) == FindLf(s, 0)
  {
    var i, r := FindLf(s, 0).value, FindLf(s + t, 0);
    assert (s + t)[i] == LF;
    assert r.Some?;
    assert !(r.value < i) && !(i < r.value);
  }

  lemma InlineStable(s: Bytes, t: Bytes)
    requires ParseInline(s) != NeedMore
    ensures ParseInline(s + t) == ParseInline(s)
  {
    FindLfStable(s, t);
    var lf := FindLf(s, 0).value;
    assert forall e :: 0 <= e <= lf ==> (s + t)[..e] == s[..e];
  }

  lemma BulkStable(s: Bytes, t: Bytes, crlf: nat, len: int)
    requires CrlfAt(s, crlf) && ParseBulk(s, crlf, len) != NeedMore
    ensures CrlfAt(s + t, crlf) && ParseBulk(s + t, crlf, len) == ParseBulk(s, crlf, len)
  {
    if len >= 0 {
      var end := crlf + 2 + len;
      assert (s + t)[crlf + 2..end] == s[crlf + 2..end];
    }
  }

  /** Appending bytes never changes a verdict other than NeedMore, nor the bytes it consumed. */
  lemma {:induction false} ParseStable(s: Bytes, t: Bytes)
    requires Parse(s) != NeedMore
    ensures Parse(s + t) == Parse(s)
    decreases |s|, 1
  {
    assert (s + t)[0] == s[0];
    if !Typed(s[0]) {
      InlineStable(s, t);
    } else {
      FindCrlfStable(s, t, 1);
      TypedStable(s, t, FindCrlf(s, 1).value);
    }
  }

  lemma {:induction false} TypedStable(s: Bytes, t: Bytes, crlf: nat)
    requires 1 <= crlf && CrlfAt(s, crlf) && ParseTyped(s, crlf) != NeedMore
    ensures CrlfAt(s + t, crlf) && ParseTyped(s + t, crlf) == ParseTyped(s, crlf)
    decreases |s|, 0
  {
    assert (s + t)[0] == s[0] && (s + t)[1..crlf] == s[1..crlf];
    var n := ParseInt(s[1..crlf]);
    if n.Number? && s[0] == DOLLAR {
      BulkStable(s, t, crlf, n.value);
    } else if n.Number? && !(s[0] in {PLUS, MINUS, COLON}) && n.value >= 0 {
      SuffixGrows(s, t, crlf + 2);
      ItemsStable(s[crlf + 2..], t, n.value);
    }
  }

  lemma {:induction false} ItemsStable(s: Bytes, t: Bytes, count: nat)
    requires ParseItems(s, count) != Stopped(NeedMore)
    ensures ParseItems(s + t, count) == ParseItems(s, count)
    decreases |s|, 2 + count
  {
    if count > 0 {
      ItemsNotWaiting(s, count);
      ParseStable(s, t);
      if Parse(s).Done? {
        ItemsStable(s[Parse(s).used..], t, count - 1);
      }
      ItemsStableStep(s, t, count);
    }
  }

  lemma ItemsNotWaiting(s: Bytes, count: nat)
    requires count > 0 && ParseItems(s, count) != Stopped(NeedMore)
    ensures Parse(s) != NeedMore
    ensures Parse(s).Done? ==> ParseItems(s[Parse(s).used..], count - 1) != Stopped(NeedMore)
  {
    ItemsStep(s, count);
  }

  lemma ItemsStableStep(s: Bytes, t: Bytes, count: nat)
    requires count > 0 && Parse(s + t) == Parse(s)
    requires Parse(s).Done? ==>
               var rest := s[Parse(s).used..]; ParseItems(rest + t, count - 1) == ParseItems(rest, count - 1)
    ensures ParseItems(s + t, count) == ParseItems(s, count)
  {
    if Parse(s).Done? { SuffixGrows(s, t, Parse(s).used); }
    ItemsStep(s, count);
    ItemsStep(s + t, count);
  }

  lemma SuffixGrows(s: Bytes, t: Bytes, k: nat)
    requires k <= |s|
    ensures (s + t)[k..] == s[k..] + t
  {
  }

  /** One round of the array loop. */
  lemma ItemsStep(s: Bytes, count: nat)
    requires count > 0
    ensures !Parse(s).Done? ==> ParseItems(s, count) == Stopped(Parse(s))
    ensures Parse(s).Done? ==>
              ParseItems(s, count) == Prepend(Parse(s), ParseItems(s[Parse(s).used..], count - 1))
  {
  }

  /** The verdict on any prefix that is not NeedMore is the verdict on the whole. */
  lemma PrefixVerdict(s: Bytes, k: nat)
    requires k <= |s| && Parse(s[..k]) != NeedMore
    ensures Parse(s) == Parse(s[..k])
  {
    ParseStable(s[..k], s[k..]);
    assert s == s[..k] + s[k..];
  }

  // ----- Decoding undoes printing -----

  /** A CRLF-free line after the type byte ends exactly where its own CRLF stands. */
  lemma LineEnds(b: byte, line: Bytes, rest: Bytes)
    requires CrlfFree(line)
    ensures var s := [b] + line + CRLF + rest;
            FindCrlf(s, 1) == Some(1 + |line|) && s[1..1 + |line|] == line && s[|line| + 3..] == rest
  {
    var s := [b] + line + CRLF + rest;
    forall j | 1 <= j < 1 + |line| ensures !CrlfAt(s, j) {
      assert s[j] == line[j - 1];
      if j < |line| { assert s[j + 1] == line[j]; assert !CrlfAt(line, j - 1); }
    }
    assert s[1 + |line|] == CR && s[2 + |line|] == LF;
    FindCrlfIs(s, 1, 1 + |line|);
  }

  lemma NumberLine(n: int)
    ensures CrlfFree(IntText(n))
  {
  }

  lemma HeaderEnds(b: byte, n: int, rest: Bytes)
    requires INT64_MIN < n <= INT64_MAX
    ensures var s := Header(b, n) + rest; var k := |IntText(n)|;
            && FindCrlf(s, 1) == Some(1 + k) && ParseInt(s[1..1 + k]) == Number(n)
            && s[0] == b && s[k + 3..] == rest && |Header(b, n)| == k + 3
  {
    NumberLine(n);
    LineEnds(b, IntText(n), rest);
    ParseIntText(n);
    assert Header(b, n) + rest == [b] + IntText(n) + CRLF + rest;
  }

  lemma BulkBody(h: Bytes, d: Bytes, rest: Bytes)
    requires |h| >= 2 && CrlfAt(h, |h| - 2)
    ensures var s := h + (d + CRLF + rest);
            CrlfAt(s, |h| - 2) && ParseBulk(s, |h| - 2, |d|) == Done(Bulk(d), |h| + |d| + 2)
  {
    var s := h + (d + CRLF + rest);
    assert s[|h|..|h| + |d|] == d;
    assert s[|h| + |d|] == CR && s[|h| + |d| + 1] == LF;
  }

  lemma BulkRoundTrip(d: Bytes, rest: Bytes)
    requires |d| <= INT64_MAX
    ensures Parse(Encode(Bulk(d)) + rest) == Done(Bulk(d), |Encode(Bulk(d))|)
  {
    var h, body := Header(DOLLAR, |d|), d + CRLF + rest;
    HeaderEnds(DOLLAR, |d|, body);
    assert CrlfAt(h, |h| - 2);
    BulkBody(h, d, rest);
    assert Encode(Bulk(d)) + rest == h + body;
  }

  lemma TextRoundTrip(t: Bytes, rest: Bytes)
    requires CrlfFree(t)
    ensures Parse(Encode(Simple(t)) + rest) == Done(Simple(t), |Encode(Simple(t))|)
    ensures Parse(Encode(Error(t)) + rest) == Done(Error(t), |Encode(Error(t))|)
  {
    LineEnds(PLUS, t, rest);
    LineEnds(MINUS, t, rest);
  }

  lemma NumberRoundTrip(n: int, rest: Bytes)
    requires INT64_MIN < n <= INT64_MAX
    ensures Parse(Encode(Integer(n)) + rest) == Done(Integer(n), |Encode(Integer(n))|)
    ensures Parse(Encode(Null) + rest) == Done(Null, |Encode(Null)|)
  {
    HeaderEnds(COLON, n, rest);
    HeaderEnds(DOLLAR, -1, rest);
  }

  lemma ArrayRoundTrip(vs: seq<Value>, body: Bytes)
    requires |vs| <= INT64_MAX && ParseItems(body, |vs|).Items?
    ensures var r := ParseItems(body, |vs|); var h := Header(STAR, |vs|);
            Parse(h + body) == Done(Array(r.vs), |h| + r.used)
  {
    HeaderEnds(STAR, |vs|, body);
  }

  /** Parsing the text of a printable value, whatever follows it, gives the value and eats just its text. */
  lemma {:induction false} DecodeEncode(v: Value, rest: Bytes)
    requires Printable(v)
    ensures Parse(Encode(v) + rest) == Done(v, |Encode(v)|)
    decreases v, 0
  {
    match v
    case Simple(t) => TextRoundTrip(t, rest);
    case Error(t) => TextRoundTrip(t, rest);
    case Integer(n) => NumberRoundTrip(n, rest);
    case Bulk(d) => BulkRoundTrip(d, rest);
    case Null => NumberRoundTrip(0, rest);
    case Array(vs) =>
      DecodeEncodeAll(vs, rest);
      ArrayRoundTrip(vs, EncodeAll(vs) + rest);
      assert Encode(v) + rest == Header(STAR, |vs|) + (EncodeAll(vs) + rest);
  }

  lemma {:induction false} DecodeEncodeAll(vs: seq<Value>, rest: Bytes)
    requires PrintableAll(vs)
    ensures ParseItems(EncodeAll(vs) + rest, |vs|) == Items(vs, |EncodeAll(vs)|)
    decreases vs, 1
  {
    if vs != [] {
      var e, more := Encode(vs[0]), EncodeAll(vs[1..]) + rest;
      assert EncodeAll(vs) + rest == e + more;
      DecodeEncode(vs[0], more);
      assert (e + more)[|e|..] == more;
      DecodeEncodeAll(vs[1..], rest);
      assert [vs[0]] + vs[1..] == vs;
    }
  }

  lemma NothingWaits()
    ensures Parse([]) == NeedMore
  {
  }

  /** An array text with fewer elements than announced waits for more. */
  lemma {:induction false} TooFewWait(vs: seq<Value>, count: nat)
    requires PrintableAll(vs) && |vs| < count
    ensures ParseItems(EncodeAll(vs), count) == Stopped(NeedMore)
  {
    hide Parse, Encode;
    NothingWaits();
    if vs != [] {
      var e, more := Encode(vs[0]), EncodeAll(vs[1..]);
      assert EncodeAll(vs) == e + more;
      DecodeEncode(vs[0], more);
      assert (e + more)[|e|..] == more;
      TooFewWait(vs[1..], count - 1);
    }
  }

  lemma ShortArrayWaits(vs: seq<Value>, count: nat)
    requires PrintableAll(vs) && |vs| < count <= INT64_MAX
    ensures Parse(Header(STAR, count) + EncodeAll(vs)) == NeedMore
  {
    HeaderEnds(STAR, count, EncodeAll(vs));
    TooFewWait(vs, count);
  }

  // ----- Whatever is decoded can be printed -----

  lemma BulksPrintable(ts: seq<Bytes>)
    requires forall t :: t in ts ==> |t| <= INT64_MAX
    ensures PrintableAll(Bulks(ts))
  {
    if ts != [] {
      BulksPrintable(ts[1..]);
      assert Bulks(ts)[1..] == Bulks(ts[1..]);
    }
  }

  lemma {:induction false} TokensShort(s: Bytes, i: nat)
    requires i <= |s|
    ensures |Tokens(s, i)| <= |s| - i
    ensures forall t :: t in Tokens(s, i) ==> |t| <= |s|
    decreases |s| - i
  {
    var a := SkipBlanks(s, i);
    if a < |s| { TokensShort(s, TokenEnd(s, a)); }
  }

  lemma LineIsCrlfFree(s: Bytes)
    requires FindCrlf(s, 1).Some?
    ensures CrlfFree(s[1..FindCrlf(s, 1).value])
  {
    var line := s[1..FindCrlf(s, 1).value];
    forall i | 0 <= i < |line| ensures !CrlfAt(line, i) {
      assert CrlfAt(line, i) ==> CrlfAt(s, i + 1);
    }
  }

  /** Every decoded value is printable: the decoder and the printer have the same range. */
  lemma {:induction false} DecodedIsPrintable(s: Bytes)
    requires |s| <= INT64_MAX && Parse(s).Done?
    ensures Printable(Parse(s).v)
    decreases |s|, 1
  {
    if !Typed(s[0]) {
      var lf := FindLf(s, 0).value;
      var end := if lf > 0 && s[lf - 1] == CR then lf - 1 else lf;
      TokensShort(s[..end], 0);
      BulksPrintable(Tokens(s[..end], 0));
    } else {
      LineIsCrlfFree(s);
      TypedIsPrintable(s, FindCrlf(s, 1).value);
    }
  }

  lemma {:induction false} TypedIsPrintable(s: Bytes, crlf: nat)
    requires |s| <= INT64_MAX && 1 <= crlf && CrlfAt(s, crlf) && CrlfFree(s[1..crlf]) && ParseTyped(s, crlf).Done?
    ensures Printable(ParseTyped(s, crlf).v)
    decreases |s|, 0
  {
    var n := ParseInt(s[1..crlf]);
    if n.Number? && n.value >= 0 && !(s[0] in {PLUS, MINUS, COLON, DOLLAR}) {
      DecodedItemsPrintable(s[crlf + 2..], n.value);
    }
  }

  lemma {:induction false} DecodedItemsPrintable(s: Bytes, count: nat)
    requires |s| <= INT64_MAX && ParseItems(s, count).Items?
    ensures PrintableAll(ParseItems(s, count).vs)
    decreases |s|, 2 + count
  {
    if count > 0 {
      DecodedIsPrintable(s);
      DecodedItemsPrintable(s[Parse(s).used..], count - 1);
    }
  }

  /** The text of a value reads back as that value exactly when the value is printable. */
  lemma RoundTripExactly(v: Value, rest: Bytes)
    requires |Encode(v) + rest| <= INT64_MAX
    ensures Parse(Encode(v) + rest) == Done(v, |Encode(v)|) <==> Printable(v)
  {
    if Printable(v) {
      DecodeEncode(v, rest);
    } else if Parse(Encode(v) + rest) == Done(v, |Encode(v)|) {
      DecodedIsPrintable(Encode(v) + rest);
    }
  }

  /** Two printable values with texts that start alike are the same value: the encoding is prefix-free. */
  lemma EncodingIsPrefixFree(v: Value, w: Value, x: Bytes, y: Bytes)
    requires Printable(v) && Printable(w) && Encode(v) + x == Encode(w) + y
    ensures v == w && x == y
  {
    DecodeEncode(v, x);
    DecodeEncode(w, y);
    assert (Encode(v) + x)[|Encode(v)|..] == x && (Encode(w) + y)[|Encode(w)|..] == y;
  }

  // ----- Decoding is bounded by the bytes, whatever a header announces -----

  /** Number of values in a value, itself included. */
  function Weight(v: Value): (n: nat)
    ensures n >= 1
    decreases v, 0
  {
    if v.Array? then 1 + WeightAll(v.items) else 1
  }

  function WeightAll(vs: seq<Value>): nat
    decreases vs, 1
  {
    if vs == [] then 0 else Weight(vs[0]) + WeightAll(vs[1..])
  }

  function Depth(v: Value): (n: nat)
    decreases v, 0
  {
    if v.Array? then 1 + DepthAll(v.items) else 0
  }

  function DepthAll(vs: seq<Value>): nat
    decreases vs, 1
  {
    if vs == [] then 0
    else
      var d, rest := Depth(vs[0]), DepthAll(vs[1..]);
      if d < rest then rest else d
  }

  lemma {:induction false} BulksWeigh(ts: seq<Bytes>)
    ensures WeightAll(Bulks(ts)) == |ts| && DepthAll(Bulks(ts)) == 0
  {
    if ts != [] {
      BulksWeigh(ts[1..]);
      assert Bulks(ts)[1..] == Bulks(ts[1..]);
    }
  }

  /** A decoded value has no more nested values, and no deeper nesting, than it has bytes. */
  lemma {:induction false} DecodingIsBounded(s: Bytes)
    requires Parse(s).Done?
    ensures Weight(Parse(s).v) <= Parse(s).used && Depth(Parse(s).v) <= Parse(s).used
    decreases |s|, 1
  {
    if !Typed(s[0]) {
      var lf := FindLf(s, 0).value;
      var end := if lf > 0 && s[lf - 1] == CR then lf - 1 else lf;
      TokensShort(s[..end], 0);
      BulksWeigh(Tokens(s[..end], 0));
    } else {
      TypedIsBounded(s, FindCrlf(s, 1).value);
    }
  }

  lemma {:induction false} TypedIsBounded(s: Bytes, crlf: nat)
    requires 1 <= crlf && CrlfAt(s, crlf) && ParseTyped(s, crlf).Done?
    ensures var r := ParseTyped(s, crlf); Weight(r.v) <= r.used && Depth(r.v) <= r.used
    decreases |s|, 0
  {
    var n := ParseInt(s[1..crlf]);
    if n.Number? && n.value >= 0 && !(s[0] in {PLUS, MINUS, COLON, DOLLAR}) {
      ItemsAreBounded(s[crlf + 2..], n.value);
    }
  }

  lemma {:induction false} ItemsAreBounded(s: Bytes, count: nat)
    requires ParseItems(s, count).Items?
    ensures var r := ParseItems(s, count); WeightAll(r.vs) <= r.used && DepthAll(r.vs) <= r.used
    decreases |s|, 2 + count
  {
    if count > 0 {
      DecodingIsBounded(s);
      ItemsAreBounded(s[Parse(s).used..], count - 1);
    }
  }
}
