/**
The language of the decoder, told without it: which byte strings are the text of which value, and the theorem
that the decoder accepts exactly those.
*/
module RespGrammar {
  import opened ByteStrings
  import opened Options
  import opened Decimal
  import opened RespSpec
  import opened RespLaws
  import opened RespInline

  // ----- The grammar -----

  /** t starts with the type byte b and its first CR LF is at k. */
  predicate LineTo(t: Bytes, b: byte, k: int): (ok: bool)
    ensures ok ==> 1 <= k && k + 1 < |t| && t[0] == b
  {
    && 1 <= k && k + 1 < |t| && t[0] == b && t[k] == 13 && t[k + 1] == 10
    && forall j :: 1 <= j < k ==> !(t[j] == 13 && t[j + 1] == 10)
  }

  /** A numeral that fits 64 bits, for the number n. */
  predicate Denotes(line: Bytes, n: int)
  {
    Numeral(line) && Positional(Magnitude(line)) <= INT64_MAX && ValueOf(line) == n
  }

  predicate Negative(line: Bytes)
  {
    Numeral(line) && Positional(Magnitude(line)) <= INT64_MAX && ValueOf(line) < 0
  }

  predicate BulkAt(t: Bytes, k: int, d: Bytes)
  {
    LineTo(t, 36, k) && Denotes(t[1..k], |d|) && t[k + 2..] == d + [13, 10]
  }

  predicate InlineOf(t: Bytes, gaps: seq<Bytes>, ts: seq<Bytes>, end: Bytes)
  {
    && Spaced(gaps, ts) && Ends(Laid(gaps, ts), end) && t == Laid(gaps, ts) + end
    && (Laid(gaps, ts) != [] ==> Untyped(Laid(gaps, ts)[0]))
  }

  ghost predicate InlineText(t: Bytes, vs: seq<Value>)
  {
    exists gaps, ts, end :: InlineOf(t, gaps, ts, end) && vs == Bulks(ts)
  }

  /** t is a text of v. */
  ghost predicate Text(t: Bytes, v: Value)
    decreases v, 0
  {
    match v
    case Simple(x) => LineTo(t, 43, |t| - 2) && t[1..|t| - 2] == x
    case Error(x) => LineTo(t, 45, |t| - 2) && t[1..|t| - 2] == x
    case Integer(n) => LineTo(t, 58, |t| - 2) && Denotes(t[1..|t| - 2], n)
    case Null => (LineTo(t, 36, |t| - 2) || LineTo(t, 42, |t| - 2)) && Negative(t[1..|t| - 2])
    case Bulk(d) => exists k :: BulkAt(t, k, d)
    case Array(vs) => InlineText(t, vs) || exists k :: LineTo(t, 42, k) && Denotes(t[1..k], |vs|) && TextAll(t[k + 2..], vs)
  }

  /** t is a text of one value after the other. */
  ghost predicate TextAll(t: Bytes, vs: seq<Value>)
    decreases vs, 2
  {
    if vs == [] then t == [] else exists k :: FirstText(t, k, vs[0]) && TextAll(t[k..], vs[1..])
  }

  ghost predicate FirstText(t: Bytes, k: int, v: Value)
    decreases v, 1
  {
    0 <= k <= |t| && Text(t[..k], v)
  }

  // ----- Lines -----

  /** The decoder's search finds the end of the first line. */
  lemma LineFound(t: Bytes, b: byte, k: int, rest: Bytes)
    requires LineTo(t, b, k)
    ensures var s := t + rest; s[0] == b && FindCrlf(s, 1) == Some(k) && s[1..k] == t[1..k] && s[k + 2..] == t[k + 2..] + rest
  {
    var s := t + rest;
    forall j | 1 <= j < k ensures !CrlfAt(s, j) { assert s[j] == t[j] && s[j + 1] == t[j + 1]; }
    FindCrlfIs(s, 1, k);
  }

  lemma LineRead(s: Bytes, k: nat, n: nat)
    requires s != [] && FindCrlf(s, 1) == Some(k) && k + 2 <= n <= |s|
    ensures var t := s[..n]; LineTo(t, s[0], k) && t[1..k] == s[1..k] && t[k + 2..] == s[k + 2..n]
  {
    var t := s[..n];
    forall j | 1 <= j < k ensures !(t[j] == 13 && t[j + 1] == 10) { assert !CrlfAt(s, j); }
  }

  lemma NumberRead(line: Bytes, n: int)
    ensures ParseInt(line) == Number(n) <==> Denotes(line, n)
    ensures ParseInt(line).Number? && ParseInt(line).value < 0 <==> Negative(line)
  {
    hide Accumulate, Positional, Numeral;
    ParseIntExact(line);
  }

  // ----- Every text is decoded -----

  lemma BulkTextDecodes(t: Bytes, k: int, d: Bytes, rest: Bytes)
    requires BulkAt(t, k, d)
    ensures Parse(t + rest) == Done(Bulk(d), |t|)
  {
    hide ParseInt, Denotes, LineTo;
    LineFound(t, 36, k, rest);
    NumberRead(t[1..k], |d|);
    var s := t + rest;
    assert |t| == k + 2 + |d| + 2;
    var body := d + [13, 10];
    assert s[k + 2..k + 2 + |d|] == body[..|d|] == d;
    assert s[k + 2 + |d|] == body[|d|] && s[k + 2 + |d| + 1] == body[|d| + 1];
  }

  lemma PlainTextDecodes(t: Bytes, v: Value, rest: Bytes)
    requires Text(t, v) && (v.Simple? || v.Error? || v.Integer? || v.Null?)
    ensures Parse(t + rest) == Done(v, |t|)
  {
    hide ParseInt, Denotes, Negative, LineTo;
    var k := |t| - 2;
    var b := if v.Simple? then 43 else if v.Error? then 45 else if v.Integer? then 58 else if LineTo(t, 36, k) then 36 else 42;
    LineFound(t, b, k, rest);
    NumberRead(t[1..k], if v.Integer? then v.n else 0);
  }

  lemma ArrayTextDecodes(t: Bytes, k: int, vs: seq<Value>, rest: Bytes)
    requires LineTo(t, 42, k) && Denotes(t[1..k], |vs|) && ParseItems(t[k + 2..] + rest, |vs|) == Items(vs, |t| - k - 2)
    ensures Parse(t + rest) == Done(Array(vs), |t|)
  {
    hide ParseInt, Denotes, LineTo, ParseItems;
    LineFound(t, 42, k, rest);
    NumberRead(t[1..k], |vs|);
  }

  lemma InlineTextDecodes(t: Bytes, vs: seq<Value>, rest: Bytes)
    requires InlineText(t, vs)
    ensures Parse(t + rest) == Done(Array(vs), |t|)
  {
    hide Parse, Spaced, Ends, Bulks;
    var gaps, ts, end :| InlineOf(t, gaps, ts, end) && vs == Bulks(ts);
    InlineDecodes(gaps, ts, end, rest);
  }

  lemma {:induction false} TextDecodes(t: Bytes, v: Value, rest: Bytes)
    requires Text(t, v)
    ensures Parse(t + rest) == Done(v, |t|)
    decreases v, 0
  {
    hide Parse, LineTo, Denotes, InlineText;
    match v {
      case Bulk(d) =>
        var k :| BulkAt(t, k, d);
        BulkTextDecodes(t, k, d, rest);
      case Array(vs) =>
        if InlineText(t, vs) {
          InlineTextDecodes(t, vs, rest);
        } else {
          var k :| LineTo(t, 42, k) && Denotes(t[1..k], |vs|) && TextAll(t[k + 2..], vs);
          TextsDecode(t[k + 2..], vs, rest);
          ArrayTextDecodes(t, k, vs, rest);
        }
      case _ => PlainTextDecodes(t, v, rest);
    }
  }

  lemma {:induction false} TextsDecode(t: Bytes, vs: seq<Value>, rest: Bytes)
    requires TextAll(t, vs)
    ensures ParseItems(t + rest, |vs|) == Items(vs, |t|)
    decreases vs, 2
  {
    hide Parse, Text;
    if vs != [] {
      var k :| FirstText(t, k, vs[0]) && TextAll(t[k..], vs[1..]);
      var s := t + rest;
      assert s == t[..k] + (t[k..] + rest) && s[k..] == t[k..] + rest;
      TextDecodes(t[..k], vs[0], t[k..] + rest);
      TextsDecode(t[k..], vs[1..], rest);
    }
  }

  // ----- Whatever is decoded is a text -----

  /** What an accepted inline command consists of: a line and its end. */
  lemma InlineParts(s: Bytes) returns (line: Bytes, tail: Bytes)
    requires s != [] && !Typed(s[0]) && Parse(s).Done?
    ensures Parse(s) == Done(Array(Bulks(Tokens(line, 0))), |line| + |tail|) && s[..|line| + |tail|] == line + tail
    ensures Ends(line, tail) && LF !in line && (line != [] ==> Untyped(line[0]))
  {
    hide Tokens, Bulks;
    var lf := FindLf(s, 0).value;
    var end := if lf > 0 && s[lf - 1] == CR then lf - 1 else lf;
    line, tail := s[..end], s[end..lf + 1];
    if end < lf { assert s[end..lf + 1] == [s[end], s[lf]]; } else { assert s[end..lf + 1] == [s[lf]]; }
    assert s[..lf + 1] == line + tail;
    assert forall i :: 0 <= i < |line| ==> line[i] == s[i];
  }

  lemma InlineIsText(s: Bytes)
    requires s != [] && !Typed(s[0]) && Parse(s).Done?
    ensures Text(s[..Parse(s).used], Parse(s).v)
  {
    hide Parse, Spaced, Tokens, Bulks, Ends, FindLf;
    var line, tail := InlineParts(s);
    var gaps, ts := LineIsLaid(line);
    assert InlineOf(line + tail, gaps, ts, tail);
    assert InlineText(line + tail, Bulks(ts));
  }

  lemma BulkIsText(s: Bytes, k: nat, n: int)
    requires s != [] && FindCrlf(s, 1) == Some(k) && s[0] == 36 && Denotes(s[1..k], n) && ParseBulk(s, k, n).Done?
    ensures var r := ParseBulk(s, k, n); r.used <= |s| && Text(s[..r.used], r.v)
  {
    hide FindCrlf, LineTo, Numeral, Positional, Magnitude, ValueOf;
    var r := ParseBulk(s, k, n);
    var t := s[..r.used];
    LineRead(s, k, r.used);
    if n >= 0 {
      BodyIs(s, k + 2, k + 2 + n);
      assert BulkAt(t, k, r.v.data);
    }
  }

  lemma BodyIs(s: Bytes, lo: nat, hi: nat)
    requires lo <= hi && hi + 2 <= |s| && s[hi] == 13 && s[hi + 1] == 10
    ensures s[lo..hi + 2] == s[lo..hi] + [13, 10]
  {
  }

  lemma LineIsUsed(s: Bytes, k: nat)
    requires 1 <= k && CrlfAt(s, k) && ParseTyped(s, k).Done?
    ensures k + 2 <= ParseTyped(s, k).used
  {
    hide ParseInt;
  }

  lemma {:induction false} DecodedIsText(s: Bytes)
    requires Parse(s).Done?
    ensures Text(s[..Parse(s).used], Parse(s).v)
    decreases |s|, 1
  {
    hide Text, ParseInline, ParseTyped;
    if !Typed(s[0]) { InlineIsText(s); } else { TypedIsText(s, FindCrlf(s, 1).value); }
  }

  lemma {:induction false} TypedIsText(s: Bytes, k: nat)
    requires s != [] && Typed(s[0]) && FindCrlf(s, 1) == Some(k) && ParseTyped(s, k).Done?
    ensures var r := ParseTyped(s, k); Text(s[..r.used], r.v)
    decreases |s|, 0
  {
    hide FindCrlf, InlineText, LineTo, Denotes, Negative, ParseBulk, ParseInt, TextAll, Parse, ParseItems;
    var r := ParseTyped(s, k);
    var n, t := ParseInt(s[1..k]), s[..r.used];
    LineIsUsed(s, k);
    LineRead(s, k, r.used);
    NumberRead(s[1..k], if n.Number? then n.value else 0);
    if s[0] == 36 {
      BulkIsText(s, k, n.value);
    } else if s[0] == 42 && n.value >= 0 {
      DecodedAreTexts(s[k + 2..], n.value);
      assert t[k + 2..] == s[k + 2..][..ParseItems(s[k + 2..], n.value).used];
      assert TextAll(t[k + 2..], r.v.items);
    }
  }

  lemma {:induction false} DecodedAreTexts(s: Bytes, count: nat)
    requires ParseItems(s, count).Items?
    ensures var r := ParseItems(s, count); TextAll(s[..r.used], r.vs)
    decreases |s|, 2 + count
  {
    hide Parse, Text;
    if count > 0 {
      var r := ParseItems(s, count);
      var k := Parse(s).used;
      DecodedIsText(s);
      DecodedAreTexts(s[k..], count - 1);
      var t := s[..r.used];
      assert t[..k] == s[..k] && t[k..] == s[k..][..r.used - k];
      assert FirstText(t, k, r.vs[0]) && r.vs[1..] == ParseItems(s[k..], count - 1).vs;
    }
  }

  /** The decoder accepts a value and its length exactly if the bytes so far are a text of that value. */
  lemma DecoderIsGrammar(s: Bytes, v: Value, n: nat)
    ensures Parse(s) == Done(v, n) <==> n <= |s| && Text(s[..n], v)
  {
    hide Parse, Text;
    if Parse(s) == Done(v, n) { DecodedIsText(s); }
    if n <= |s| && Text(s[..n], v) {
      TextDecodes(s[..n], v, s[n..]);
      assert s[..n] + s[n..] == s;
    }
  }

  /** What is printed is a text of the value, and no shorter part of it is a text of anything. */
  lemma PrintedIsText(v: Value, n: nat, w: Value)
    requires Printable(v) && n <= |Encode(v)|
    ensures Text(Encode(v), v)
    ensures Text(Encode(v)[..n], w) ==> n == |Encode(v)| && w == v
  {
    hide Parse, Text, Encode, Printable;
    var s := Encode(v);
    DecodeEncode(v, []);
    assert s + [] == s && s[..|s|] == s;
    DecoderIsGrammar(s, v, |s|);
    DecoderIsGrammar(s, w, n);
  }

  // ----- What is refused, and what waits -----

  /** A line after : $ or * that is no numeral, or one whose digits overflow. */
  ghost predicate LineBroken(line: Bytes, why: Verdict)
  {
    || (why.Bad? && (Magnitude(line) == [] || exists k: nat :: GivesUp(Magnitude(line), k)))
    || (why.Undefined? && exists k: nat :: TooBig(Magnitude(line), k))
  }

  predicate NumberedTo(s: Bytes, k: int): (ok: bool)
    ensures ok ==> 1 <= k && k + 1 < |s|
  {
    LineTo(s, 58, k) || LineTo(s, 36, k) || LineTo(s, 42, k)
  }

  /** A bulk string whose n bytes are all there and are not followed by CR LF. */
  predicate Unended(s: Bytes, k: int, n: nat)
  {
    LineTo(s, 36, k) && Denotes(s[1..k], n) && k + n + 4 <= |s| && s[k + 2 + n..k + n + 4] != [13, 10]
  }

  predicate ArrayOf(s: Bytes, k: int, n: nat): (ok: bool)
    ensures ok ==> 1 <= k && k + 1 < |s|
  {
    LineTo(s, 42, k) && Denotes(s[1..k], n)
  }

  /** s is broken before it is complete: in its first line, after its bytes, or in one of its items. */
  ghost predicate Broken(s: Bytes, why: Verdict)
    decreases |s|, 1
  {
    || (exists k :: NumberedTo(s, k) && LineBroken(s[1..k], why))
    || (why.Bad? && exists k, n: nat :: Unended(s, k, n))
    || (exists k, n: nat :: ArrayOf(s, k, n) && BrokenItems(s[k + 2..], n, why))
  }

  /** Some complete values and then a broken one, within the first n. */
  ghost predicate BrokenItems(s: Bytes, n: nat, why: Verdict)
    decreases |s|, 2 + n
  {
    n > 0 && (Broken(s, why) || exists k, v :: FirstText(s, k, v) && 0 < k && BrokenItems(s[k..], n - 1, why))
  }

  lemma LineScan(line: Bytes)
    ensures ParseInt(line).NotANumber? <==> LineBroken(line, Bad)
    ensures ParseInt(line).Overflow? <==> LineBroken(line, Undefined)
  {
    hide ParseInt, Magnitude;
    ParseIntExact(line);
  }

  lemma LineHere(s: Bytes, b: byte, k: int)
    requires LineTo(s, b, k)
    ensures s[0] == b && FindCrlf(s, 1) == Some(k)
  {
    hide FindCrlf, LineTo;
    LineFound(s, b, k, []);
    assert s + [] == s;
  }

  lemma BrokenLineStops(s: Bytes, k: int, why: Verdict)
    requires NumberedTo(s, k) && LineBroken(s[1..k], why)
    ensures Parse(s) == why
  {
    hide FindCrlf, LineTo, LineBroken, ParseInt;
    LineHere(s, if LineTo(s, 58, k) then 58 else if LineTo(s, 36, k) then 36 else 42, k);
    LineScan(s[1..k]);
    EitherWay(s[1..k], why);
  }

  lemma EitherWay(line: Bytes, why: Verdict)
    requires LineBroken(line, why)
    ensures why.Bad? || why.Undefined?
  {
  }

  lemma UnendedStops(s: Bytes, k: int, n: nat)
    requires Unended(s, k, n)
    ensures Parse(s) == Bad
  {
    hide FindCrlf, LineTo, Denotes, ParseInt;
    LineHere(s, 36, k);
    NumberRead(s[1..k], n);
    var end := k + 2 + n;
    assert s[end..end + 2] == [s[end], s[end + 1]];
  }

  lemma ArrayIs(s: Bytes, k: int, n: nat)
    requires ArrayOf(s, k, n)
    ensures Parse(s) == match ParseItems(s[k + 2..], n)
                        case Stopped(why) => why
                        case Items(vs, used) => Done(Array(vs), k + 2 + used)
  {
    hide FindCrlf, LineTo, Denotes, ParseInt, ParseItems;
    LineHere(s, 42, k);
    NumberRead(s[1..k], n);
  }

  lemma {:induction false} BrokenStops(s: Bytes, why: Verdict)
    requires Broken(s, why)
    ensures Parse(s) == why
    decreases |s|, 1
  {
    hide Parse, ParseItems, NumberedTo, LineBroken, Unended, ArrayOf, BrokenItems;
    if exists k :: NumberedTo(s, k) && LineBroken(s[1..k], why) {
      var k :| NumberedTo(s, k) && LineBroken(s[1..k], why);
      BrokenLineStops(s, k, why);
    } else if why.Bad? && exists k, n: nat :: Unended(s, k, n) {
      var k, n: nat :| Unended(s, k, n);
      UnendedStops(s, k, n);
    } else {
      var k, n: nat :| ArrayOf(s, k, n) && BrokenItems(s[k + 2..], n, why);
      BrokenItemsStop(s[k + 2..], n, why);
      ArrayIs(s, k, n);
    }
  }

  lemma {:induction false} BrokenItemsStop(s: Bytes, n: nat, why: Verdict)
    requires BrokenItems(s, n, why)
    ensures ParseItems(s, n) == Stopped(why)
    decreases |s|, 2 + n
  {
    hide Parse, Broken, Text;
    if Broken(s, why) {
      BrokenStops(s, why);
      BrokenIsRefused(s, why);
    } else {
      var k, v :| FirstText(s, k, v) && 0 < k && BrokenItems(s[k..], n - 1, why);
      DecoderIsGrammar(s, v, k);
      BrokenItemsStop(s[k..], n - 1, why);
    }
  }

  lemma {:induction false} BrokenIsRefused(s: Bytes, why: Verdict)
    requires Broken(s, why)
    ensures why.Bad? || why.Undefined?
    decreases |s|, 1
  {
    hide Unended, NumberedTo, LineTo, ArrayOf;
    if k, n: nat :| ArrayOf(s, k, n) && BrokenItems(s[k + 2..], n, why) {
      ItemsAreRefused(s[k + 2..], n, why);
    }
  }

  lemma {:induction false} ItemsAreRefused(s: Bytes, n: nat, why: Verdict)
    requires BrokenItems(s, n, why)
    ensures why.Bad? || why.Undefined?
    decreases |s|, 2 + n
  {
    hide Broken, Text;
    if Broken(s, why) {
      BrokenIsRefused(s, why);
    } else {
      var k, v :| FirstText(s, k, v) && 0 < k && BrokenItems(s[k..], n - 1, why);
      ItemsAreRefused(s[k..], n - 1, why);
    }
  }

  lemma {:induction false} StopIsBroken(s: Bytes)
    requires Parse(s).Bad? || Parse(s).Undefined?
    ensures Broken(s, Parse(s))
    decreases |s|, 1
  {
    hide FindCrlf, LineTo, Denotes, ParseInt, ParseItems, LineBroken, BrokenItems;
    var k := FindCrlf(s, 1).value;
    var why, line := Parse(s), s[1..k];
    WholeLine(s, k);
    var n := ParseInt(line);
    if !n.Number? {
      LineScan(line);
      assert NumberedTo(s, k) && LineBroken(line, why);
    } else {
      NumberRead(line, n.value);
      if s[0] == 36 {
        assert Unended(s, k, n.value);
      } else {
        StopAmongItems(s[k + 2..], n.value);
        assert ArrayOf(s, k, n.value) && BrokenItems(s[k + 2..], n.value, why);
      }
    }
  }

  lemma WholeLine(s: Bytes, k: nat)
    requires s != [] && FindCrlf(s, 1) == Some(k)
    ensures k + 1 < |s| && LineTo(s, s[0], k)
  {
    LineRead(s, k, |s|);
    assert s[..|s|] == s;
  }

  lemma {:induction false} StopAmongItems(s: Bytes, n: nat)
    requires var r := ParseItems(s, n); r.Stopped? && (r.why.Bad? || r.why.Undefined?)
    ensures BrokenItems(s, n, ParseItems(s, n).why)
    decreases |s|, 2 + n
  {
    hide Parse, Broken, Text;
    if Parse(s).Done? {
      var k := Parse(s).used;
      DecodedIsText(s);
      assert FirstText(s, k, Parse(s).v);
      StopAmongItems(s[k..], n - 1);
    } else {
      StopIsBroken(s);
    }
  }

  /**
  The decoder refuses exactly the broken inputs, and asks for more exactly if the bytes so far are neither a
  text with anything after it nor broken.
  */
  lemma RefusalIsBroken(s: Bytes)
    ensures Parse(s) == Bad <==> Broken(s, Bad)
    ensures Parse(s) == Undefined <==> Broken(s, Undefined)
    ensures Parse(s) == NeedMore <==>
              !Broken(s, Bad) && !Broken(s, Undefined) && forall n: nat, v | n <= |s| :: !Text(s[..n], v)
  {
    hide Parse, Broken, Text;
    if Broken(s, Bad) { BrokenStops(s, Bad); }
    if Broken(s, Undefined) { BrokenStops(s, Undefined); }
    if Parse(s).Bad? || Parse(s).Undefined? { StopIsBroken(s); }
    if Parse(s).Done? { DecodedIsText(s); }
    forall n: nat, v | n <= |s| && Text(s[..n], v) ensures Parse(s) == Done(v, n) { DecoderIsGrammar(s, v, n); }
  }
}
