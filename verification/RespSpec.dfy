/**
RESP2 as a value-level codec: the verdict the decoder reaches on a byte string, and the text of a value.
*/
module RespSpec {
  import opened ByteStrings
  import opened Options
  import opened Decimal

  const PLUS: byte := 43
  const COLON: byte := 58
  const DOLLAR: byte := 36
  const STAR: byte := 42
  const SPACE: byte := 32
  const TAB: byte := 9
  const CRLF: Bytes := [CR, LF]

  datatype Value =
    | Simple(text: Bytes)
    | Error(text: Bytes)
    | Integer(n: int)
    | Bulk(data: Bytes)
    | Null
    | Array(items: seq<Value>)

  /** Undefined is the case where accumulating digits overflows int64. */
  datatype Verdict =
    | NeedMore
    | Bad
    | Undefined
    | Done(v: Value, used: nat)

  datatype ItemsVerdict =
    | Stopped(why: Verdict)
    | Items(vs: seq<Value>, used: nat)

  // ----- Scanning -----

  predicate CrlfAt(s: Bytes, i: int)
  {
    0 <= i && i + 1 < |s| && s[i] == CR && s[i + 1] == LF
  }

  function FindCrlf(s: Bytes, from: nat): (r: Option<nat>)
    ensures r.Some? ==> from <= r.value && CrlfAt(s, r.value) && forall j :: from <= j < r.value ==> !CrlfAt(s, j)
    ensures r.None? ==> forall j :: from <= j ==> !CrlfAt(s, j)
    decreases |s| - from
  {
    if from + 1 >= |s| then None
    else if s[from] == CR && s[from + 1] == LF then Some(from)
    else FindCrlf(s, from + 1)
  }

  function FindLf(s: Bytes, from: nat): (r: Option<nat>)
    ensures r.Some? ==> from <= r.value < |s| && s[r.value] == LF && forall j :: from <= j < r.value ==> s[j] != LF
    ensures r.None? ==> forall j :: from <= j < |s| ==> s[j] != LF
    decreases |s| - from
  {
    if from >= |s| then None
    else if s[from] == LF then Some(from)
    else FindLf(s, from + 1)
  }

  predicate Blank(b: byte)
  {
    b == SPACE || b == TAB
  }

  function SkipBlanks(s: Bytes, i: nat): (k: nat)
    requires i <= |s|
    ensures i <= k <= |s|
    ensures forall j :: i <= j < k ==> Blank(s[j])
    ensures k < |s| ==> !Blank(s[k])
    decreases |s| - i
  {
    if i < |s| && Blank(s[i]) then SkipBlanks(s, i + 1) else i
  }

  function TokenEnd(s: Bytes, i: nat): (k: nat)
    requires i <= |s|
    ensures i <= k <= |s|
    ensures forall j :: i <= j < k ==> !Blank(s[j])
    ensures k < |s| ==> Blank(s[k])
    decreases |s| - i
  {
    if i < |s| && !Blank(s[i]) then TokenEnd(s, i + 1) else i
  }

  /** The blank-separated tokens of a line, from position i on. */
  function Tokens(s: Bytes, i: nat): seq<Bytes>
    requires i <= |s|
    decreases |s| - i
  {
    var a := SkipBlanks(s, i);
    if a >= |s| then []
    else
      var b := TokenEnd(s, a);
      [s[a..b]] + Tokens(s, b)
  }

  function Bulks(ts: seq<Bytes>): (vs: seq<Value>)
    ensures |vs| == |ts| && forall i :: 0 <= i < |ts| ==> vs[i] == Bulk(ts[i])
  {
    seq(|ts|, i requires 0 <= i < |ts| => Bulk(ts[i]))
  }

  // ----- Decoding -----

  predicate Typed(b: byte)
  {
    b == PLUS || b == MINUS || b == COLON || b == DOLLAR || b == STAR
  }

  /** A line without a type byte: its tokens become an array of bulk strings. */
  function ParseInline(s: Bytes): Verdict
  {
    match FindLf(s, 0)
    case None => NeedMore
    case Some(lf) =>
      var end := if lf > 0 && s[lf - 1] == CR then lf - 1 else lf;
      Done(Array(Bulks(Tokens(s[..end], 0))), lf + 1)
  }

  function FromScan(r: Scan): Verdict
    requires !r.Number?
  {
    if r.Overflow? then Undefined else Bad
  }

  /** The verdict on a length-prefixed bulk string whose header line ends at crlf. */
  function ParseBulk(s: Bytes, crlf: nat, len: int): Verdict
    requires CrlfAt(s, crlf)
  {
    if len < 0 then Done(Null, crlf + 2)
    else
      var end := crlf + 2 + len;
      if end + 2 > |s| then NeedMore
      else if s[end] != CR || s[end + 1] != LF then Bad
      else Done(Bulk(s[crlf + 2..end]), end + 2)
  }

  function Parse(s: Bytes): (r: Verdict)
    ensures r.Done? ==> 1 <= r.used <= |s|
    decreases |s|, 1
  {
    if s == [] then NeedMore
    else if !Typed(s[0]) then ParseInline(s)
    else
      var crlf := FindCrlf(s, 1);
      if crlf.None? then NeedMore else ParseTyped(s, crlf.value)
  }

  /** The verdict on a typed message whose first line ends at crlf. */
  function ParseTyped(s: Bytes, crlf: nat): (r: Verdict)
    requires 1 <= crlf && CrlfAt(s, crlf)
    ensures r.Done? ==> 1 <= r.used <= |s|
    decreases |s|, 0
  {
    var line := s[1..crlf];
    if s[0] == PLUS then Done(Simple(line), crlf + 2)
    else if s[0] == MINUS then Done(Error(line), crlf + 2)
    else
      var n := ParseInt(line);
      if !n.Number? then FromScan(n)
      else if s[0] == COLON then Done(Integer(n.value), crlf + 2)
      else if s[0] == DOLLAR then ParseBulk(s, crlf, n.value)
      else if n.value < 0 then Done(Null, crlf + 2)
      else
        match ParseItems(s[crlf + 2..], n.value)
        case Stopped(why) => why
        case Items(vs, used) => Done(Array(vs), crlf + 2 + used)
  }

  function ParseItems(s: Bytes, count: nat): (r: ItemsVerdict)
    ensures r.Items? ==> |r.vs| == count <= r.used <= |s|
    ensures r.Stopped? ==> !r.why.Done?
    decreases |s|, 2 + count
  {
    if count == 0 then Items([], 0)
    else
      var first := Parse(s);
      if !first.Done? then Stopped(first)
      else Prepend(first, ParseItems(s[first.used..], count - 1))
  }

  /** A first item followed by the rest of the items, unless those stopped. */
  function Prepend(first: Verdict, more: ItemsVerdict): ItemsVerdict
    requires first.Done?
  {
    if more.Items? then Items([first.v] + more.vs, first.used + more.used) else more
  }

  // ----- Printing -----

  function Header(b: byte, n: int): Bytes
  {
    [b] + IntText(n) + CRLF
  }

  function Encode(v: Value): (s: Bytes)
    ensures |s| > 0
  {
    match v
    case Simple(t) => [PLUS] + t + CRLF
    case Error(t) => [MINUS] + t + CRLF
    case Integer(n) => Header(COLON, n)
    case Bulk(d) => Header(DOLLAR, |d|) + d + CRLF
    case Null => Header(DOLLAR, -1)
    case Array(vs) => Header(STAR, |vs|) + EncodeAll(vs)
  }

  function EncodeAll(vs: seq<Value>): Bytes
  {
    if vs == [] then [] else Encode(vs[0]) + EncodeAll(vs[1..])
  }

  predicate CrlfFree(s: Bytes)
  {
    forall i :: 0 <= i < |s| ==> !CrlfAt(s, i)
  }

  /** The values whose text the decoder can read back. */
  predicate Printable(v: Value)
  {
    match v
    case Simple(t) => CrlfFree(t)
    case Error(t) => CrlfFree(t)
    case Integer(n) => INT64_MIN < n <= INT64_MAX
    case Bulk(d) => |d| <= INT64_MAX
    case Null => true
    case Array(vs) => |vs| <= INT64_MAX && PrintableAll(vs)
  }

  predicate PrintableAll(vs: seq<Value>)
  {
    vs == [] || (Printable(vs[0]) && PrintableAll(vs[1..]))
  }
}
