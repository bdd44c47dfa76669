/** Decimal text of integers, as printf writes it and as the scanner reads it. */
module Decimal {
  import opened ByteStrings

  const INT64_MAX: int := 0x7fff_ffff_ffff_ffff
  const INT64_MIN: int := -0x8000_0000_0000_0000

  const ZERO: byte := 48
  const MINUS: byte := 45

  predicate IsDigit(b: byte)
  {
    48 <= b <= 57
  }

  function Digits(n: nat): (s: Bytes)
    ensures |s| > 0 && forall i :: 0 <= i < |s| ==> IsDigit(s[i])
  {
    if n < 10 then [48 + n] else Digits(n / 10) + [48 + n % 10]
  }

  function IntText(v: int): (s: Bytes)
    ensures |s| > 0
    ensures forall i :: 0 <= i < |s| ==> IsDigit(s[i]) || s[i] == MINUS
  {
    if v < 0 then [MINUS] + Digits(-v) else Digits(v)
  }

  /** Signed overflow has no meaning in C, so it is an outcome of its own. */
  datatype Scan = NotANumber | Overflow | Number(value: int)

  function AddDigit(r: Scan, b: byte): Scan
  {
    match r
    case Number(v) =>
      if !IsDigit(b) then NotANumber
      else if v * 10 + (b - 48) > INT64_MAX then Overflow
      else Number(v * 10 + (b - 48))
    case _ => r
  }

  /** The accumulation loop, one byte at a time from the left. */
  function Accumulate(s: Bytes): (r: Scan)
    ensures r.Number? ==> 0 <= r.value <= INT64_MAX
  {
    if s == [] then Number(0)
    else AddDigit(Accumulate(s[..|s| - 1]), s[|s| - 1])
  }

  /** What resp__parse_int makes of a line: an optional minus, then at least one digit and nothing else. */
  function ParseInt(s: Bytes): (r: Scan)
    ensures r.Number? ==> INT64_MIN < r.value <= INT64_MAX
  {
    if s == [] then NotANumber
    else
      var digits := if s[0] == MINUS then s[1..] else s;
      if digits == [] || !IsDigit(digits[0]) then NotANumber
      else
        match Accumulate(digits)
        case Number(v) => Number(if s[0] == MINUS then -v else v)
        case r => r
  }

  lemma {:induction false} AccumulateDigits(n: nat)
    ensures Accumulate(Digits(n)) == if n <= INT64_MAX then Number(n) else Overflow
  {
    if n >= 10 {
      var s := Digits(n / 10);
      AccumulateDigits(n / 10);
      assert (s + [48 + n % 10])[..|s|] == s;
    } else {
      assert Accumulate([48 + n][..0]) == Number(0);
    }
  }

  /** Printing then scanning gives the number back for every int64 but the least, whose digits overflow. */
  lemma ParseIntText(v: int)
    requires INT64_MIN <= v <= INT64_MAX
    ensures ParseInt(IntText(v)) == Number(v) <==> v != INT64_MIN
    ensures v == INT64_MIN ==> ParseInt(IntText(v)) == Overflow
  {
    AccumulateDigits(if v < 0 then -v else v);
  }

  // ----- What a numeral means -----

  function Pow10(n: nat): (p: nat)
    ensures p > 0
  {
    if n == 0 then 1 else 10 * Pow10(n - 1)
  }

  predicate AllDigits(s: Bytes)
  {
    forall i :: 0 <= i < |s| ==> 48 <= s[i] <= 57
  }

  /** The positional value of a digit string: each digit times the power of ten of its place. */
  function Positional(s: Bytes): (v: nat)
    requires AllDigits(s)
  {
    if s == [] then 0 else (s[0] - 48) * Pow10(|s| - 1) + Positional(s[1..])
  }

  lemma PlaceUp(d: int, p: int, v: int, w: int, e: int)
    requires w == v * 10 + e
    ensures d * (10 * p) + w == (d * p + v) * 10 + e
  {
  }

  lemma {:induction false} PositionalGrows(s: Bytes, b: byte)
    requires AllDigits(s) && 48 <= b <= 57
    ensures AllDigits(s + [b]) && Positional(s + [b]) == Positional(s) * 10 + (b - 48)
  {
    if s == [] {
      assert s + [b] == [b] && [b][1..] == [];
      assert Pow10(0) == 1;
    } else {
      var t := s + [b];
      PositionalGrows(s[1..], b);
      assert t[1..] == s[1..] + [b] && t[0] == s[0];
      PlaceUp(s[0] - 48, Pow10(|s| - 1), Positional(s[1..]), Positional(t[1..]), b - 48);
    }
  }

  /** The text of a natural number has that number as its positional value, and no leading zero. */
  lemma {:induction false} DigitsExact(n: nat)
    ensures AllDigits(Digits(n)) && Positional(Digits(n)) == n && (n > 0 ==> Digits(n)[0] != 48)
  {
    if n >= 10 {
      DigitsExact(n / 10);
      PositionalGrows(Digits(n / 10), 48 + n % 10);
    } else {
      assert Digits(n)[1..] == [] && Pow10(0) == 1;
    }
  }

  /** The accumulation loop computes the positional value, unless that does not fit. */
  lemma {:induction false} AccumulateExact(s: Bytes)
    requires AllDigits(s)
    ensures Accumulate(s) == if Positional(s) <= INT64_MAX then Number(Positional(s)) else Overflow
  {
    if s != [] {
      var n := |s| - 1;
      AccumulateExact(s[..n]);
      PositionalGrows(s[..n], s[n]);
      assert s == s[..n] + [s[n]];
    }
  }

  /** The loop gives up at s[k]: the first byte that is no digit, after digits that fit. */
  predicate GivesUp(s: Bytes, k: nat)
  {
    k < |s| && !(48 <= s[k] <= 57) && AllDigits(s[..k]) && Positional(s[..k]) <= INT64_MAX
  }

  lemma {:induction false} AccumulateGivesUp(s: Bytes)
    ensures Accumulate(s) == NotANumber <==> exists k: nat :: GivesUp(s, k)
  {
    if s != [] {
      var n := |s| - 1;
      AccumulateGivesUp(s[..n]);
      if Accumulate(s[..n]).Number? { NumberIsDigits(s[..n]); }
      if AllDigits(s[..n]) { AccumulateExact(s[..n]); }
      forall k: nat | k < n ensures GivesUp(s, k) <==> GivesUp(s[..n], k) {
        assert s[..n][..k] == s[..k];
      }
      if exists k: nat :: GivesUp(s, k) {
        var k: nat :| GivesUp(s, k);
        assert k < n ==> GivesUp(s[..n], k);
      }
      if exists k: nat :: GivesUp(s[..n], k) {
        var k: nat :| GivesUp(s[..n], k);
        assert GivesUp(s, k);
      }
      assert Accumulate(s[..n]).Number? && !(48 <= s[n] <= 57) ==> GivesUp(s, n);
    }
  }

  /** The first k bytes are digits for a number beyond 64 bits. */
  predicate TooBig(s: Bytes, k: nat)
  {
    k <= |s| && AllDigits(s[..k]) && Positional(s[..k]) > INT64_MAX
  }

  lemma {:induction false} AccumulateOverflows(s: Bytes)
    ensures Accumulate(s) == Overflow <==> exists k: nat :: TooBig(s, k)
  {
    if s != [] {
      var n := |s| - 1;
      AccumulateOverflows(s[..n]);
      if Accumulate(s[..n]).Number? { NumberIsDigits(s[..n]); }
      if AllDigits(s[..n]) { AccumulateExact(s[..n]); }
      if AllDigits(s) { AccumulateExact(s); }
      assert s[..|s|] == s;
      forall k: nat | k <= n ensures TooBig(s, k) <==> TooBig(s[..n], k) {
        assert s[..n][..k] == s[..k];
      }
      if exists k: nat :: TooBig(s, k) {
        var k: nat :| TooBig(s, k);
        assert k <= n ==> TooBig(s[..n], k);
      }
      if exists k: nat :: TooBig(s[..n], k) {
        var k: nat :| TooBig(s[..n], k);
        assert TooBig(s, k);
      }
      assert AllDigits(s) && Accumulate(s) == Overflow ==> TooBig(s, |s|);
    }
  }

  function Magnitude(s: Bytes): Bytes
  {
    if s != [] && s[0] == 45 then s[1..] else s
  }

  /** An optional minus, then at least one digit and nothing else. */
  predicate Numeral(s: Bytes)
  {
    Magnitude(s) != [] && AllDigits(Magnitude(s))
  }

  function ValueOf(s: Bytes): int
    requires Numeral(s)
  {
    if s[0] == 45 then 0 - Positional(Magnitude(s)) else Positional(Magnitude(s))
  }

  /**
  The scanner accepts exactly the numerals whose magnitude fits, and gives their value; it rejects a line that
  has no digit where one must be, unless digits that do not fit come before; those overflow.
  */
  lemma ParseIntExact(s: Bytes)
    ensures ParseInt(s).Number? <==> Numeral(s) && Positional(Magnitude(s)) <= INT64_MAX
    ensures ParseInt(s).Number? ==> ParseInt(s).value == ValueOf(s)
    ensures ParseInt(s).NotANumber? <==> Magnitude(s) == [] || exists k: nat :: GivesUp(Magnitude(s), k)
    ensures ParseInt(s).Overflow? <==> exists k: nat :: TooBig(Magnitude(s), k)
  {
    var m := Magnitude(s);
    AccumulateOverflows(m);
    AccumulateGivesUp(m);
    if AllDigits(m) {
      AccumulateExact(m);
    } else if Accumulate(m).Number? {
      NumberIsDigits(m);
      assert false;
    }
    if m != [] && !(48 <= m[0] <= 57) { assert m[..0] == []; assert GivesUp(m, 0); }
  }

  lemma {:induction false} NumberIsDigits(s: Bytes)
    requires Accumulate(s).Number?
    ensures AllDigits(s)
  {
    if s != [] {
      NumberIsDigits(s[..|s| - 1]);
      assert s == s[..|s| - 1] + [s[|s| - 1]];
    }
  }
}
