/** Inline commands: which words a line without a type byte stands for, however it is spaced and ended. */
module RespInline {
  import opened ByteStrings
  import opened Options
  import opened RespSpec

  // ----- Lines as a client types them -----

  /** Spaces and tabs only. */
  predicate Gap(g: Bytes)
  {
    forall i :: 0 <= i < |g| ==> g[i] == 32 || g[i] == 9
  }

  /** At least one byte; no space, no tab, no line feed. */
  predicate Word(t: Bytes)
  {
    |t| > 0 && forall i :: 0 <= i < |t| ==> t[i] != 32 && t[i] != 9 && t[i] != 10
  }

  /** Words with a gap before each, between any two at least one byte wide, and one after the last. */
  predicate Spaced(gaps: seq<Bytes>, ts: seq<Bytes>)
  {
    && |gaps| == |ts| + 1
    && (forall i :: 0 <= i < |gaps| ==> Gap(gaps[i]))
    && (forall i :: 0 < i < |ts| ==> gaps[i] != [])
    && (forall i :: 0 <= i < |ts| ==> Word(ts[i]))
  }

  function Laid(gaps: seq<Bytes>, ts: seq<Bytes>): Bytes
    requires |gaps| == |ts| + 1
  {
    if ts == [] then gaps[0] else gaps[0] + ts[0] + Laid(gaps[1..], ts[1..])
  }

  // ----- Its words -----

  lemma {:induction false} GapSkipped(s: Bytes, i: nat, k: nat)
    requires i <= k <= |s| && Gap(s[i..k])
    ensures Tokens(s, i) == Tokens(s, k)
    decreases k - i
  {
    if i < k {
      assert s[i..k][0] == s[i] && s[i + 1..k] == s[i..k][1..];
      GapSkipped(s, i + 1, k);
    }
  }

  lemma WordTaken(s: Bytes, i: nat, t: Bytes)
    requires i + |t| <= |s| && s[i..i + |t|] == t && Word(t) && (i + |t| < |s| ==> Blank(s[i + |t|]))
    ensures Tokens(s, i) == [t] + Tokens(s, i + |t|)
  {
    assert s[i] == t[0];
    assert SkipBlanks(s, i) == i;
    forall j | i <= j < i + |t| ensures !Blank(s[j]) { assert s[j] == t[j - i]; }
    assert TokenEnd(s, i) == i + |t|;
  }

  lemma SpacedTail(gaps: seq<Bytes>, ts: seq<Bytes>)
    requires Spaced(gaps, ts) && ts != []
    ensures Spaced(gaps[1..], ts[1..])
    ensures |ts| > 1 ==> gaps[1] != [] && Gap(gaps[1])
  {
  }

  /** What follows the first word of a line is empty or starts with a blank. */
  lemma LaidStarts(gaps: seq<Bytes>, ts: seq<Bytes>)
    requires Spaced(gaps, ts) && (ts != [] ==> gaps[0] != [])
    ensures Laid(gaps, ts) != [] ==> Blank(Laid(gaps, ts)[0])
  {
  }

  /** The words of a line are its words, whatever the blanks around them. */
  lemma {:induction false} TokensLaid(s: Bytes, i: nat, gaps: seq<Bytes>, ts: seq<Bytes>)
    requires i <= |s| && Spaced(gaps, ts) && s[i..] == Laid(gaps, ts)
    ensures Tokens(s, i) == ts
    decreases |ts|
  {
    hide Tokens, Word, Gap;
    var g := gaps[0];
    var a := i + |g|;
    if ts == [] {
      assert s[i..a] == g;
      GapSkipped(s, i, a);
      NoTokens(s);
    } else {
      var t, more := ts[0], Laid(gaps[1..], ts[1..]);
      var b := a + |t|;
      assert s[i..a] == g && s[a..b] == t && s[b..] == more by { Pieces(s, i, g, t, more); }
      GapSkipped(s, i, a);
      SpacedTail(gaps, ts);
      LaidStarts(gaps[1..], ts[1..]);
      assert b < |s| ==> s[b] == more[0];
      WordTaken(s, a, t);
      TokensLaid(s, b, gaps[1..], ts[1..]);
      assert ts == [t] + ts[1..];
    }
  }

  lemma Pieces(s: Bytes, i: nat, g: Bytes, t: Bytes, more: Bytes)
    requires i <= |s| && s[i..] == g + t + more
    ensures var a := i + |g|; var b := a + |t|; b <= |s| && s[i..a] == g && s[a..b] == t && s[b..] == more
  {
    var a := i + |g|;
    var b := a + |t|;
    var w := s[i..];
    assert |w| == |g| + |t| + |more|;
    assert s[i..a] == w[..|g|] && s[a..b] == w[|g|..|g| + |t|] && s[b..] == w[|g| + |t|..];
  }

  lemma NoTokens(s: Bytes)
    ensures Tokens(s, |s|) == []
  {
  }

  lemma {:induction false} LaidHasNoLf(gaps: seq<Bytes>, ts: seq<Bytes>)
    requires Spaced(gaps, ts)
    ensures LF !in Laid(gaps, ts)
  {
    if ts != [] { LaidHasNoLf(gaps[1..], ts[1..]); }
  }

  lemma LfIs(s: Bytes, i: nat)
    requires i < |s| && s[i] == LF && forall k :: 0 <= k < i ==> s[k] != LF
    ensures FindLf(s, 0) == Some(i)
  {
    var r := FindLf(s, 0);
    assert r.Some?;
    assert !(r.value < i) && !(i < r.value);
  }

  // ----- Its end -----

  /** The byte does not announce a typed value: it is none of + - : $ and *. */
  predicate Untyped(b: byte)
  {
    b != 43 && b != 45 && b != 58 && b != 36 && b != 42
  }

  /** A line and its end: CR LF, or LF alone after a line that does not end in CR. */
  predicate Ends(line: Bytes, end: Bytes)
  {
    end == [13, 10] || (end == [10] && (line == [] || line[|line| - 1] != 13))
  }

  lemma InlineLine(line: Bytes, end: Bytes, rest: Bytes)
    requires Ends(line, end) && LF !in line && (line != [] ==> Untyped(line[0]))
    ensures Parse(line + end + rest) == Done(Array(Bulks(Tokens(line, 0))), |line| + |end|)
  {
    hide Tokens, FindLf, Bulks;
    var s := line + end + rest;
    var lf := |line| + |end| - 1;
    LfIs(s, lf);
    assert s[0] == if line == [] then end[0] else line[0];
    assert s[..|line|] == line;
    assert lf > 0 && |end| == 1 ==> s[lf - 1] == line[|line| - 1];
  }

  /**
  An inline command decodes to the array of its words and consumes its line: whatever the spacing, and with
  either line end.
  */
  lemma InlineDecodes(gaps: seq<Bytes>, ts: seq<Bytes>, end: Bytes, rest: Bytes)
    requires Spaced(gaps, ts) && Ends(Laid(gaps, ts), end)
    requires Laid(gaps, ts) != [] ==> Untyped(Laid(gaps, ts)[0])
    ensures Parse(Laid(gaps, ts) + end + rest) == Done(Array(Bulks(ts)), |Laid(gaps, ts)| + |end|)
  {
    hide Parse, Tokens, Ends;
    var line := Laid(gaps, ts);
    LaidHasNoLf(gaps, ts);
    InlineLine(line, end, rest);
    assert line[0..] == line;
    TokensLaid(line, 0, gaps, ts);
  }

  // ----- Every line is of that form -----

  lemma AllBlank(s: Bytes)
    requires forall i :: 0 <= i < |s| ==> Blank(s[i])
    ensures Spaced([s], []) && Laid([s], []) == s
  {
  }

  lemma LaidPrepend(g: Bytes, t: Bytes, gaps: seq<Bytes>, ts: seq<Bytes>)
    requires Gap(g) && Word(t) && Spaced(gaps, ts) && (ts != [] ==> gaps[0] != [])
    ensures Spaced([g] + gaps, [t] + ts) && Laid([g] + gaps, [t] + ts) == g + t + Laid(gaps, ts)
  {
    hide Gap, Word;
    var gs, us := [g] + gaps, [t] + ts;
    assert gs[1..] == gaps && us[1..] == ts;
    forall i | 0 < i < |us| ensures gs[i] != [] { assert gs[i] == gaps[i - 1]; }
  }

  lemma FirstWord(s: Bytes, a: nat) returns (b: nat)
    requires LF !in s && a == SkipBlanks(s, 0) && a < |s|
    ensures a < b <= |s| && Gap(s[..a]) && Word(s[a..b]) && (b < |s| ==> Blank(s[b]))
  {
    b := TokenEnd(s, a);
    assert forall i :: a <= i < b ==> s[i] in s;
  }

  /** Every line without a line feed is words in gaps. */
  lemma {:induction false} LineIsLaid(s: Bytes) returns (gaps: seq<Bytes>, ts: seq<Bytes>)
    requires LF !in s
    ensures Spaced(gaps, ts) && Laid(gaps, ts) == s && Tokens(s, 0) == ts
    decreases |s|
  {
    hide SkipBlanks, TokenEnd, Tokens, Laid, Spaced, Gap, Word;
    var a := SkipBlanks(s, 0);
    if a >= |s| {
      AllBlank(s);
      gaps, ts := [s], [];
    } else {
      var b := FirstWord(s, a);
      assert forall i :: b <= i < |s| ==> s[i] == s[b..][i - b];
      gaps, ts := LineIsLaid(s[b..]);
      RestStartsBlank(s, b, gaps, ts);
      LaidPrepend(s[..a], s[a..b], gaps, ts);
      assert s == s[..a] + s[a..b] + s[b..];
      gaps, ts := [s[..a]] + gaps, [s[a..b]] + ts;
    }
    assert s[0..] == s;
    TokensLaid(s, 0, gaps, ts);
  }

  lemma LaidStartsWord(gaps: seq<Bytes>, ts: seq<Bytes>)
    requires Spaced(gaps, ts) && ts != [] && gaps[0] == []
    ensures Laid(gaps, ts) != [] && !Blank(Laid(gaps, ts)[0])
  {
    assert Laid(gaps, ts)[0] == ts[0][0];
  }

  lemma RestStartsBlank(s: Bytes, b: nat, gaps: seq<Bytes>, ts: seq<Bytes>)
    requires b <= |s| && (b < |s| ==> Blank(s[b])) && Spaced(gaps, ts) && Laid(gaps, ts) == s[b..]
    ensures ts != [] ==> gaps[0] != []
  {
    if ts != [] && gaps[0] == [] {
      LaidStartsWord(gaps, ts);
      assert false;
    }
  }
}
