/**
Runs of a streaming decoder: any interleaving of feeding bytes and asking for the next value.
The argument holds for every decoder whose verdicts are final and make progress.
*/
module RespStream {
  import opened ByteStrings
  import opened RespSpec
  import opened RespLaws

  type Decoder = Bytes -> Verdict

  ghost predicate Progresses(p: Decoder)
  {
    forall s :: p(s).Done? ==> 1 <= p(s).used <= |s|
  }

  ghost predicate FinalOn(p: Decoder, s: Bytes)
  {
    p(s) == NeedMore || forall t: Bytes :: p(s + t) == p(s)
  }

  ghost predicate Streamable(p: Decoder)
  {
    Progresses(p) && forall s :: FinalOn(p, s)
  }

  lemma ParseStreams()
    ensures Streamable(Parse)
  {
    forall s, t: Bytes | Parse(s) != NeedMore ensures Parse(s + t) == Parse(s) { ParseStable(s, t); }
  }

  /** Everything a byte string decodes to at once, the bytes left over and the verdict on them. */
  datatype Decoded = Decoded(vals: seq<Value>, rest: Bytes, end: Verdict)

  ghost function DecodeAll(p: Decoder, s: Bytes): (d: Decoded)
    requires Progresses(p)
    ensures !d.end.Done? && |d.vals| + |d.rest| <= |s|
    decreases |s|
  {
    match p(s)
    case Done(v, used) =>
      After([v], DecodeAll(p, s[used..]))
    case why => Decoded([], s, why)
  }

  datatype Event = Feed(chunk: Bytes) | Next

  datatype State = State(unread: Bytes, outs: seq<Value>)

  const Start: State := State([], [])

  ghost function Step(p: Decoder, st: State, ev: Event): State
    requires Progresses(p)
  {
    match ev
    case Feed(chunk) => st.(unread := st.unread + chunk)
    case Next =>
      match p(st.unread)
      case Done(v, used) => State(st.unread[used..], st.outs + [v])
      case _ => st
  }

  ghost function Run(p: Decoder, evs: seq<Event>): State
    requires Progresses(p)
  {
    if evs == [] then Start else Step(p, Run(p, evs[..|evs| - 1]), evs[|evs| - 1])
  }

  function Fed(evs: seq<Event>): Bytes
  {
    if evs == [] then []
    else
      var ev := evs[|evs| - 1];
      Fed(evs[..|evs| - 1]) + if ev.Feed? then ev.chunk else []
  }

  /** outs, followed by what d decodes to. */
  function After(outs: seq<Value>, d: Decoded): Decoded
  {
    d.(vals := outs + d.vals)
  }

  /** Decoding more input goes on from where decoding stopped. */
  lemma {:induction false} DecodeMore(p: Decoder, s: Bytes, t: Bytes)
    requires Streamable(p)
    ensures var d := DecodeAll(p, s); DecodeAll(p, s + t) == After(d.vals, DecodeAll(p, d.rest + t))
    decreases |s|
  {
    var r := p(s);
    if r.Done? {
      assert FinalOn(p, s);
      assert (s + t)[r.used..] == s[r.used..] + t;
      DecodeMore(p, s[r.used..], t);
      var d := DecodeAll(p, s[r.used..]);
      AfterAfter([r.v], d.vals, DecodeAll(p, d.rest + t));
    } else {
      var e := DecodeAll(p, s + t);
      assert [] + e.vals == e.vals;
    }
  }

  /**
  Fragmentation independence: after any run, what was handed out so far followed by what the unread
  bytes still decode to is what the whole stream decodes to at once.
  */
  lemma {:induction false} WholeStream(p: Decoder, evs: seq<Event>)
    requires Streamable(p)
    ensures DecodeAll(p, Fed(evs)) == After(Run(p, evs).outs, DecodeAll(p, Run(p, evs).unread))
  {
    if evs != [] {
      var pre, ev := evs[..|evs| - 1], evs[|evs| - 1];
      WholeStream(p, pre);
      match ev
      case Feed(chunk) => FeedKeeps(p, Fed(pre), Run(p, pre), chunk);
      case Next =>
        assert Fed(evs) == Fed(pre);
        NextKeeps(p, Run(p, pre));
    }
  }

  lemma FeedKeeps(p: Decoder, fed: Bytes, st: State, chunk: Bytes)
    requires Streamable(p) && DecodeAll(p, fed) == After(st.outs, DecodeAll(p, st.unread))
    ensures DecodeAll(p, fed + chunk) == After(st.outs, DecodeAll(p, st.unread + chunk))
  {
    DecodeMore(p, fed, chunk);
    DecodeMore(p, st.unread, chunk);
    var d := DecodeAll(p, st.unread);
    AfterAfter(st.outs, d.vals, DecodeAll(p, d.rest + chunk));
  }

  lemma AfterAfter(a: seq<Value>, b: seq<Value>, d: Decoded)
    ensures After(a, After(b, d)) == After(a + b, d)
  {
    assert a + (b + d.vals) == a + b + d.vals;
  }

  lemma NextKeeps(p: Decoder, st: State)
    requires Streamable(p)
    ensures var st' := Step(p, st, Next);
            After(st'.outs, DecodeAll(p, st'.unread)) == After(st.outs, DecodeAll(p, st.unread))
  {
    var r := p(st.unread);
    if r.Done? {
      AfterAfter(st.outs, [r.v], DecodeAll(p, st.unread[r.used..]));
    }
  }

  /** Two runs over the same bytes that both drained their input handed out the same values and stopped alike. */
  lemma DrainedRunsAgree(p: Decoder, a: seq<Event>, b: seq<Event>)
    requires Streamable(p) && Fed(a) == Fed(b)
    requires !p(Run(p, a).unread).Done? && !p(Run(p, b).unread).Done?
    ensures Run(p, a) == Run(p, b)
  {
    WholeStream(p, a);
    WholeStream(p, b);
    DrainedIsAll(p, Run(p, a));
    DrainedIsAll(p, Run(p, b));
  }

  lemma DrainedIsAll(p: Decoder, st: State)
    requires Progresses(p) && !p(st.unread).Done?
    ensures After(st.outs, DecodeAll(p, st.unread)) == Decoded(st.outs, st.unread, p(st.unread))
  {
    assert st.outs + [] == st.outs;
  }

  /** No run hands out more values than it was fed bytes. */
  lemma {:induction false} OutputIsBounded(p: Decoder, evs: seq<Event>)
    requires Progresses(p)
    ensures |Run(p, evs).outs| + |Run(p, evs).unread| <= |Fed(evs)|
  {
    if evs != [] { OutputIsBounded(p, evs[..|evs| - 1]); }
  }

  /** The decoder of this repository is fragmentation independent. */
  lemma FragmentationIndependence(evs: seq<Event>)
    ensures Progresses(Parse)
    ensures DecodeAll(Parse, Fed(evs)) == After(Run(Parse, evs).outs, DecodeAll(Parse, Run(Parse, evs).unread))
    ensures !Parse(Run(Parse, evs).unread).Done? ==>
              DecodeAll(Parse, Fed(evs)) ==
              Decoded(Run(Parse, evs).outs, Run(Parse, evs).unread, Parse(Run(Parse, evs).unread))
  {
    ParseStreams();
    WholeStream(Parse, evs);
    if !Parse(Run(Parse, evs).unread).Done? { DrainedIsAll(Parse, Run(Parse, evs)); }
  }
}
