/** Runs of the parser object: interleaved feeds and decodes, and the server's dispatch loop. */
module Dispatch {
  import opened ByteStrings
  import opened Options
  import opened Cells
  import opened RespSpec
  import opened RespStream
  import opened RespNodes
  import opened RespSteps
  import opened RespParser

  /**
  Runs a parser through feeds and decodes, up to the first chunk that does not fit. The parser hands out the
  values, read back from their cells, and keeps the unread bytes, of the abstract run over the same events;
  and no cell is lost.
  */
  method RunEvents(p: Parser, evs: seq<Event>) returns (n: nat, outs: seq<Value>)
    requires p.Valid() && p.Unread() == [] && p.Conserved(multiset{})
    modifies p, p.buf
    ensures p.Valid() && p.Conserved(multiset{})
    ensures Progresses(Parse)
    ensures n <= |evs| && RespStream.State(p.Unread(), outs) == Run(Parse, evs[..n])
    ensures n < |evs| ==> evs[n].Feed? && |p.Unread()| + |evs[n].chunk| > p.buf.Length
  {
    hide Parse, Chain, Sound, Streamable, Progresses, Run, Range, RespStream.Step, Parser.Conserved;
    ParseStreams();
    RunNothing(Parse, evs);
    outs := [];
    var i := 0;
    while i < |evs|
      invariant i <= |evs| && p.Valid() && p.Conserved(multiset{})
      invariant RespStream.State(p.Unread(), outs) == Run(Parse, evs[..i])
    {
      RunStep(Parse, evs, i);
      var ok;
      ok, outs := TakeEvent(p, evs[i], outs);
      if !ok {
        return i, outs;
      }
      i := i + 1;
    }
    n := i;
  }

  /** One feed or one decode; a chunk that does not fit changes nothing. */
  method TakeEvent(p: Parser, ev: Event, outs: seq<Value>) returns (ok: bool, outs': seq<Value>)
    requires p.Valid() && p.Conserved(multiset{}) && Progresses(Parse)
    modifies p, p.buf
    ensures p.Valid() && p.Conserved(multiset{})
    ensures ok ==> RespStream.State(p.Unread(), outs') == RespStream.Step(Parse, RespStream.State(old(p.Unread()), outs), ev)
    ensures !ok ==> p.Unread() == old(p.Unread()) && outs' == outs
    ensures !ok ==> ev.Feed? && |p.Unread()| + |ev.chunk| > p.buf.Length
  {
    hide Parse, Chain, Sound, Progresses, Range, Moved;
    outs' := outs;
    match ev {
      case Feed(chunk) =>
        ok := p.Feed(chunk);
      case Next =>
        var status, v := p.NextAndRelease(multiset{});
        if v.Some? { outs' := outs + [v.value]; }
        ok := true;
    }
  }

  lemma RunNothing(d: Decoder, evs: seq<Event>)
    requires Progresses(d)
    ensures Run(d, evs[..0]) == Start
  {
  }

  lemma RunStep(d: Decoder, evs: seq<Event>, i: nat)
    requires Progresses(d) && i < |evs|
    ensures Run(d, evs[..i + 1]) == RespStream.Step(d, Run(d, evs[..i]), evs[i])
  {
    assert evs[..i + 1][..i] == evs[..i];
  }

  /** What a command handler reports: go on, connection destroyed, or connection marked closed. */
  datatype Handled = Continue | Destroyed | MarkedClosed

  datatype LoopEnd = WaitForMore | ConnectionGone

  /** The first n commands were all handled without ending the connection. */
  ghost predicate Continued(handle: nat -> Handled, n: int)
  {
    forall k: nat :: k < n ==> handle(k) == Continue
  }

  lemma ContinuedNone(handle: nat -> Handled)
    ensures Continued(handle, 0) && Continued(handle, -1)
  {
  }

  lemma ContinuedNext(handle: nat -> Handled, n: nat)
    requires Continued(handle, n)
    ensures Continued(handle, n - 1) && (handle(n) == Continue ==> Continued(handle, n + 1))
  {
  }

  /**
  The dispatch loop over the unread bytes: decode, handle, release, until more bytes are needed. `handle`
  is what the handler reports for the k-th command; it may be any function.
  */
  method DispatchCommands(p: Parser, handle: nat -> Handled) returns (end: LoopEnd, cmds: seq<Value>)
    requires p.Valid() && p.Conserved(multiset{})
    modifies p, p.buf
    ensures p.Valid() && Progresses(Parse)
    ensures cmds <= DecodeAll(Parse, old(p.Unread())).vals
    ensures DecodeAll(Parse, old(p.Unread())) == After(cmds, DecodeAll(Parse, p.Unread()))
    ensures Continued(handle, |cmds| - 1)
    ensures end == WaitForMore ==>
              && DecodeAll(Parse, old(p.Unread())) == Decoded(cmds, p.Unread(), NeedMore)
              && (cmds != [] ==> handle(|cmds| - 1) == Continue)
              && p.Conserved(multiset{})
              && (p.Space() == 0 ==> |p.Unread()| >= p.buf.Length - p.buf.Length / 2)
    ensures end == ConnectionGone ==>
              || (cmds != [] && handle(|cmds| - 1) != Continue)
              || (DecodeAll(Parse, old(p.Unread())).vals == cmds && DecodeAll(Parse, old(p.Unread())).end != NeedMore)
    ensures cmds != [] && handle(|cmds| - 1) == MarkedClosed ==> p.Conserved(multiset{})
  {
    hide Parse, Chain, Sound, Streamable, Progresses, DecodeAll, After, Parser.Conserved, Continued;
    ParseStreams();
    ContinuedNone(handle);
    ghost var all := DecodeAll(Parse, p.Unread());
    cmds := [];
    AfterNothing(all);
    while true
      invariant p.Valid() && p.Conserved(multiset{})
      invariant all == After(cmds, DecodeAll(Parse, p.Unread()))
      invariant Continued(handle, |cmds|) && (cmds != [] ==> handle(|cmds| - 1) == Continue)
      decreases |p.Unread()|
    {
      ghost var before := p.Unread();
      DecodeOnce(Parse, before, cmds);
      AfterPrefix(cmds, before);
      ParseProgresses(before);
      ContinuedNext(handle, |cmds|);
      var handled := handle(|cmds|);
      var status, cmd := DispatchOne(p, handled);
      if status == StatusNeedMore {
        return WaitForMore, cmds;
      }
      if status != StatusOk {
        return ConnectionGone, cmds;
      }
      cmds := cmds + [cmd.value];
      if handled != Continue {
        return ConnectionGone, cmds;
      }
    }
  }

  lemma ParseProgresses(s: Bytes)
    ensures Parse(s).Done? ==> 1 <= Parse(s).used <= |s|
  {
  }

  /** Decodes one command; once handled, its cells are released unless the handler destroyed the connection. */
  method DispatchOne(p: Parser, handled: Handled) returns (status: Status, cmd: Option<Value>)
    requires p.Valid() && p.Conserved(multiset{})
    modifies p, p.buf
    ensures p.Valid()
    ensures var r := Parse(old(p.Unread()));
            && status == StatusOf(r)
            && cmd == (if r.Done? then Some(r.v) else None)
            && p.Unread() == (if r.Done? then old(p.Unread())[r.used..] else old(p.Unread()))
    ensures status == StatusNeedMore || (status == StatusOk && handled != Destroyed) ==> p.Conserved(multiset{})
    ensures status == StatusNeedMore ==> p.rPos <= p.buf.Length / 2
  {
    hide Parse, Chain, Sound, Moved, Rep, Ids, Once, Reads, Range;
    ghost var m, before := p.Mem(), p.Unread();
    var out;
    ghost var kids;
    status, out, kids := p.Next();
    if status != StatusOk {
      NoneHeld(m, p.Mem());
      return status, None;
    }
    var v := p.ReadValue(out, Parse(before).v, kids);
    cmd := Some(v);
    if handled != Destroyed {
      ReleaseCommand(p, out, v, kids, m);
    }
  }

  /** Returns a command's cells: the free list again holds every cell. */
  method ReleaseCommand(p: Parser, cmd: Out, ghost v: Value, ghost kids: List, ghost m: Mem)
    requires p.Valid() && OutStands(p.buf[..], cmd, v, kids) && Rep(p.store, p.buf[..], kids, None)
    requires Sound(m) && Moved(m, p.Mem(), Ids(kids)) && multiset(m.free) + multiset{} == Range(0, |m.st|)
    modifies p`store, p`freeList, p`frees
    ensures p.Valid() && p.Conserved(multiset{}) && p.Unread() == old(p.Unread())
  {
    hide Parser.Valid, Sound, Moved, Rep, Ids, Once, Reads, Range;
    ghost var m1 := p.Mem();
    MovedOnce(m, m1, Ids(kids));
    p.ValueRelease(cmd, v, kids);
    ReturnedAll(m, m1, p.Mem(), Ids(kids));
    ConservedAcross(m, p.Mem(), multiset{});
  }

  lemma NoneHeld(m: Mem, m': Mem)
    requires Moved(m, m', Ids(Nil)) && multiset(m.free) + multiset{} == Range(0, |m.st|)
    ensures multiset(m'.free) + multiset{} == Range(0, |m'.st|)
  {
    NilIds();
    ConservedAcross(m, m', multiset{});
  }

  lemma AfterNothing(d: Decoded)
    ensures d == After([], d)
  {
    assert [] + d.vals == d.vals;
  }

  /** The commands handled so far, and the next one, are a prefix of everything decoded. */
  lemma AfterPrefix(cmds: seq<Value>, s: Bytes)
    requires Progresses(Parse)
    ensures var all := After(cmds, DecodeAll(Parse, s)).vals;
            cmds <= all && (Parse(s).Done? ==> cmds + [Parse(s).v] <= all)
  {
    hide Parse, Progresses;
  }

  lemma DecodeOnce(d: Decoder, s: Bytes, cmds: seq<Value>)
    requires Progresses(d)
    ensures var r := d(s);
            After(cmds, DecodeAll(d, s)) ==
            if r.Done? then After(cmds + [r.v], DecodeAll(d, s[r.used..])) else Decoded(cmds, s, r)
  {
    var r := d(s);
    if r.Done? {
      AfterAfter(cmds, [r.v], DecodeAll(d, s[r.used..]));
    } else {
      assert cmds + [] == cmds;
    }
  }
}
