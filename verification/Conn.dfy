/** A connection's write buffer against a socket that takes as much as it likes, when it likes. */
module Conn {
  import opened ByteStrings
  import Slab

  const WRITE_SIZE: nat := 4096

  /** The block that conn_create takes for the write buffer has eight bytes fewer than the buffer is given. */
  lemma WriteBufferBlock()
    ensures Slab.ClassOf(WRITE_SIZE).Some? && Slab.Usable(WRITE_SIZE) == WRITE_SIZE - Slab.LINK
  {
  }

  /** What one call of write reports. */
  datatype WriteResult = Wrote(n: nat) | WouldBlock | Failed

  /** How many of n pending bytes the socket takes before it would block, fails or has them all. */
  function Taken(writes: seq<WriteResult>, n: nat): (k: nat)
    ensures k <= n
  {
    if n == 0 || writes == [] || !writes[0].Wrote? then 0
    else
      var k := Portion(writes[0].n, n);
      k + Taken(writes[1..], n - k)
  }

  /** The socket fails before it has taken all of n pending bytes. */
  predicate Fails(writes: seq<WriteResult>, n: nat)
  {
    n > 0 && writes != [] && (writes[0].Failed? || (writes[0].Wrote? && Fails(writes[1..], n - Portion(writes[0].n, n))))
  }

  function Portion(n: nat, most: nat): (k: nat)
    ensures k <= most
  {
    if n < most then n else most
  }

  /** The bytes that a run of successful writes could take. */
  function Sum(ws: seq<WriteResult>): nat
    requires forall w :: w in ws ==> w.Wrote?
  {
    if ws == [] then 0 else ws[0].n + Sum(ws[1..])
  }

  /**
  What a flush does, told by the writes before the first one that does not succeed: the socket takes the sum of
  what they offer, or everything if that is less, and fails exactly if bytes are left when a write fails.
  */
  lemma {:induction false} TakenIsSum(ws: seq<WriteResult>, more: seq<WriteResult>, n: nat)
    requires forall w :: w in ws ==> w.Wrote?
    requires more == [] || !more[0].Wrote?
    ensures Taken(ws + more, n) == if Sum(ws) < n then Sum(ws) else n
    ensures Fails(ws + more, n) <==> Sum(ws) < n && more != [] && more[0].Failed?
  {
    if ws == [] {
      assert ws + more == more;
    } else if n > 0 {
      assert (ws + more)[0] == ws[0] && (ws + more)[1..] == ws[1..] + more;
      assert ws[0] in ws;
      var k := if ws[0].n < n then ws[0].n else n;
      TakenIsSum(ws[1..], more, n - k);
    }
  }

  /** Every sequence of writes is such a run of successful ones and a rest. */
  lemma {:induction false} Successes(writes: seq<WriteResult>) returns (ws: seq<WriteResult>, more: seq<WriteResult>)
    ensures writes == ws + more && (forall w :: w in ws ==> w.Wrote?) && (more == [] || !more[0].Wrote?)
  {
    if writes == [] || !writes[0].Wrote? {
      ws, more := [], writes;
    } else {
      ws, more := Successes(writes[1..]);
      ws := [writes[0]] + ws;
    }
  }

  /** Bytes that pass from the pending window to the socket leave the stream as it was. */
  lemma BytesMove(sent: Bytes, b: Bytes, lo: nat, mid: nat, hi: nat)
    requires lo <= mid <= hi <= |b|
    ensures sent + b[lo..hi] == sent + b[lo..mid] + b[mid..hi]
  {
    assert b[lo..hi] == b[lo..mid] + b[mid..hi];
  }

  class Connection {
    const writeBuf: array<byte>
    var writeLen: nat
    var writeSent: nat
    var closed: bool
    /** Everything handed to the socket so far. */
    ghost var sent: Bytes

    ghost predicate Valid()
      reads this
    {
      writeBuf.Length == WRITE_SIZE && writeSent <= writeLen <= WRITE_SIZE && (!closed ==> writeSent == 0)
    }

    ghost function Pending(): Bytes
      requires Valid()
      reads this, writeBuf
    {
      writeBuf[writeSent..writeLen]
    }

    /** The reply stream as the peer will see it: what the socket has, then what still waits. */
    ghost function Stream(): Bytes
      requires Valid()
      reads this, writeBuf
    {
      sent + Pending()
    }

    constructor ()
      ensures Valid() && Stream() == [] && !closed && fresh(writeBuf)
    {
      writeBuf := new byte[WRITE_SIZE](_ => 0);
      writeLen, writeSent, closed, sent := 0, 0, false, [];
    }

    method Append(data: Bytes) returns (ok: bool)
      requires Valid()
      modifies this`writeLen, writeBuf
      ensures Valid()
      ensures ok <==> !closed && writeBuf.Length >= old(writeLen) + |data|
      ensures Stream() == if ok then old(Stream()) + data else old(Stream())
    {
      if closed || writeLen + |data| > WRITE_SIZE {
        return false;
      }
      ghost var before := writeBuf[writeSent..writeLen];
      for i := 0 to |data|
        invariant writeLen == old(writeLen) && Valid()
        invariant writeBuf[writeSent..writeLen + i] == before + data[..i]
      {
        writeBuf[writeLen + i] := data[i];
        assert writeBuf[writeSent..writeLen + i + 1] == writeBuf[writeSent..writeLen + i] + [data[i]];
      }
      writeLen := writeLen + |data|;
      assert sent + (before + data) == sent + before + data;
      ok := true;
    }

    /** Moves the unsent bytes to the start of the buffer. */
    method Reclaim()
      requires writeBuf.Length == WRITE_SIZE && writeSent <= writeLen <= WRITE_SIZE
      modifies this`writeLen, this`writeSent, writeBuf
      ensures Valid() && writeSent == 0
      ensures writeBuf[..writeLen] == old(writeBuf[writeSent..writeLen])
    {
      var n := writeLen - writeSent;
      for i := 0 to n
        invariant writeLen == old(writeLen) && writeSent == old(writeSent)
        invariant forall k :: 0 <= k < i ==> writeBuf[k] == old(writeBuf[writeSent + k])
        invariant forall k :: i <= k < writeBuf.Length ==> writeBuf[k] == old(writeBuf[k])
      {
        writeBuf[i] := writeBuf[writeSent + i];
      }
      writeLen := n;
      writeSent := 0;
    }

    /** The socket took the next k bytes. */
    method Sent(k: nat)
      requires writeSent + k <= writeLen <= writeBuf.Length
      modifies this`sent, this`writeSent
      ensures writeSent == old(writeSent) + k && |sent| == |old(sent)| + k && old(sent) <= sent
      ensures sent + writeBuf[writeSent..writeLen] == old(sent + writeBuf[writeSent..writeLen])
    {
      BytesMove(sent, writeBuf[..], writeSent, writeSent + k, writeLen);
      sent := sent + writeBuf[writeSent..writeSent + k];
      writeSent := writeSent + k;
    }

    /**
    Writes until everything is out, the socket would block or an error ends it; `writes` is what the
    successive calls report. The socket gets exactly the bytes it took, the first of those pending, and no
    byte is lost, repeated or reordered.
    */
    method Flush(writes: seq<WriteResult>) returns (ok: bool)
      requires Valid()
      modifies this, writeBuf
      ensures Valid() && old(sent) <= sent && Stream() == old(Stream())
      ensures |sent| == |old(sent)| + Taken(writes, |old(Pending())|)
      ensures ok <==> !Fails(writes, |old(Pending())|)
      ensures closed == (old(closed) || !ok) && (ok ==> writeSent == 0)
    {
      hide Taken, Fails;
      var i := 0;
      ghost var all := |Pending()|;
      while writeSent < writeLen
        invariant 0 <= i <= |writes| && writeBuf.Length == WRITE_SIZE && writeSent <= writeLen == old(writeLen) <= WRITE_SIZE
        invariant writeBuf[..] == old(writeBuf[..]) && closed == old(closed) && old(sent) <= sent
        invariant sent + writeBuf[writeSent..writeLen] == old(Stream())
        invariant |sent| + Taken(writes[i..], writeLen - writeSent) == |old(sent)| + Taken(writes, all)
        invariant Fails(writes[i..], writeLen - writeSent) == Fails(writes, all)
        decreases |writes| - i
      {
        WriteOnce(writes, i, writeLen - writeSent);
        var r := if i < |writes| then writes[i] else WouldBlock;
        match r {
          case Wrote(n) =>
            Sent(Portion(n, writeLen - writeSent));
          case WouldBlock =>
            if writeSent > 0 {
              Reclaim();
            }
            return true;
          case Failed =>
            closed := true;
            return false;
        }
        i := i + 1;
      }
      NothingLeft(writes[i..]);
      writeLen := 0;
      writeSent := 0;
      return true;
    }

    /** Queues a reply and tries to send. A reply that does not fit closes the connection. */
    method QueueWrite(data: Bytes, writes: seq<WriteResult>) returns (ok: bool)
      requires Valid()
      modifies this, writeBuf
      ensures Valid() && old(sent) <= sent && (ok <==> !closed)
      ensures old(closed) ==> closed && Stream() == old(Stream()) && sent == old(sent)
      ensures !old(closed) && |old(Pending())| + |data| > 4096 ==>
                closed && Stream() == old(Stream()) && sent == old(sent)
      ensures !old(closed) && |old(Pending())| + |data| <= 4096 ==>
                && Stream() == old(Stream()) + data
                && |sent| == |old(sent)| + Taken(writes, |old(Pending())| + |data|)
                && (closed <==> Fails(writes, |old(Pending())| + |data|))
    {
      hide Taken, Fails;
      if closed {
        return false;
      }
      ok := Append(data);
      if !ok {
        closed := true;
        return;
      }
      ok := Flush(writes);
      if !ok {
        closed := true;
      }
    }
  }

  /** One write, seen from what the whole flush will do. */
  lemma WriteOnce(writes: seq<WriteResult>, i: nat, n: nat)
    requires i <= |writes| && n > 0
    ensures i == |writes| ==> Taken(writes[i..], n) == 0 && !Fails(writes[i..], n)
    ensures i < |writes| && writes[i].WouldBlock? ==> Taken(writes[i..], n) == 0 && !Fails(writes[i..], n)
    ensures i < |writes| && writes[i].Failed? ==> Taken(writes[i..], n) == 0 && Fails(writes[i..], n)
    ensures i < |writes| && writes[i].Wrote? ==>
              var k := Portion(writes[i].n, n);
              && Taken(writes[i..], n) == k + Taken(writes[i + 1..], n - k)
              && Fails(writes[i..], n) == Fails(writes[i + 1..], n - k)
  {
    if i < |writes| { assert writes[i..][1..] == writes[i + 1..]; }
  }

  lemma NothingLeft(writes: seq<WriteResult>)
    ensures Taken(writes, 0) == 0 && !Fails(writes, 0)
  {
  }

  /** What happens to a connection: a reply is queued, or the socket becomes writable. */
  datatype Event = Reply(data: Bytes, writes: seq<WriteResult>) | Writable(writes: seq<WriteResult>)

  /** A connection in the abstract: the bytes accepted so far, how many of them the socket took, and whether it is closed. */
  datatype Account = Account(stream: Bytes, taken: nat, closed: bool)

  /** All accepted bytes that the socket has not taken are offered to it. */
  function Offer(a: Account, writes: seq<WriteResult>): Account
    requires a.taken <= |a.stream|
  {
    var n := |a.stream| - a.taken;
    a.(taken := a.taken + Taken(writes, n), closed := a.closed || Fails(writes, n))
  }

  function Happen(a: Account, ev: Event): (a': Account)
    requires a.taken <= |a.stream|
    ensures a'.taken <= |a'.stream|
  {
    match ev
    case Reply(data, writes) =>
      if a.closed then a
      else if |a.stream| - a.taken + |data| > WRITE_SIZE then a.(closed := true)
      else Offer(a.(stream := a.stream + data), writes)
    case Writable(writes) => Offer(a, writes)
  }

  function AccountOf(evs: seq<Event>): (a: Account)
    ensures a.taken <= |a.stream|
  {
    if evs == [] then Account([], 0, false) else Happen(AccountOf(evs[..|evs| - 1]), evs[|evs| - 1])
  }

  function Replies(evs: seq<Event>): Bytes
  {
    if evs == [] then []
    else
      var ev := evs[|evs| - 1];
      Replies(evs[..|evs| - 1]) + if ev.Reply? then ev.data else []
  }

  /** As long as the connection is open, every reply was accepted; and never anything but a prefix of the replies. */
  lemma {:induction false} OpenAcceptsAll(evs: seq<Event>)
    ensures AccountOf(evs).stream <= Replies(evs)
    ensures !AccountOf(evs).closed ==> AccountOf(evs).stream == Replies(evs)
  {
    hide Taken, Fails;
    if evs != [] { OpenAcceptsAll(evs[..|evs| - 1]); }
  }

  /** The connection's bytes and flag are those of the account. */
  ghost predicate Agrees(c: Connection, a: Account)
    reads c, c.writeBuf
  {
    c.Valid() && a.taken <= |a.stream| && c.Stream() == a.stream && |c.sent| == a.taken && c.closed == a.closed
  }

  lemma OfferIs(a: Account, ev: Event)
    requires a.taken <= |a.stream|
    ensures var n := |a.stream| - a.taken;
            && Offer(a, ev.writes) == Account(a.stream, a.taken + Taken(ev.writes, n), a.closed || Fails(ev.writes, n))
            && (ev.Reply? ==>
                  var m := n + |ev.data|;
                  Offer(a.(stream := a.stream + ev.data), ev.writes) ==
                  Account(a.stream + ev.data, a.taken + Taken(ev.writes, m), a.closed || Fails(ev.writes, m)))
  {
    hide Taken, Fails;
  }

  method Take(c: Connection, ev: Event, ghost a: Account)
    requires Agrees(c, a)
    modifies c, c.writeBuf
    ensures Agrees(c, Happen(a, ev))
  {
    hide Taken, Fails, Offer;
    OfferIs(a, ev);
    assert |c.Pending()| == |a.stream| - a.taken;
    match ev {
      case Reply(data, writes) => var _ := c.QueueWrite(data, writes);
      case Writable(writes) => var _ := c.Flush(writes);
    }
  }

  /**
  Every run, under every pattern of partial writes: the socket has exactly the bytes it took, which are the
  first of the accepted replies; and as long as the connection is open, these followed by the pending bytes
  are the concatenation of all replies, in order.
  */
  method RunEvents(c: Connection, evs: seq<Event>)
    requires c.Valid() && c.Stream() == [] && !c.closed
    modifies c, c.writeBuf
    ensures c.Valid() && c.closed == AccountOf(evs).closed
    ensures c.Stream() == AccountOf(evs).stream <= Replies(evs) && c.sent == c.Stream()[..AccountOf(evs).taken]
    ensures !c.closed ==> c.Stream() == Replies(evs)
  {
    hide Happen;
    for i := 0 to |evs|
      invariant Agrees(c, AccountOf(evs[..i]))
    {
      assert evs[..i + 1][..i] == evs[..i];
      Take(c, evs[i], AccountOf(evs[..i]));
    }
    assert evs[..|evs|] == evs;
    OpenAcceptsAll(evs);
    assert c.sent == c.Stream()[..|c.sent|];
  }
}
