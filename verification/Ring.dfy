/** The publish/subscribe ring: one publisher, one poller, a power-of-two array of slots. */
module Ring {
  import opened ByteStrings
  import opened Options
  import opened Bits
  import Arena

  const MSG_MAX: nat := 512
  const CHANNEL_MAX: nat := 63
  const SLOT_SIZE: nat := 592

  datatype Msg = Msg(channel: Bytes, payload: Bytes)

  datatype Slot = Slot(msg: Msg, seqNo: nat)

  /** A channel name as a slot keeps it: its first 63 bytes. */
  function Truncated(channel: Bytes): (name: Bytes)
    ensures name <= channel && |name| == if |channel| < 63 then |channel| else 63
  {
    if |channel| > CHANNEL_MAX then channel[..CHANNEL_MAX] else channel
  }

  /** Positions less than a turn apart use different slots. */
  lemma TurnApart(i: nat, j: nat, cap: nat)
    requires cap > 0 && i < j < i + cap
    ensures i % cap != j % cap
  {
    var p, q := i / cap, j / cap;
    if i % cap == j % cap {
      assert i == p * cap + i % cap && j == q * cap + i % cap;
      if q <= p { MulGrows(q, p, cap); } else { MulGrows(p + 1, q, cap); }
      assert false;
    }
  }

  lemma NoSlots()
    ensures Arena.Product(0, SLOT_SIZE) == 0
  {
    hide Pow2;
    ModUnique(0, Pow2(64), 0, 0);
  }

  lemma RoundsOnce(v: nat, a: nat, b: nat)
    requires RoundedUp(v, a) && RoundedUp(v, b)
    ensures a == b
  {
    var j :| 1 <= j <= 63 && IsPow2(a, j);
    var k :| 1 <= k <= 63 && IsPow2(b, k);
  }

  /** The bytes of the slots, as 64-bit arithmetic multiplies them: exact, or more than a small arena has, or none. */
  lemma SlotBytes(v: nat, cap: nat)
    requires RoundedUp(v, cap)
    ensures var p := Arena.Product(cap, SLOT_SIZE);
            && cap > 0
            && (p == SLOT_SIZE * cap || ((p == 0 || p >= Pow2(58)) && SLOT_SIZE * cap >= Pow2(58)))
  {
    hide Pow2;
    var k :| 1 <= k <= 63 && IsPow2(cap, k);
    PowAdds(4, k);
    SixteenIs();
    assert SLOT_SIZE * cap == 37 * Pow2(k + 4);
    if k >= 60 { ManySlots(k); } else { FewSlots(k); }
  }

  /** From 2^60 slots on the product is a multiple of 2^64. */
  lemma ManySlots(k: nat)
    requires k >= 60
    ensures 37 * Pow2(k + 4) % Pow2(64) == 0 && 37 * Pow2(k + 4) >= Pow2(58)
  {
    hide Pow2;
    var z, p := Pow2(k - 60), Pow2(64);
    PowAdds(k - 60, 64);
    MulRotates(37, z, p);
    ModUnique(37 * (z * p), p, 37 * z, 0);
    WeakGrows(58, k + 4);
  }

  lemma FewSlots(k: nat)
    requires k < 60
    ensures var n := 37 * Pow2(k + 4); var p := n % Pow2(64);
            p == n || ((p == 0 || p >= Pow2(58)) && n >= Pow2(58))
  {
    hide Pow2;
    var m, q := Pow2(k + 4), Pow2(60 - k);
    PowAdds(k + 4, 60 - k);
    SpreadMod(37, m, q);
    if q <= 37 {
      SmallPower(60 - k);
      WeakGrows(58, k + 4);
      if 37 % q > 0 { MulGrows(1, 37 % q, m); }
    }
  }

  lemma SixteenIs()
    ensures Pow2(4) == 16 && Pow2(0) == 1
  {
    assert Pow2(2) == 4;
  }

  lemma MulRotates(a: nat, z: nat, p: nat)
    ensures a * (z * p) == a * z * p
  {
  }

  lemma SpreadMod(a: nat, m: nat, q: nat)
    requires m > 0 && q > 0
    ensures m * q > 0 && a * m % (m * q) == (if a < q then a * m else a % q * m)
  {
    MulGrows(1, q, m);
    var d, r := a / q, a % q;
    assert a == d * q + r;
    MulGrows(r + 1, q, m);
    assert a * m == d * (m * q) + r * m by { Distribute(d, q, r, m); }
    ModUnique(a * m, m * q, d, r * m);
    if a < q { ModUnique(a, q, 0, a); }
  }

  lemma Distribute(d: nat, q: nat, r: nat, m: nat)
    ensures (d * q + r) * m == d * (m * q) + r * m
  {
    assert (d * q + r) * m == d * q * m + r * m;
    assert d * q * m == d * (q * m);
  }

  lemma SmallPower(j: nat)
    requires Pow2(j) <= 37
    ensures j <= 5
  {
    assert Pow2(3) == 8 && Pow2(6) == 8 * Pow2(3);
    if j > 5 {
      WeakGrows(6, j);
      assert false;
    }
  }

  /** The slots from read to write, in order. */
  function Unread(s: seq<Slot>, read: nat, write: nat): (q: seq<Slot>)
    requires |s| > 0 && read <= write
    ensures |q| == write - read && forall i :: 0 <= i < |q| ==> q[i] == s[(read + i) % |s|]
  {
    seq(write - read, i requires 0 <= i < write - read => s[(read + i) % |s|])
  }

  lemma UnreadGrows(s: seq<Slot>, read: nat, write: nat, e: Slot)
    requires |s| > 0 && read <= write < read + |s|
    ensures Unread(s[write % |s| := e], read, write + 1) == Unread(s, read, write) + [e]
  {
    var s', n := s[write % |s| := e], |s|;
    var q, q' := Unread(s, read, write), Unread(s', read, write + 1);
    forall i | 0 <= i < |q| ensures q'[i] == q[i] { TurnApart(read + i, write, n); }
    assert q'[|q|] == s'[(read + |q|) % n];
  }

  lemma UnreadShrinks(s: seq<Slot>, read: nat, write: nat)
    requires |s| > 0 && read < write
    ensures Unread(s, read, write) == [s[read % |s|]] + Unread(s, read + 1, write)
  {
    var q, q', n := Unread(s, read, write), Unread(s, read + 1, write), |s|;
    assert q[0] == s[(read + 0) % n];
    forall i | 1 <= i < |q| ensures q[i] == q'[i - 1] { assert read + i == read + 1 + (i - 1); }
  }

  /** The ring as one thread uses it. */
  class RingBuffer {
    const slots: array<Slot>
    var writeSeq: nat
    var readSeq: nat
    ghost const bits: nat

    ghost predicate Valid()
      reads this
    {
      slots.Length == Pow2(bits) && readSeq <= writeSeq <= readSeq + slots.Length
    }

    /** The unread messages, oldest first. */
    ghost function Queue(): seq<Slot>
      requires Valid()
      reads this, slots
    {
      Unread(slots[..], readSeq, writeSeq)
    }

    constructor (capacity: nat)
      requires 0 < capacity <= Pow2(63)
      ensures Valid() && Queue() == [] && fresh(slots) && RoundedUp(capacity, slots.Length)
    {
      hide Pow2;
      PowGrows(63, 64);
      var cap := NextPowerOfTwo(capacity);
      ghost var k: nat :| 1 <= k <= 63 && IsPow2(cap, k);
      slots := new Slot[cap](_ => Slot(Msg([], []), 0));
      bits := k;
      writeSeq, readSeq := 0, 0;
    }

    /**
    zedis_ring_init on an arena of less than 2^58 bytes: refused exactly for capacity 0, above 2^63, where the
    rounding wraps to 0, and when the arena has no room for the slots; a product that wraps is never granted.
    */
    static method Init(arena: Arena.BumpArena, capacity: nat) returns (r: Option<RingBuffer>, ghost cap: nat)
      requires arena.Valid() && arena.mem.Length < Pow2(58) && capacity < Pow2(64)
      modifies arena`offset, arena`blocks, arena.mem
      ensures arena.Valid() && (0 < capacity <= Pow2(63) ==> RoundedUp(capacity, cap))
      ensures r.None? <==> capacity == 0 || capacity > Pow2(63) ||
                           Arena.FirstFit(old(arena.offset), 64) + SLOT_SIZE * cap > arena.mem.Length
      ensures r.None? ==> arena.blocks == old(arena.blocks)
      ensures r.Some? ==> r.value.Valid() && r.value.Queue() == [] && fresh(r.value) && fresh(r.value.slots)
      ensures r.Some? ==> r.value.slots.Length == cap &&
                          arena.blocks == old(arena.blocks) +
                            [Arena.Block(Arena.FirstFit(old(arena.offset), 64), SLOT_SIZE * cap, 64)]
    {
      hide Pow2, Arena.FirstFit, Arena.Product, RoundedUp;
      SixtyFour();
      cap := 0;
      if capacity == 0 {
        return None, cap;
      }
      var n := NextPowerOfTwo(capacity);
      cap := n;
      NoSlots();
      if capacity <= Pow2(63) { SlotBytes(capacity, n); }
      var at := arena.Calloc(n, SLOT_SIZE, 64, 6);
      if at.None? {
        return None, cap;
      }
      var ring := new RingBuffer(capacity);
      RoundsOnce(capacity, n, ring.slots.Length);
      r := Some(ring);
    }

    /** Queues a message unless it is too long or the ring is full. */
    method Publish(channel: Bytes, payload: Bytes) returns (ok: bool)
      requires Valid()
      modifies this`writeSeq, slots
      ensures Valid()
      ensures ok <==> |payload| <= 512 && |old(Queue())| < slots.Length
      ensures Queue() == if ok then old(Queue()) + [Slot(Msg(Truncated(channel), payload), old(writeSeq))] else old(Queue())
    {
      hide Pow2, And;
      if |payload| > MSG_MAX {
        return false;
      }
      var n, read := writeSeq, readSeq;
      if n - read >= slots.Length {
        return false;
      }
      MaskIsModulo(n, bits);
      var idx := And(n, slots.Length - 1);
      ghost var s := slots[..];
      UnreadGrows(s, read, n, Slot(Msg(Truncated(channel), payload), n));
      slots[idx] := Slot(Msg(Truncated(channel), payload), n);
      assert slots[..] == s[idx := Slot(Msg(Truncated(channel), payload), n)];
      writeSeq := n + 1;
      ok := true;
    }

    /** Takes the oldest message. */
    method Poll() returns (out: Option<Slot>)
      requires Valid()
      modifies this`readSeq
      ensures Valid()
      ensures old(Queue()) == [] ==> out == None && Queue() == []
      ensures old(Queue()) != [] ==> out == Some(old(Queue())[0]) && Queue() == old(Queue())[1..]
    {
      hide Pow2, And;
      var read, write := readSeq, writeSeq;
      if read >= write {
        return None;
      }
      MaskIsModulo(read, bits);
      UnreadShrinks(slots[..], read, write);
      var idx := And(read, slots.Length - 1);
      out := Some(slots[idx]);
      readSeq := read + 1;
    }
  }

  // ----- Publisher and poller interleaved, one shared access at a time -----

  /** Where the publisher is: it has read write_seq; also read_seq; is writing the slot; has written it. */
  datatype Publisher =
    | PubIdle
    | PubSeq(m: Msg, n: nat)
    | PubRoom(m: Msg, n: nat, seen: nat)
    | PubWriting(m: Msg, n: nat)
    | PubWritten(m: Msg, n: nat)

  /** Where the poller is: it has read read_seq; also write_seq; copied the channel; copied everything. */
  datatype Poller =
    | PollIdle
    | PollSeq(n: nat)
    | PollReady(n: nat)
    | PollHalf(n: nat, channel: Bytes)
    | PollCopied(n: nat, m: Msg)

  /** The shared ring, both parties, and the history of what was committed and what was delivered. */
  datatype World = World(slots: seq<Msg>, writeSeq: nat, readSeq: nat, pub: Publisher, poll: Poller,
                         published: seq<Msg>, polled: seq<Msg>)

  ghost predicate Init(w: World)
  {
    |w.slots| > 0 && w.writeSeq == w.readSeq == 0 && w.pub == PubIdle && w.poll == PollIdle && w.published == w.polled == []
  }

  /** A slot half written may hold anything. */
  ghost predicate Scribbled(w: World, w': World, x: nat)
  {
    && |w'.slots| == |w.slots| && w' == w.(slots := w'.slots)
    && forall i :: 0 <= i < |w.slots| && i != x ==> w'.slots[i] == w.slots[i]
  }

  ghost predicate PublisherStep(w: World, w': World)
    requires |w.slots| > 0
  {
    match w.pub
    case PubIdle => exists m :: w' == w.(pub := PubSeq(m, w.writeSeq))
    case PubSeq(m, n) => w' == w.(pub := PubRoom(m, n, w.readSeq))
    case PubRoom(m, n, seen) =>
      w' == w.(pub := if n - seen >= |w.slots| then PubIdle else PubWriting(m, n))
    case PubWriting(m, n) =>
      || Scribbled(w, w', n % |w.slots|)
      || w' == w.(slots := w.slots[n % |w.slots| := m], pub := PubWritten(m, n))
    case PubWritten(m, n) => w' == w.(writeSeq := n + 1, pub := PubIdle, published := w.published + [m])
  }

  ghost predicate PollerStep(w: World, w': World)
    requires |w.slots| > 0
  {
    match w.poll
    case PollIdle => w' == w.(poll := PollSeq(w.readSeq))
    case PollSeq(n) => w' == w.(poll := if n >= w.writeSeq then PollIdle else PollReady(n))
    case PollReady(n) => w' == w.(poll := PollHalf(n, w.slots[n % |w.slots|].channel))
    case PollHalf(n, ch) => w' == w.(poll := PollCopied(n, Msg(ch, w.slots[n % |w.slots|].payload)))
    case PollCopied(n, m) => w' == w.(readSeq := n + 1, poll := PollIdle, polled := w.polled + [m])
  }

  ghost predicate Next(w: World, w': World)
    requires |w.slots| > 0
  {
    PublisherStep(w, w') || PollerStep(w, w')
  }

  /** The unread part of the history lies in the slots. */
  ghost predicate Intact(w: World)
  {
    |w.slots| > 0 && |w.published| == w.writeSeq &&
    forall i :: w.readSeq <= i < w.writeSeq ==> w.slots[i % |w.slots|] == w.published[i]
  }

  ghost predicate PublisherSane(w: World)
  {
    |w.slots| > 0 &&
    match w.pub
    case PubIdle => true
    case PubSeq(_, n) => n == w.writeSeq
    case PubRoom(_, n, seen) => n == w.writeSeq && seen <= w.readSeq
    case PubWriting(_, n) => n == w.writeSeq && n < w.readSeq + |w.slots|
    case PubWritten(m, n) => n == w.writeSeq && n < w.readSeq + |w.slots| && w.slots[n % |w.slots|] == m
  }

  ghost predicate PollerSane(w: World)
  {
    |w.published| == w.writeSeq &&
    match w.poll
    case PollIdle => true
    case PollSeq(n) => n == w.readSeq
    case PollReady(n) => n == w.readSeq < w.writeSeq
    case PollHalf(n, ch) => n == w.readSeq < w.writeSeq && ch == w.published[n].channel
    case PollCopied(n, m) => n == w.readSeq < w.writeSeq && m == w.published[n]
  }

  ghost predicate Inv(w: World)
  {
    && w.readSeq <= w.writeSeq <= w.readSeq + |w.slots|
    && Intact(w) && PublisherSane(w) && PollerSane(w)
    && w.polled == w.published[..w.readSeq]
  }

  lemma WriteSparesUnread(w: World, junk: Msg)
    requires Inv(w) && w.writeSeq < w.readSeq + |w.slots|
    ensures Intact(w.(slots := w.slots[w.writeSeq % |w.slots| := junk]))
  {
    forall i | w.readSeq <= i < w.writeSeq ensures i % |w.slots| != w.writeSeq % |w.slots| {
      TurnApart(i, w.writeSeq, |w.slots|);
    }
  }

  lemma PublisherKeeps(w: World, w': World)
    requires Inv(w) && PublisherStep(w, w')
    ensures Inv(w') && |w'.slots| == |w.slots|
  {
    match w.pub
    case PubWriting(m, n) =>
      var x := w'.slots[n % |w.slots|];
      WriteSparesUnread(w, x);
      assert w'.slots == w.slots[n % |w.slots| := x];
    case PubWritten(m, n) =>
      forall i | w'.readSeq <= i < w'.writeSeq ensures w'.slots[i % |w.slots|] == w'.published[i] {}
      assert w'.published[..w'.readSeq] == w.published[..w.readSeq];
    case _ =>
  }

  lemma PollerKeeps(w: World, w': World)
    requires Inv(w) && PollerStep(w, w')
    ensures Inv(w') && |w'.slots| == |w.slots|
  {
    if w.poll.PollCopied? {
      assert w.published[..w.readSeq + 1] == w.published[..w.readSeq] + [w.published[w.readSeq]];
    }
  }

  ghost predicate IsRun(run: seq<World>)
  {
    && |run| > 0 && Init(run[0])
    && (forall i :: 0 <= i < |run| ==> |run[i].slots| > 0)
    && forall i :: 0 <= i < |run| - 1 ==> Next(run[i], run[i + 1])
  }

  lemma {:induction false} RunKeeps(run: seq<World>, i: nat)
    requires IsRun(run) && i < |run|
    ensures Inv(run[i]) && |run[i].slots| == |run[0].slots|
  {
    if i > 0 {
      RunKeeps(run, i - 1);
      assert Next(run[i - 1], run[i - 1 + 1]);
      if PublisherStep(run[i - 1], run[i]) {
        PublisherKeeps(run[i - 1], run[i]);
      } else {
        PollerKeeps(run[i - 1], run[i]);
      }
    }
  }

  /**
  Under every interleaving: what was delivered is a prefix of what was committed, at most a ringful is
  unread, and every unread message lies undamaged in its slot, also while the publisher writes another.
  */
  lemma EveryInterleavingIsSafe(run: seq<World>, i: nat)
    requires IsRun(run) && i < |run|
    ensures var w := run[i];
            && w.polled <= w.published
            && |w.polled| == w.readSeq && |w.published| == w.writeSeq
            && w.readSeq <= w.writeSeq <= w.readSeq + |w.slots|
            && (forall j :: w.readSeq <= j < w.writeSeq ==> w.slots[j % |w.slots|] == w.published[j])
            && (w.pub.PubWriting? ==>
                  forall j :: w.readSeq <= j < w.writeSeq ==> j % |w.slots| != w.pub.n % |w.slots|)
  {
    RunKeeps(run, i);
    var w := run[i];
    if w.pub.PubWriting? {
      forall j | w.readSeq <= j < w.writeSeq ensures j % |w.slots| != w.pub.n % |w.slots| {
        TurnApart(j, w.writeSeq, |w.slots|);
      }
    }
  }
}
