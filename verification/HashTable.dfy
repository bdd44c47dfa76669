/** The fixed-capacity hash table: set displaces entries in place, del buries them, get probes. */
module HashTable {
  import opened ByteStrings
  import opened Options
  import opened RobinHood

  const MAX_KEY: nat := 256
  const MAX_VALUE: nat := 4096

  class Table {
    const entries: array<Slot>
    const hash: Hash
    var count: nat

    /** Holds over every run, deletions included. */
    ghost predicate Valid()
      reads this, entries
    {
      entries.Length > 0 && AllPlaced(entries[..], hash) && count == OccupiedCount(entries[..])
    }

    /** The table is a map: every stored key can be found and none is stored twice. */
    ghost predicate Ordered()
      reads this, entries
    {
      WellOrdered(entries[..], hash)
    }

    /** No deletion has left its mark; kept by every run without one. */
    ghost predicate Clean()
      reads this, entries
    {
      NoTombstones(entries[..])
    }

    ghost function Contents(): map<Bytes, Bytes>
      reads this, entries
    {
      MapOf(entries[..])
    }

    constructor (cap: nat, hash: Hash)
      requires cap > 0
      ensures Valid() && Ordered() && Clean() && Contents() == map[] && count == 0
      ensures fresh(entries) && entries.Length == cap && this.hash == hash
    {
      entries := new Slot[cap](_ => EmptySlot);
      this.hash := hash;
      count := 0;
      new;
      NothingStored(entries[..]);
    }

    method Write(i: nat, e: Slot)
      requires i < entries.Length
      modifies entries
      ensures entries[..] == old(entries[..])[i := e]
    {
      entries[i] := e;
    }

    predicate Accepts(key: Bytes, value: Bytes)
      reads this
    {
      Admits(key, value, count, entries.Length)
    }

    /**
    SET. Refused for an oversized key or value and at 70 percent load, even for a stored key. From an ordered
    table exactly one binding of the map changes, unless the key is stored and its home slot is a tombstone:
    then it is stored twice. Stops within one turn.
    */
    method Set(key: Bytes, value: Bytes) returns (ok: bool, probes: nat)
      requires Valid()
      modifies this`count, entries
      ensures Valid() && probes <= entries.Length
      ensures ok == old(Accepts(key, value))
      ensures ok <==> |key| <= 256 && |value| <= 4096 && old(count) * 10 < entries.Length * 7
      ensures entries[..] == SetStep(old(entries[..]), hash, key, value)
      ensures old(count) <= count <= old(count) + 1 && (old(Clean()) ==> Clean())
      ensures ok && old(Ordered()) ==>
                && (Ordered() <==> !Reuses(old(entries[..]), hash, key))
                && (DistinctKeys(entries[..]) <==> !Reuses(old(entries[..]), hash, key))
      ensures ok && old(Ordered()) && Ordered() ==> Contents() == old(Contents())[key := value]
      ensures old(Clean()) ==> !Reuses(old(entries[..]), hash, key)
    {
      hide AllPlaced, WellOrdered, MapOf, OccupiedCount, Bucket, Place;
      CleanHasNoReuse(entries[..], hash, key);
      probes := 0;
      if |key| > MAX_KEY || |value| > MAX_VALUE {
        return false, 0;
      }
      if count * 10 >= entries.Length * 7 {
        return false, 0;
      }
      ok := true;
      probes := Insert(key, value);
    }

    /** The displacement loop. */
    method Insert(key: Bytes, value: Bytes) returns (probes: nat)
      requires Valid() && count < entries.Length
      modifies this`count, entries
      ensures Valid() && probes <= entries.Length && old(count) <= count <= old(count) + 1
      ensures entries[..] == Place(old(entries[..]), hash, key, value, 0, Incoming(hash, key, value), 0)
      ensures old(Clean()) ==> Clean()
      ensures old(Ordered()) ==>
                && (Ordered() <==> !Reuses(old(entries[..]), hash, key))
                && (DistinctKeys(entries[..]) <==> !Reuses(old(entries[..]), hash, key))
      ensures old(Ordered()) && Ordered() ==> Contents() == old(Contents())[key := value]
    {
      hide AllPlaced, WellOrdered, MapOf, OccupiedCount, Bucket, InLoop, Finished, Reuses, NoTombstones, DistinctKeys,
           Place;
      var h, cap := hash(key), entries.Length;
      ghost var s0, n0 := entries[..], count;
      var idx, psl: nat := Bucket(h, cap), 0;
      var incoming := Incoming(hash, key, value);
      ghost var placed := Place(s0, hash, key, value, 0, incoming, 0);
      probes := 0;
      LoopBegins(s0, hash, key, value, incoming);
      while true
        invariant probes < cap && count == n0 && idx == At(Bucket(h, cap), probes, cap)
        invariant InLoop(entries[..], s0, hash, key, value, probes, incoming, psl)
        invariant Place(entries[..], hash, key, value, probes, incoming, psl) == placed
        decreases cap - probes
      {
        ghost var s := entries[..];
        PlaceOnce(s, hash, key, value, probes, incoming, psl);
        var e := entries[idx];
        if e.state == Empty || e.state == Tombstone {
          LoopLands(s, s0, hash, key, value, probes, incoming, psl);
          Write(idx, Seated(incoming, psl));
          count := count + 1;
          FinishedMeans(entries[..], s0, hash, key, value, count);
          return probes + 1;
        }
        if Matches(e, h, key) {
          LoopMeets(s, s0, hash, key, value, probes, incoming, psl);
          Write(idx, e.(value := value));
          FinishedMeans(entries[..], s0, hash, key, value, count);
          return probes + 1;
        }
        if psl > e.psl {
          LoopDisplaces(s, s0, hash, key, value, probes, incoming, psl);
          Write(idx, Seated(incoming, psl));
          incoming := e;
          psl := e.psl;
        } else {
          LoopPasses(s, s0, hash, key, value, probes, incoming, psl);
        }
        psl := psl + 1;
        NextIs(idx, cap);
        AtSteps(Bucket(h, cap), probes, cap);
        idx := (idx + 1) % cap;
        probes := probes + 1;
      }
    }

    /** The probe that get and del share: it visits slots in order until a verdict, at most one turn and a step. */
    method Find(key: Bytes) returns (r: Option<nat>, probes: nat)
      requires Valid()
      ensures r == Probe(entries[..], hash(key), key, 0)
      ensures probes <= entries.Length + 1
    {
      hide AllPlaced, OccupiedCount, Bucket, Probe;
      var h, cap := hash(key), entries.Length;
      ghost var s := entries[..];
      var idx, psl := Bucket(h, cap), 0;
      probes := 0;
      while true
        invariant psl == probes <= cap && idx == At(Bucket(h, cap), psl, cap)
        invariant Probe(s, h, key, 0) == Probe(s, h, key, psl)
        decreases cap - psl
      {
        var e := entries[idx];
        probes := probes + 1;
        ProbeOnce(s, h, key, psl);
        PslBounded(s, hash, idx);
        if e.state == Empty {
          return None, probes;
        }
        if Matches(e, h, key) {
          return Some(idx), probes;
        }
        if psl > e.psl {
          return None, probes;
        }
        NextIs(idx, cap);
        AtSteps(Bucket(h, cap), psl, cap);
        psl := psl + 1;
        idx := (idx + 1) % cap;
      }
    }

    /** GET: in an ordered table, exactly the binding of the map. */
    method Get(key: Bytes) returns (r: Option<Bytes>, probes: nat)
      requires Valid()
      ensures probes <= entries.Length + 1
      ensures r == var i := Probe(entries[..], hash(key), key, 0); if i.Some? then Some(entries[i.value].value) else None
      ensures Ordered() ==> r == if key in Contents() then Some(Contents()[key]) else None
    {
      hide AllPlaced, WellOrdered, MapOf, OccupiedCount, Probe;
      var i;
      i, probes := Find(key);
      if Ordered() { GetIsLookup(entries[..], hash, key); }
      r := if i.Some? then Some(entries[i.value].value) else None;
    }

    /**
    GET into the caller's buffer: the value, cut off to leave room for a terminator, and its full length.
    */
    method GetInto(key: Bytes, valueOut: array<byte>) returns (r: Option<nat>)
      requires Valid()
      modifies valueOut
      ensures var i := Probe(old(entries[..]), hash(key), key, 0);
              && (r.Some? <==> i.Some?)
              && (r.Some? ==> Copied(old(entries[..])[i.value].value, old(valueOut[..]), valueOut[..], r.value))
      ensures Ordered() ==> (r.Some? <==> key in old(Contents()))
      ensures Ordered() && r.Some? ==> Copied(old(Contents())[key], old(valueOut[..]), valueOut[..], r.value)
      ensures r.None? ==> valueOut[..] == old(valueOut[..])
    {
      hide AllPlaced, WellOrdered, MapOf, OccupiedCount, Probe;
      var v, _ := Get(key);
      if v.None? {
        return None;
      }
      CopyOut(v.value, valueOut);
      r := Some(|v.value|);
    }

    static method CopyOut(value: Bytes, valueOut: array<byte>)
      modifies valueOut
      ensures Copied(value, old(valueOut[..]), valueOut[..], |value|)
    {
      if valueOut.Length == 0 {
        return;
      }
      var n := if |value| < valueOut.Length then |value| else valueOut.Length - 1;
      for i := 0 to n
        invariant forall k :: 0 <= k < i ==> valueOut[k] == value[k]
        invariant forall k :: i <= k < valueOut.Length ==> valueOut[k] == old(valueOut[k])
      {
        valueOut[i] := value[i];
      }
      valueOut[n] := NUL;
    }

    /**
    DEL. Deletes what the probe finds. From an ordered table the map loses that binding, and every other key
    stays reachable exactly if the next entry is less than two places from home.
    */
    method Del(key: Bytes) returns (ok: bool, probes: nat)
      requires Valid()
      modifies this`count, entries
      ensures Valid() && probes <= entries.Length + 1
      ensures ok == Probe(old(entries[..]), hash(key), key, 0).Some?
      ensures entries[..] == DelStep(old(entries[..]), hash, key)
      ensures count == if ok then old(count) - 1 else old(count)
      ensures AllReachable(old(entries[..]), hash) ==>
                (AllReachable(entries[..], hash) <==> !Cuts(old(entries[..]), hash, key))
      ensures old(Ordered()) ==> (Ordered() <==> !Cuts(old(entries[..]), hash, key))
      ensures old(Ordered()) ==> (ok <==> key in old(Contents())) && Contents() == old(Contents()) - {key}
    {
      hide AllPlaced, WellOrdered, MapOf, OccupiedCount, Probe, Cuts, AllReachable;
      ghost var s := entries[..];
      DelStepReach(s, hash, key);
      if Ordered() { DelStepMap(s, hash, key); }
      var i;
      i, probes := Find(key);
      if i.None? {
        return false, probes;
      }
      CountUpdate(s, i.value, Buried(s[i.value]));
      Write(i.value, Buried(entries[i.value]));
      count := count - 1;
      return true, probes;
    }
  }

  /** What a get leaves in a buffer: the value cut off at one byte less than its size, and a terminator. */
  ghost predicate Copied(value: Bytes, before: Bytes, after: Bytes, len: nat)
    requires |before| == |after|
  {
    && len == |value|
    && (after != [] ==>
          var n := if len < |after| then len else |after| - 1;
          after[..n] == value[..n] && after[n] == NUL && after[n + 1..] == before[n + 1..])
  }

  /** A buffer with room for the value and a terminator gets both; a smaller one gets what fits before its last byte. */
  lemma CopiedMeans(value: Bytes, before: Bytes, after: Bytes, len: nat)
    requires |before| == |after| && Copied(value, before, after, len)
    ensures len == |value|
    ensures |value| < |after| ==> after == value + [0] + before[|value| + 1..]
    ensures 0 < |after| <= |value| ==> after == value[..|after| - 1] + [0]
  {
    if after != [] {
      var n := if len < |after| then len else |after| - 1;
      assert after == after[..n] + [after[n]] + after[n + 1..];
    }
  }

  /** Commands on the table, as a run sees them. */
  datatype Op = SetOp(key: Bytes, value: Bytes) | DelOp(key: Bytes)

  /** The map a run should produce in a table of the given capacity. */
  ghost function Replay(m: map<Bytes, Bytes>, ops: seq<Op>, cap: nat): map<Bytes, Bytes>
  {
    if ops == [] then m else After(Replay(m, ops[..|ops| - 1], cap), ops[|ops| - 1], cap)
  }

  /** The same command on a plain map. */
  function After(m: map<Bytes, Bytes>, op: Op, cap: nat): map<Bytes, Bytes>
  {
    match op
    case SetOp(key, value) => if Admits(key, value, |m|, cap) then m[key := value] else m
    case DelOp(key) => m - {key}
  }

  predicate Admits(key: Bytes, value: Bytes, count: nat, cap: nat)
  {
    |key| <= MAX_KEY && |value| <= MAX_VALUE && count * 10 < cap * 7
  }

  /** The command stores a key twice or cuts a key off. */
  ghost predicate Harms(s: seq<Slot>, hash: Hash, op: Op)
    requires |s| > 0
  {
    match op
    case SetOp(key, value) => Admits(key, value, OccupiedCount(s), |s|) && Reuses(s, hash, key)
    case DelOp(key) => Cuts(s, hash, key)
  }

  /** The entry that a set starts with. */
  function Incoming(hash: Hash, key: Bytes, value: Bytes): Slot
  {
    Slot(Empty, 0, hash(key), key, value)
  }

  /** One set: what the displacement loop leaves, unless the set is refused. */
  function SetStep(s: seq<Slot>, hash: Hash, key: Bytes, value: Bytes): (s': seq<Slot>)
    requires |s| > 0
    ensures |s'| == |s|
  {
    if Admits(key, value, OccupiedCount(s), |s|) then Place(s, hash, key, value, 0, Incoming(hash, key, value), 0) else s
  }

  function OpStep(s: seq<Slot>, hash: Hash, op: Op): (s': seq<Slot>)
    requires |s| > 0
    ensures |s'| == |s|
  {
    match op
    case SetOp(key, value) => SetStep(s, hash, key, value)
    case DelOp(key) => DelStep(s, hash, key)
  }

  /** The table after a run of commands. */
  function RunAll(s: seq<Slot>, hash: Hash, ops: seq<Op>): (s': seq<Slot>)
    requires |s| > 0
    ensures |s'| == |s|
  {
    if ops == [] then s else OpStep(RunAll(s, hash, ops[..|ops| - 1]), hash, ops[|ops| - 1])
  }

  /** No command of the run does harm in the state it meets. */
  ghost predicate Harmless(s: seq<Slot>, hash: Hash, ops: seq<Op>)
    requires |s| > 0
  {
    ops == [] ||
    var n := |ops| - 1;
    Harmless(s, hash, ops[..n]) && !Harms(RunAll(s, hash, ops[..n]), hash, ops[n])
  }

  /** Every state of the run is a map. */
  ghost predicate AlwaysOrdered(s: seq<Slot>, hash: Hash, ops: seq<Op>)
    requires |s| > 0
  {
    (ops == [] || AlwaysOrdered(s, hash, ops[..|ops| - 1])) && WellOrdered(RunAll(s, hash, ops), hash)
  }

  /**
  Every run of SETs and DELs, in whatever order: every state of the run is a map exactly if no command does
  harm, and then the run leaves the map that the same run leaves on a plain map.
  */
  lemma {:induction false} RunExact(s: seq<Slot>, hash: Hash, ops: seq<Op>)
    requires |s| > 0 && WellOrdered(s, hash)
    ensures AlwaysOrdered(s, hash, ops) <==> Harmless(s, hash, ops)
    ensures Harmless(s, hash, ops) ==> MapOf(RunAll(s, hash, ops)) == Replay(MapOf(s), ops, |s|)
  {
    hide WellOrdered, Harms, MapOf, After, OpStep;
    if ops != [] {
      var n := |ops| - 1;
      RunExact(s, hash, ops[..n]);
      OpStepExact(RunAll(s, hash, ops[..n]), hash, ops[n]);
    }
  }

  /** One command on an ordered table. */
  lemma OpStepExact(s: seq<Slot>, hash: Hash, op: Op)
    requires |s| > 0
    ensures WellOrdered(s, hash) ==>
              && (WellOrdered(OpStep(s, hash, op), hash) <==> !Harms(s, hash, op))
              && (WellOrdered(OpStep(s, hash, op), hash) ==> MapOf(OpStep(s, hash, op)) == After(MapOf(s), op, |s|))
  {
    hide WellOrdered, MapOf, OccupiedCount, Place, DelStep, Reuses, Cuts, AllPlaced;
    if WellOrdered(s, hash) {
      CountIsSize(s, hash);
      OrderedIsPlaced(s, hash);
      match op {
        case SetOp(key, value) =>
          if Admits(key, value, OccupiedCount(s), |s|) {
            LoopBegins(s, hash, key, value, Incoming(hash, key, value));
            PlaceFinishes(s, s, hash, key, value, 0, Incoming(hash, key, value), 0);
          }
        case DelOp(key) =>
          DelStepReach(s, hash, key);
          DelStepMap(s, hash, key);
      }
    }
  }

  lemma OrderedIsPlaced(s: seq<Slot>, hash: Hash)
    requires WellOrdered(s, hash)
    ensures AllPlaced(s, hash)
  {
  }

  /** A run of commands on the table object: its states are those of RunAll, so RunExact applies to it. */
  method RunOps(t: Table, ops: seq<Op>)
    requires t.Valid()
    modifies t`count, t.entries
    ensures t.Valid() && t.entries[..] == RunAll(old(t.entries[..]), t.hash, ops)
    ensures old(t.Ordered()) ==>
              && (AlwaysOrdered(old(t.entries[..]), t.hash, ops) <==> Harmless(old(t.entries[..]), t.hash, ops))
              && (Harmless(old(t.entries[..]), t.hash, ops) ==>
                    t.Ordered() && t.Contents() == Replay(old(t.Contents()), ops, t.entries.Length))
  {
    hide WellOrdered, AllPlaced, MapOf, OccupiedCount, Harmless, SetStep, DelStep;
    ghost var s := t.entries[..];
    for i := 0 to |ops|
      invariant t.Valid() && t.entries[..] == RunAll(s, t.hash, ops[..i])
    {
      assert ops[..i + 1][..i] == ops[..i];
      Apply(t, ops[i]);
    }
    assert ops[..|ops|] == ops;
    if WellOrdered(s, t.hash) { RunExact(s, t.hash, ops); }
  }

  /** Without deletions no command does harm. */
  method RunSets(t: Table, ops: seq<Op>)
    requires t.Valid() && t.Ordered() && t.Clean() && forall i :: 0 <= i < |ops| ==> ops[i].SetOp?
    modifies t`count, t.entries
    ensures t.Valid() && t.Ordered() && t.Clean()
    ensures t.Contents() == Replay(old(t.Contents()), ops, t.entries.Length)
  {
    hide WellOrdered, AllPlaced, MapOf, OccupiedCount, NoTombstones;
    ghost var m := t.Contents();
    for i := 0 to |ops|
      invariant t.Valid() && t.Ordered() && t.Clean() && t.Contents() == Replay(m, ops[..i], t.entries.Length)
    {
      assert ops[..i + 1][..i] == ops[..i];
      CountIsSize(t.entries[..], t.hash);
      var _, _ := t.Set(ops[i].key, ops[i].value);
    }
    assert ops[..|ops|] == ops;
  }

  /** One command. */
  method Apply(t: Table, op: Op)
    requires t.Valid()
    modifies t`count, t.entries
    ensures t.Valid() && t.entries[..] == OpStep(old(t.entries[..]), t.hash, op)
  {
    hide WellOrdered, AllPlaced, MapOf, OccupiedCount, SetStep, DelStep;
    match op {
      case SetOp(key, value) => var _, _ := t.Set(key, value);
      case DelOp(key) => var _, _ := t.Del(key);
    }
  }

  lemma CountIsSize(s: seq<Slot>, hash: Hash)
    requires WellOrdered(s, hash)
    ensures |MapOf(s)| == OccupiedCount(s)
  {
    DistinctSize(s);
  }

  lemma {:induction false} DistinctSize(s: seq<Slot>)
    requires DistinctKeys(s)
    ensures |MapOf(s)| == OccupiedCount(s)
  {
    if s != [] {
      var k := |s| - 1;
      DistinctSize(s[..k]);
      if Occ(s[k]) && s[k].key in MapOf(s[..k]) {
        var i := MapOnly(s[..k], s[k].key);
        assert false;
      }
    }
  }

  lemma {:induction false} NothingStored(s: seq<Slot>)
    requires forall i :: 0 <= i < |s| ==> s[i] == EmptySlot
    ensures OccupiedCount(s) == 0 && MapOf(s) == map[]
  {
    if s != [] { NothingStored(s[..|s| - 1]); }
  }

  // ----- The displacement loop, with and without deletions in the past -----

  /** What the loop keeps: always the structure, and from an ordered table s0 the order and the map. */
  ghost predicate InLoop(s: seq<Slot>, s0: seq<Slot>, hash: Hash, key: Bytes, value: Bytes, steps: nat, inc: Slot, psl: nat)
  {
    && Probing(s, hash, key, steps, inc, psl)
    && |s| == |s0| && OccupiedCount(s) == OccupiedCount(s0) < |s|
    && (NoTombstones(s0) ==> NoTombstones(s))
    && (WellOrdered(s0, hash) ==> OrderedProbing(s, s0, hash, key, value, steps, inc, psl))
  }

  ghost predicate Finished(s: seq<Slot>, s0: seq<Slot>, hash: Hash, key: Bytes, value: Bytes, count: nat)
    requires |s0| > 0
  {
    && AllPlaced(s, hash) && OccupiedCount(s) == count
    && (NoTombstones(s0) ==> NoTombstones(s))
    && (WellOrdered(s0, hash) ==>
          && (WellOrdered(s, hash) <==> !Reuses(s0, hash, key))
          && (DistinctKeys(s) <==> !Reuses(s0, hash, key))
          && (WellOrdered(s, hash) ==> MapOf(s) == MapOf(s0)[key := value]))
  }

  lemma FinishedMeans(s: seq<Slot>, s0: seq<Slot>, hash: Hash, key: Bytes, value: Bytes, count: nat)
    requires |s0| > 0 && Finished(s, s0, hash, key, value, count)
    ensures AllPlaced(s, hash) && OccupiedCount(s) == count && (NoTombstones(s0) ==> NoTombstones(s))
    ensures WellOrdered(s0, hash) ==>
              (WellOrdered(s, hash) <==> !Reuses(s0, hash, key)) && (DistinctKeys(s) <==> !Reuses(s0, hash, key))
    ensures WellOrdered(s0, hash) && WellOrdered(s, hash) ==> MapOf(s) == MapOf(s0)[key := value]
  {
  }

  lemma LoopBegins(s: seq<Slot>, hash: Hash, key: Bytes, value: Bytes, inc: Slot)
    requires AllPlaced(s, hash) && OccupiedCount(s) < |s|
    requires inc.hash == hash(key) && inc.key == key && inc.value == value
    ensures InLoop(s, s, hash, key, value, 0, inc, 0)
  {
  }

  lemma LoopLands(s: seq<Slot>, s0: seq<Slot>, hash: Hash, key: Bytes, value: Bytes, steps: nat, inc: Slot, psl: nat)
    requires InLoop(s, s0, hash, key, value, steps, inc, psl)
    requires !Occ(s[At(Bucket(hash(key), |s|), steps, |s|)])
    ensures Finished(s[At(Bucket(hash(key), |s|), steps, |s|) := Seated(inc, psl)], s0, hash, key, value, OccupiedCount(s0) + 1)
  {
    hide WellOrdered, MapOf, OrderedProbing, AllPlaced;
    SeatPlaced(s, hash, key, steps, inc, psl);
    CountUpdate(s, At(Bucket(hash(key), |s|), steps, |s|), Seated(inc, psl));
    if WellOrdered(s0, hash) {
      if Reuses(s0, hash, key) {
        LandsTwice(s, s0, hash, key, value, steps, inc, psl);
      } else {
        Lands(s, s0, hash, key, value, steps, inc, psl);
      }
      OrderedIsDistinct(s[At(Bucket(hash(key), |s|), steps, |s|) := Seated(inc, psl)], hash);
    }
  }

  lemma LoopMeets(s: seq<Slot>, s0: seq<Slot>, hash: Hash, key: Bytes, value: Bytes, steps: nat, inc: Slot, psl: nat)
    requires InLoop(s, s0, hash, key, value, steps, inc, psl)
    requires Matches(s[At(Bucket(hash(key), |s|), steps, |s|)], hash(key), key)
    ensures var i := At(Bucket(hash(key), |s|), steps, |s|);
            Finished(s[i := s[i].(value := value)], s0, hash, key, value, OccupiedCount(s0))
  {
    hide WellOrdered, MapOf, OrderedProbing, AllPlaced;
    ValueKeeps(s, hash, At(Bucket(hash(key), |s|), steps, |s|), value);
    if WellOrdered(s0, hash) {
      Meets(s, s0, hash, key, value, steps, inc, psl);
      var i := At(Bucket(hash(key), |s|), steps, |s|);
      OrderedIsDistinct(s[i := s[i].(value := value)], hash);
    }
  }

  lemma LoopPasses(s: seq<Slot>, s0: seq<Slot>, hash: Hash, key: Bytes, value: Bytes, steps: nat, inc: Slot, psl: nat)
    requires InLoop(s, s0, hash, key, value, steps, inc, psl)
    requires var e := s[At(Bucket(hash(key), |s|), steps, |s|)];
             Occ(e) && !Matches(e, hash(key), key) && psl <= e.psl
    ensures steps + 1 < |s| && InLoop(s, s0, hash, key, value, steps + 1, inc, psl + 1)
  {
    hide WellOrdered, MapOf, OrderedProbing, AllPlaced;
    NotFull(s, hash, key, steps, inc, psl);
    ProbingPasses(s, hash, key, steps, inc, psl);
    if WellOrdered(s0, hash) { Passes(s, s0, hash, key, value, steps, inc, psl); }
  }

  lemma LoopDisplaces(s: seq<Slot>, s0: seq<Slot>, hash: Hash, key: Bytes, value: Bytes, steps: nat, inc: Slot, psl: nat)
    requires InLoop(s, s0, hash, key, value, steps, inc, psl)
    requires var e := s[At(Bucket(hash(key), |s|), steps, |s|)];
             Occ(e) && !Matches(e, hash(key), key) && psl > e.psl
    ensures steps + 1 < |s|
    ensures var i := At(Bucket(hash(key), |s|), steps, |s|);
            InLoop(s[i := Seated(inc, psl)], s0, hash, key, value, steps + 1, s[i], s[i].psl + 1)
  {
    hide WellOrdered, MapOf, OrderedProbing, AllPlaced;
    NotFull(s, hash, key, steps, inc, psl);
    ProbingDisplaces(s, hash, key, steps, inc, psl);
    CountUpdate(s, At(Bucket(hash(key), |s|), steps, |s|), Seated(inc, psl));
    if WellOrdered(s0, hash) { Displaces(s, s0, hash, key, value, steps, inc, psl); }
  }

  /** From any state of the loop on, the function ends where the loop may end. */
  lemma {:induction false} PlaceFinishes(s: seq<Slot>, s0: seq<Slot>, hash: Hash, key: Bytes, value: Bytes, steps: nat, inc: Slot, psl: nat)
    requires InLoop(s, s0, hash, key, value, steps, inc, psl)
    ensures var s' := Place(s, hash, key, value, steps, inc, psl);
            Finished(s', s0, hash, key, value, OccupiedCount(s'))
    decreases |s| - steps
  {
    hide InLoop, Finished, Place, Bucket, OccupiedCount;
    LoopInside(s, s0, hash, key, value, steps, inc, psl);
    var i := At(Bucket(hash(key), |s|), steps, |s|);
    PlaceOnce(s, hash, key, value, steps, inc, psl);
    if !Occ(s[i]) {
      LoopLands(s, s0, hash, key, value, steps, inc, psl);
      FinishedCounts(s[i := Seated(inc, psl)], s0, hash, key, value, OccupiedCount(s0) + 1);
    } else if Matches(s[i], hash(key), key) {
      LoopMeets(s, s0, hash, key, value, steps, inc, psl);
      FinishedCounts(s[i := s[i].(value := value)], s0, hash, key, value, OccupiedCount(s0));
    } else if psl > s[i].psl {
      LoopDisplaces(s, s0, hash, key, value, steps, inc, psl);
      PlaceFinishes(s[i := Seated(inc, psl)], s0, hash, key, value, steps + 1, s[i], s[i].psl + 1);
    } else {
      LoopPasses(s, s0, hash, key, value, steps, inc, psl);
      PlaceFinishes(s, s0, hash, key, value, steps + 1, inc, psl + 1);
    }
  }

  lemma LoopInside(s: seq<Slot>, s0: seq<Slot>, hash: Hash, key: Bytes, value: Bytes, steps: nat, inc: Slot, psl: nat)
    requires InLoop(s, s0, hash, key, value, steps, inc, psl)
    ensures steps < |s| == |s0|
  {
  }

  lemma FinishedCounts(s: seq<Slot>, s0: seq<Slot>, hash: Hash, key: Bytes, value: Bytes, count: nat)
    requires |s0| > 0 && Finished(s, s0, hash, key, value, count)
    ensures Finished(s, s0, hash, key, value, OccupiedCount(s))
  {
  }

  lemma ValueKeeps(s: seq<Slot>, hash: Hash, i: nat, value: Bytes)
    requires AllPlaced(s, hash) && i < |s|
    ensures var s' := s[i := s[i].(value := value)]; AllPlaced(s', hash) && OccupiedCount(s') == OccupiedCount(s)
  {
    CountUpdate(s, i, s[i].(value := value));
    var s' := s[i := s[i].(value := value)];
    forall k | 0 <= k < |s| ensures Placed(s', hash, k) && (!Occ(s'[k]) ==> s'[k].psl == 0) {
      assert Placed(s, hash, k);
    }
  }

  /** A probe that met only occupied slots and does not end here has further slots to meet. */
  lemma NotFull(s: seq<Slot>, hash: Hash, key: Bytes, steps: nat, inc: Slot, psl: nat)
    requires Probing(s, hash, key, steps, inc, psl) && Occ(s[At(Bucket(hash(key), |s|), steps, |s|)])
    requires OccupiedCount(s) < |s|
    ensures steps + 1 < |s|
  {
    hide AllPlaced, OccupiedCount, Bucket;
    if steps + 1 == |s| { FullTurn(s, Bucket(hash(key), |s|)); assert false; }
  }

  lemma ProbingPasses(s: seq<Slot>, hash: Hash, key: Bytes, steps: nat, inc: Slot, psl: nat)
    requires Probing(s, hash, key, steps, inc, psl) && steps + 1 < |s|
    requires Occ(s[At(Bucket(hash(key), |s|), steps, |s|)])
    ensures Probing(s, hash, key, steps + 1, inc, psl + 1)
  {
    hide AllPlaced, Bucket;
    AtSteps(Bucket(hash(key), |s|), steps, |s|);
    AtSteps(Bucket(inc.hash, |s|), psl, |s|);
  }

  lemma ProbingDisplaces(s: seq<Slot>, hash: Hash, key: Bytes, steps: nat, inc: Slot, psl: nat)
    requires Probing(s, hash, key, steps, inc, psl) && steps + 1 < |s|
    requires var e := s[At(Bucket(hash(key), |s|), steps, |s|)]; Occ(e) && psl > e.psl
    ensures var i := At(Bucket(hash(key), |s|), steps, |s|);
            Probing(s[i := Seated(inc, psl)], hash, key, steps + 1, s[i], s[i].psl + 1)
  {
    var b := Bucket(hash(key), |s|);
    var i := At(b, steps, |s|);
    assert Placed(s, hash, i);
    SeatPlaced(s, hash, key, steps, inc, psl);
    hide AllPlaced, Bucket;
    AtSteps(b, steps, |s|);
    AtSteps(Bucket(s[i].hash, |s|), s[i].psl, |s|);
  }

  lemma PslBounded(s: seq<Slot>, hash: Hash, i: nat)
    requires AllPlaced(s, hash) && i < |s|
    ensures s[i].psl < |s|
  {
    assert Placed(s, hash, i);
  }

  lemma GetIsLookup(s: seq<Slot>, hash: Hash, key: Bytes)
    requires WellOrdered(s, hash) && |s| > 0
    ensures var i := Probe(s, hash(key), key, 0);
            (if i.Some? then Some(s[i.value].value) else None) ==
            if key in MapOf(s) then Some(MapOf(s)[key]) else None
  {
    ProbeExact(s, hash, key);
    MapIs(s, key);
  }

  lemma OrderedIsDistinct(s: seq<Slot>, hash: Hash)
    ensures WellOrdered(s, hash) ==> DistinctKeys(s)
  {
  }

  lemma CleanHasNoReuse(s: seq<Slot>, hash: Hash, key: Bytes)
    requires |s| > 0
    ensures NoTombstones(s) ==> !Reuses(s, hash, key)
  {
  }

  lemma DelStepReach(s: seq<Slot>, hash: Hash, key: Bytes)
    requires AllPlaced(s, hash) && |s| > 0
    ensures AllPlaced(DelStep(s, hash, key), hash)
    ensures AllReachable(s, hash) ==> (AllReachable(DelStep(s, hash, key), hash) <==> !Cuts(s, hash, key))
    ensures WellOrdered(s, hash) ==> (WellOrdered(DelStep(s, hash, key), hash) <==> !Cuts(s, hash, key))
  {
    hide Smooth, Probe, AllReachable;
    var s' := DelStep(s, hash, key);
    forall k | 0 <= k < |s| ensures Placed(s', hash, k) && (!Occ(s'[k]) ==> s'[k].psl == 0) {
      assert Placed(s, hash, k);
    }
    ReachableIsOrdered(s, hash);
    ReachableIsOrdered(s', hash);
    if WellOrdered(s, hash) { DelStepKeeps(s, hash, key); }
  }

  lemma DelStepMap(s: seq<Slot>, hash: Hash, key: Bytes)
    requires WellOrdered(s, hash) && |s| > 0
    ensures Probe(s, hash(key), key, 0).Some? <==> key in MapOf(s)
    ensures MapOf(DelStep(s, hash, key)) == MapOf(s) - {key}
  {
    hide Probe, MapOf, Smooth;
    ProbeExact(s, hash, key);
    MapIs(s, key);
    DelStepKeeps(s, hash, key);
    var x := Probe(s, hash(key), key, 0);
    if x.Some? { MapWrite(s, x.value, Buried(s[x.value])); }
  }

  /** A run of deletions leaves every remaining key reachable exactly if none of them cut one off. */
  method RunDels(t: Table, keys: seq<Bytes>)
    requires t.Valid() && AllReachable(t.entries[..], t.hash)
    modifies t`count, t.entries
    ensures t.Valid() && t.entries[..] == DelAll(old(t.entries[..]), t.hash, keys)
    ensures AllReachable(t.entries[..], t.hash) <==> NoCut(old(t.entries[..]), t.hash, keys)
  {
    hide WellOrdered, AllPlaced, MapOf, OccupiedCount, AllReachable, NoCut, DelStep, Cuts, Probe;
    ghost var s := t.entries[..];
    for i := 0 to |keys|
      invariant t.Valid() && t.entries[..] == DelAll(s, t.hash, keys[..i])
    {
      assert keys[..i + 1][..i] == keys[..i];
      var _, _ := t.Del(keys[i]);
    }
    assert keys[..|keys|] == keys;
    DelRunExact(s, t.hash, keys);
  }
}
