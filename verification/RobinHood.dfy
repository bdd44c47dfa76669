/**
A fixed array of slots under Robin Hood probing, as a value. The hash is any function of the key; deletion
leaves a tombstone.
*/
module RobinHood {
  import opened ByteStrings
  import opened Options
  import Bits

  type Hash = Bytes -> nat

  datatype SlotState = Empty | Occupied | Tombstone

  datatype Slot = Slot(state: SlotState, psl: nat, hash: nat, key: Bytes, value: Bytes)

  const EmptySlot: Slot := Slot(Empty, 0, 0, [], [])

  predicate Occ(e: Slot)
  {
    e.state == Occupied
  }

  // ----- Positions on the ring -----

  /** The slot at probe distance j from bucket b. */
  function At(b: nat, j: nat, cap: nat): (i: nat)
    requires b < cap && j <= cap
    ensures i < cap
  {
    if b + j < cap then b + j else b + j - cap
  }

  function Bucket(hash: nat, cap: nat): (b: nat)
    requires cap > 0
    ensures b < cap
  {
    hash % cap
  }

  /** The home of a hash is its remainder: itself below the capacity, and the same one capacity further on. */
  lemma BucketRepeats(hash: nat, cap: nat)
    requires cap > 0
    ensures (hash < cap ==> Bucket(hash, cap) == hash) && Bucket(hash + cap, cap) == Bucket(hash, cap)
  {
    if hash < cap { Bits.ModUnique(hash, cap, 0, hash); }
    OneTurnOn(hash / cap, cap);
    Bits.ModUnique(hash + cap, cap, hash / cap + 1, hash % cap);
  }

  lemma OneTurnOn(q: nat, cap: nat)
    ensures (q + 1) * cap == q * cap + cap
  {
  }

  lemma NextIs(i: nat, cap: nat)
    requires i < cap
    ensures (i + 1) % cap == At(i, 1, cap)
  {
  }

  lemma AtSteps(b: nat, j: nat, cap: nat)
    requires b < cap && j < cap
    ensures At(b, j + 1, cap) == At(At(b, j, cap), 1, cap)
  {
  }

  lemma AtInjective(b: nat, j: nat, k: nat, cap: nat)
    requires b < cap && j < cap && k < cap && At(b, j, cap) == At(b, k, cap)
    ensures j == k
  {
  }

  /** Every slot is at some distance below the capacity. */
  lemma AtCovers(b: nat, i: nat, cap: nat) returns (j: nat)
    requires b < cap && i < cap
    ensures j < cap && At(b, j, cap) == i
  {
    j := if b <= i then i - b else i + cap - b;
  }

  // ----- Structure -----

  /** An occupied slot stands exactly psl places after the bucket of its key. */
  predicate Placed(s: seq<Slot>, hash: Hash, i: nat)
    requires i < |s|
  {
    Occ(s[i]) ==>
      && s[i].hash == hash(s[i].key)
      && s[i].psl < |s|
      && i == At(Bucket(s[i].hash, |s|), s[i].psl, |s|)
  }

  predicate AllPlaced(s: seq<Slot>, hash: Hash)
  {
    forall i :: 0 <= i < |s| ==> Placed(s, hash, i) && (!Occ(s[i]) ==> s[i].psl == 0)
  }

  lemma PlacedAt(s: seq<Slot>, hash: Hash, i: nat)
    requires AllPlaced(s, hash) && i < |s|
    ensures Placed(s, hash, i)
  {
  }

  function OccupiedCount(s: seq<Slot>): (n: nat)
    ensures n <= |s|
  {
    if s == [] then 0 else OccupiedCount(s[..|s| - 1]) + if Occ(s[|s| - 1]) then 1 else 0
  }

  lemma {:induction false} CountUpdate(s: seq<Slot>, i: nat, e: Slot)
    requires i < |s|
    ensures OccupiedCount(s[i := e]) ==
            OccupiedCount(s) - (if Occ(s[i]) then 1 else 0) + if Occ(e) then 1 else 0
  {
    var k := |s| - 1;
    if i < k {
      CountUpdate(s[..k], i, e);
      assert s[i := e][..k] == s[..k][i := e];
    } else {
      assert s[i := e][..k] == s[..k];
    }
  }

  lemma {:induction false} CountAll(s: seq<Slot>)
    requires forall i :: 0 <= i < |s| ==> Occ(s[i])
    ensures OccupiedCount(s) == |s|
  {
    if s != [] { CountAll(s[..|s| - 1]); }
  }

  /** If every slot on a full turn is occupied, the table is full. */
  lemma FullTurn(s: seq<Slot>, b: nat)
    requires b < |s| && forall j :: 0 <= j < |s| ==> Occ(s[At(b, j, |s|)])
    ensures OccupiedCount(s) == |s|
  {
    forall i | 0 <= i < |s| ensures Occ(s[i]) {
      var j := AtCovers(b, i, |s|);
    }
    CountAll(s);
  }

  // ----- The Robin Hood order -----

  /** One more than the recorded probe distance, or zero for an empty slot; a tombstone has rank one. */
  function Rank(e: Slot): nat
  {
    if e.state == Empty then 0 else e.psl + 1
  }

  /** Going once around, the rank never rises by more than one. */
  predicate Smooth(s: seq<Slot>)
  {
    forall i :: 0 <= i < |s| ==> Rank(s[At(i, 1, |s|)]) <= Rank(s[i]) + 1
  }

  predicate DistinctKeys(s: seq<Slot>)
  {
    forall i, j :: 0 <= i < j < |s| && Occ(s[i]) && Occ(s[j]) ==> s[i].key != s[j].key
  }

  predicate NoTombstones(s: seq<Slot>)
  {
    forall i :: 0 <= i < |s| ==> s[i].state != Tombstone
  }

  /** The order under which the table is a map, with or without tombstones. */
  predicate WellOrdered(s: seq<Slot>, hash: Hash)
  {
    AllPlaced(s, hash) && Smooth(s) && DistinctKeys(s)
  }

  /**
  Before an entry at distance d stand, at each distance j below d, entries at distance j or more; only its
  home slot may be a tombstone.
  */
  lemma {:induction false} NoGaps(s: seq<Slot>, hash: Hash, i: nat, j: nat)
    requires AllPlaced(s, hash) && Smooth(s) && i < |s| && Occ(s[i]) && j <= s[i].psl
    ensures var e := s[At(Bucket(s[i].hash, |s|), j, |s|)];
            e.state != Empty && e.psl >= j && (j > 0 ==> Occ(e))
    decreases s[i].psl - j
  {
    assert Placed(s, hash, i);
    var b := Bucket(s[i].hash, |s|);
    if j < s[i].psl {
      NoGaps(s, hash, i, j + 1);
      AtSteps(b, j, |s|);
      assert Rank(s[At(At(b, j, |s|), 1, |s|)]) <= Rank(s[At(b, j, |s|)]) + 1;
    }
    assert Placed(s, hash, At(b, j, |s|));
  }

  // ----- Lookup -----

  predicate Matches(e: Slot, hash: nat, key: Bytes)
  {
    Occ(e) && e.hash == hash && e.key == key
  }

  /** The probe of get and del from distance j on: the index of the matching slot, if the probe meets it. */
  function Probe(s: seq<Slot>, hash: nat, key: Bytes, j: nat): (r: Option<nat>)
    requires |s| > 0
    ensures r.Some? ==> r.value < |s| && Matches(s[r.value], hash, key)
    decreases |s| + 1 - j
  {
    if j > |s| then None
    else
      var i := At(Bucket(hash, |s|), j, |s|);
      if s[i].state == Empty then None
      else if Matches(s[i], hash, key) then Some(i)
      else if j > s[i].psl then None
      else Probe(s, hash, key, j + 1)
  }

  /** The key is stored in slot i. */
  predicate Holds(s: seq<Slot>, i: int, key: Bytes)
  {
    0 <= i < |s| && Occ(s[i]) && s[i].key == key
  }

  ghost predicate Absent(s: seq<Slot>, key: Bytes)
  {
    forall i :: !Holds(s, i, key)
  }

  /** The early exit of the probe never misses: a probe that has not passed the key's slot meets it. */
  lemma {:induction false} ProbeFinds(s: seq<Slot>, hash: Hash, key: Bytes, i: nat, j: nat)
    requires WellOrdered(s, hash) && Holds(s, i, key) && j <= s[i].psl
    ensures |s| > 0 && Probe(s, hash(key), key, j) == Some(i)
    decreases s[i].psl - j
  {
    assert Placed(s, hash, i);
    var b := Bucket(hash(key), |s|);
    NoGaps(s, hash, i, j);
    var k := At(b, j, |s|);
    if k != i {
      assert Occ(s[k]) ==> s[k].key != key;
      ProbeFinds(s, hash, key, i, j + 1);
    }
  }

  /** In a well-ordered table the probe decides membership exactly. */
  lemma ProbeExact(s: seq<Slot>, hash: Hash, key: Bytes)
    requires WellOrdered(s, hash) && |s| > 0
    ensures Probe(s, hash(key), key, 0).Some? <==> exists i :: Holds(s, i, key)
    ensures forall i :: Holds(s, i, key) ==> Probe(s, hash(key), key, 0) == Some(i)
  {
    forall i | Holds(s, i, key) ensures Probe(s, hash(key), key, 0) == Some(i) {
      ProbeFinds(s, hash, key, i, 0);
    }
    var r := Probe(s, hash(key), key, 0);
    if r.Some? { assert Holds(s, r.value, key); }
  }

  /** Every stored entry is found by a probe for its key. */
  ghost predicate AllReachable(s: seq<Slot>, hash: Hash)
    requires |s| > 0
  {
    forall i :: 0 <= i < |s| && Occ(s[i]) ==> Probe(s, hash(s[i].key), s[i].key, 0) == Some(i)
  }

  lemma ProbeOnce(s: seq<Slot>, hash: nat, key: Bytes, j: nat)
    requires |s| > 0 && j <= |s|
    ensures var i := At(Bucket(hash, |s|), j, |s|);
            Probe(s, hash, key, j) ==
            if s[i].state == Empty then None else if Matches(s[i], hash, key) then Some(i)
            else if j > s[i].psl then None else Probe(s, hash, key, j + 1)
  {
  }

  /** A probe that ends in slot i was stopped by no slot before it. */
  lemma {:induction false} ProbePassed(s: seq<Slot>, hash: Hash, i: nat, j: nat, k: nat)
    requires AllPlaced(s, hash) && i < |s| && Occ(s[i]) && j <= k < s[i].psl
    requires Probe(s, s[i].hash, s[i].key, j) == Some(i)
    ensures var e := s[At(Bucket(s[i].hash, |s|), k, |s|)]; e.state != Empty && e.psl >= k
    decreases k - j
  {
    hide Probe, AllPlaced, Bucket;
    PlacedAt(s, hash, i);
    ProbeOnce(s, s[i].hash, s[i].key, j);
    var b := Bucket(s[i].hash, |s|);
    if At(b, j, |s|) == i { AtInjective(b, j, s[i].psl, |s|); assert false; }
    if j < k { ProbePassed(s, hash, i, j + 1, k); }
  }

  /** The rank rises by at most one into the slot of an entry that a probe finds. */
  lemma FoundIsSmooth(s: seq<Slot>, hash: Hash, p: nat)
    requires AllPlaced(s, hash) && p < |s|
    requires var i := At(p, 1, |s|); Occ(s[i]) ==> Probe(s, s[i].hash, s[i].key, 0) == Some(i)
    ensures Rank(s[At(p, 1, |s|)]) <= Rank(s[p]) + 1
  {
    var i := At(p, 1, |s|);
    assert Placed(s, hash, i);
    if Occ(s[i]) && s[i].psl > 0 {
      Predecessor(Bucket(s[i].hash, |s|), s[i].psl - 1, p, |s|);
      ProbePassed(s, hash, i, 0, s[i].psl - 1);
    }
  }

  /** Every entry can be found exactly when the table is in Robin Hood order and stores no key twice. */
  lemma ReachableIsOrdered(s: seq<Slot>, hash: Hash)
    requires AllPlaced(s, hash) && |s| > 0
    ensures AllReachable(s, hash) <==> WellOrdered(s, hash)
  {
    if AllReachable(s, hash) {
      forall p | 0 <= p < |s| ensures Rank(s[At(p, 1, |s|)]) <= Rank(s[p]) + 1 {
        assert Placed(s, hash, At(p, 1, |s|));
        FoundIsSmooth(s, hash, p);
      }
    }
    if WellOrdered(s, hash) {
      forall i | 0 <= i < |s| && Occ(s[i]) ensures Probe(s, hash(s[i].key), s[i].key, 0) == Some(i) {
        ProbeFinds(s, hash, s[i].key, i, 0);
      }
    }
  }

  // ----- The abstract map -----

  ghost function MapOf(s: seq<Slot>): map<Bytes, Bytes>
  {
    if s == [] then map[]
    else
      var k := |s| - 1;
      if Occ(s[k]) then MapOf(s[..k])[s[k].key := s[k].value] else MapOf(s[..k])
  }

  lemma {:induction false} MapAt(s: seq<Slot>, i: nat)
    requires DistinctKeys(s) && i < |s| && Occ(s[i])
    ensures s[i].key in MapOf(s) && MapOf(s)[s[i].key] == s[i].value
  {
    var k := |s| - 1;
    if i < k { MapAt(s[..k], i); }
  }

  lemma {:induction false} MapOnly(s: seq<Slot>, key: Bytes) returns (i: nat)
    requires key in MapOf(s)
    ensures Holds(s, i, key)
  {
    var k := |s| - 1;
    if Occ(s[k]) && s[k].key == key {
      i := k;
    } else {
      i := MapOnly(s[..k], key);
    }
  }

  lemma MapIs(s: seq<Slot>, key: Bytes)
    requires DistinctKeys(s)
    ensures key in MapOf(s) <==> exists i :: Holds(s, i, key)
    ensures forall i :: Holds(s, i, key) ==> key in MapOf(s) && MapOf(s)[key] == s[i].value
  {
    forall i | Holds(s, i, key) ensures key in MapOf(s) && MapOf(s)[key] == s[i].value { MapAt(s, i); }
    if key in MapOf(s) { var i := MapOnly(s, key); }
  }

  /** Writing one slot changes the map in the old entry's key and the new entry's key only. */
  lemma MapWrite(s: seq<Slot>, i: nat, e: Slot)
    requires i < |s| && DistinctKeys(s) && DistinctKeys(s[i := e])
    ensures MapOf(s[i := e]) ==
            var m := if Occ(s[i]) then MapOf(s) - {s[i].key} else MapOf(s);
            if Occ(e) then m[e.key := e.value] else m
  {
    var s' := s[i := e];
    var m := if Occ(s[i]) then MapOf(s) - {s[i].key} else MapOf(s);
    var m' := if Occ(e) then m[e.key := e.value] else m;
    forall k ensures k in MapOf(s') <==> k in m' {
      MapIs(s, k);
      MapIs(s', k);
      WriteHolds(s, i, e, k);
    }
    forall k | k in m' ensures MapOf(s')[k] == m'[k] {
      MapIs(s, k);
      MapIs(s', k);
      WriteHolds(s, i, e, k);
    }
  }

  lemma WriteHolds(s: seq<Slot>, i: nat, e: Slot, k: Bytes)
    requires i < |s|
    ensures Holds(s[i := e], i, k) == (Occ(e) && e.key == k)
    ensures forall j :: j != i ==> Holds(s[i := e], j, k) == Holds(s, j, k)
  {
  }

  // ----- Insertion -----

  /** The slot that holds entry e at probe distance psl. */
  function Seated(e: Slot, psl: nat): (r: Slot)
    ensures Occ(r) && r.psl == psl && r.(state := e.state, psl := e.psl) == e
  {
    e.(state := Occupied, psl := psl)
  }

  /**
  The state of the insertion loop after some probes for key: entry `inc` looks for a seat at distance psl
  of its own bucket, in the slot at distance `steps` of the key's bucket; every slot passed is occupied.
  */
  predicate Probing(s: seq<Slot>, hash: Hash, key: Bytes, steps: nat, inc: Slot, psl: nat)
  {
    && AllPlaced(s, hash)
    && psl <= steps < |s|
    && inc.hash == hash(inc.key)
    && At(Bucket(hash(key), |s|), steps, |s|) == At(Bucket(inc.hash, |s|), psl, |s|)
    && forall j :: 0 <= j < steps ==> Occ(s[At(Bucket(hash(key), |s|), j, |s|)])
  }

  /** The home slot of a stored key is a tombstone: set would seat the key there a second time. */
  ghost predicate Reuses(s: seq<Slot>, hash: Hash, key: Bytes)
    requires |s| > 0
  {
    s[Bucket(hash(key), |s|)].state == Tombstone && exists i :: Holds(s, i, key)
  }

  /** In an ordered table: the key was met nowhere on the way, or it has been seated already. */
  ghost predicate OrderedProbing(s: seq<Slot>, s0: seq<Slot>, hash: Hash, key: Bytes, value: Bytes,
                                 steps: nat, inc: Slot, psl: nat)
  {
    && Probing(s, hash, key, steps, inc, psl)
    && WellOrdered(s, hash)
    && (steps > 0 ==> Rank(s[At(Bucket(hash(key), |s|), steps - 1, |s|)]) >= psl)
    && (if exists i :: Holds(s0, i, key) then
          && s == s0 && inc.key == key && psl == steps
          && forall j :: 0 <= j < steps ==> s[At(Bucket(hash(key), |s|), j, |s|)].key != key
        else
          && Absent(s, inc.key)
          && MapOf(s)[inc.key := inc.value] == MapOf(s0)[key := value]
          && (inc.key == key || exists j :: 0 <= j < steps && s[At(Bucket(hash(key), |s|), j, |s|)].key == key))
  }

  /** The displacement loop as a function: the table after seating `inc`, and whoever it displaces, from here on. */
  function Place(s: seq<Slot>, hash: Hash, key: Bytes, value: Bytes, steps: nat, inc: Slot, psl: nat): (s': seq<Slot>)
    requires |s| > 0
    ensures |s'| == |s|
    decreases |s| - steps
  {
    if steps >= |s| then s
    else
      var i := At(Bucket(hash(key), |s|), steps, |s|);
      var e := s[i];
      if !Occ(e) then s[i := Seated(inc, psl)]
      else if Matches(e, hash(key), key) then s[i := e.(value := value)]
      else if psl > e.psl then Place(s[i := Seated(inc, psl)], hash, key, value, steps + 1, e, e.psl + 1)
      else Place(s, hash, key, value, steps + 1, inc, psl + 1)
  }

  /** The resident at distance j keeps its seat from an entry that would be there at distance lag + j of its own home. */
  predicate Keeps(s: seq<Slot>, hash: Hash, key: Bytes, j: nat, lag: int)
    requires j < |s|
  {
    var e := s[At(Bucket(hash(key), |s|), j, |s|)];
    Occ(e) && !Matches(e, hash(key), key) && lag + j <= e.psl
  }

  predicate AllKeep(s: seq<Slot>, hash: Hash, key: Bytes, from: nat, to: nat, lag: int)
    requires to <= |s|
  {
    forall j :: from <= j < to ==> Keeps(s, hash, key, j, lag)
  }

  /**
  An entry takes the first free seat, moving nobody, if everybody on the way is at least as far from home; and
  if it meets its key on the way, only the value there changes.
  */
  lemma {:induction false} PlaceSettles(s: seq<Slot>, hash: Hash, key: Bytes, value: Bytes, steps: nat, inc: Slot, psl: nat,
                                        d: nat)
    requires steps <= d < |s| && AllKeep(s, hash, key, steps, d, psl - steps)
    ensures var i := At(Bucket(hash(key), |s|), d, |s|);
            && (!Occ(s[i]) ==> Place(s, hash, key, value, steps, inc, psl) == s[i := Seated(inc, psl + d - steps)])
            && (Matches(s[i], hash(key), key) ==> Place(s, hash, key, value, steps, inc, psl) == s[i := s[i].(value := value)])
    decreases d - steps
  {
    hide Place, Bucket, At;
    PlaceOnce(s, hash, key, value, steps, inc, psl);
    if steps < d {
      assert Keeps(s, hash, key, steps, psl - steps);
      PlaceSettles(s, hash, key, value, steps + 1, inc, psl + 1, d);
    }
  }

  /** It takes the seat of the first resident that is nearer to home than it would be, who then moves on. */
  lemma {:induction false} PlaceDisplaces(s: seq<Slot>, hash: Hash, key: Bytes, value: Bytes, steps: nat, inc: Slot, psl: nat,
                                          d: nat)
    requires steps <= d < |s| && AllKeep(s, hash, key, steps, d, psl - steps)
    requires var e := s[At(Bucket(hash(key), |s|), d, |s|)];
             Occ(e) && !Matches(e, hash(key), key) && e.psl < psl + d - steps
    ensures var i := At(Bucket(hash(key), |s|), d, |s|);
            Place(s, hash, key, value, steps, inc, psl) ==
            Place(s[i := Seated(inc, psl + d - steps)], hash, key, value, d + 1, s[i], s[i].psl + 1)
    decreases d - steps
  {
    hide Place, Bucket, At;
    PlaceOnce(s, hash, key, value, steps, inc, psl);
    if steps < d {
      assert Keeps(s, hash, key, steps, psl - steps);
      PlaceDisplaces(s, hash, key, value, steps + 1, inc, psl + 1, d);
    }
  }

  lemma PlaceOnce(s: seq<Slot>, hash: Hash, key: Bytes, value: Bytes, steps: nat, inc: Slot, psl: nat)
    requires steps < |s|
    ensures var i := At(Bucket(hash(key), |s|), steps, |s|);
            Place(s, hash, key, value, steps, inc, psl) ==
            if !Occ(s[i]) then s[i := Seated(inc, psl)]
            else if Matches(s[i], hash(key), key) then s[i := s[i].(value := value)]
            else if psl > s[i].psl then Place(s[i := Seated(inc, psl)], hash, key, value, steps + 1, s[i], s[i].psl + 1)
            else Place(s, hash, key, value, steps + 1, inc, psl + 1)
  {
  }

  lemma SeatPlaced(s: seq<Slot>, hash: Hash, key: Bytes, steps: nat, inc: Slot, psl: nat)
    requires Probing(s, hash, key, steps, inc, psl)
    ensures AllPlaced(s[At(Bucket(hash(key), |s|), steps, |s|) := Seated(inc, psl)], hash)
  {
  }

  /** Seating an entry where it ranks at least as high as what was there keeps the order. */
  lemma SeatOrdered(s: seq<Slot>, hash: Hash, i: nat, e: Slot)
    requires WellOrdered(s, hash) && i < |s| && Occ(e) && Rank(s[i]) <= Rank(e)
    requires e.hash == hash(e.key) && e.psl < |s| && i == At(Bucket(e.hash, |s|), e.psl, |s|)
    requires forall p :: 0 <= p < |s| && At(p, 1, |s|) == i ==> Rank(e) <= Rank(s[p]) + 1
    requires Absent(s, e.key)
    ensures WellOrdered(s[i := e], hash) && AllPlaced(s[i := e], hash)
  {
    var s' := s[i := e];
    forall p | 0 <= p < |s| ensures Rank(s'[At(p, 1, |s|)]) <= Rank(s'[p]) + 1 {
      assert Rank(s[At(p, 1, |s|)]) <= Rank(s[p]) + 1;
    }
    forall j, k | 0 <= j < k < |s| && Occ(s'[j]) && Occ(s'[k]) ensures s'[j].key != s'[k].key {
      assert !Holds(s, j, e.key) && !Holds(s, k, e.key);
    }
  }

  /** The only slot before At(b, j + 1) is At(b, j). */
  lemma Predecessor(b: nat, j: nat, p: nat, cap: nat)
    requires b < cap && j < cap && p < cap && At(p, 1, cap) == At(b, j + 1, cap)
    ensures p == At(b, j, cap)
  {
  }

  /** An entry in the slot at distance 0 has the least rank of all, so it needs no predecessor. */
  lemma SeatFits(s: seq<Slot>, s0: seq<Slot>, hash: Hash, key: Bytes, value: Bytes, steps: nat, inc: Slot, psl: nat)
    requires OrderedProbing(s, s0, hash, key, value, steps, inc, psl)
    ensures var i := At(Bucket(hash(key), |s|), steps, |s|);
            forall p :: 0 <= p < |s| && At(p, 1, |s|) == i ==> Rank(Seated(inc, psl)) <= Rank(s[p]) + 1
  {
    var b := Bucket(hash(key), |s|);
    forall p | 0 <= p < |s| && At(p, 1, |s|) == At(b, steps, |s|)
      ensures Rank(Seated(inc, psl)) <= Rank(s[p]) + 1
    {
      if steps > 0 { Predecessor(b, steps - 1, p, |s|); }
    }
  }

  /** A key that is stored is met before any slot the loop would displace or, its home apart, take. */
  lemma StoredKeyIsAhead(s: seq<Slot>, s0: seq<Slot>, hash: Hash, key: Bytes, value: Bytes, steps: nat, inc: Slot, psl: nat)
    requires OrderedProbing(s, s0, hash, key, value, steps, inc, psl) && exists i :: Holds(s0, i, key)
    ensures var e := s[At(Bucket(hash(key), |s|), steps, |s|)];
            e.state != Empty && e.psl >= psl && (steps > 0 ==> Occ(e))
  {
    var i :| Holds(s0, i, key);
    assert Placed(s, hash, i);
    assert s[At(Bucket(hash(key), |s|), s[i].psl, |s|)].key == key;
    NoGaps(s, hash, i, steps);
  }

  /** The loop ends at a free slot. */
  lemma Lands(s: seq<Slot>, s0: seq<Slot>, hash: Hash, key: Bytes, value: Bytes, steps: nat, inc: Slot, psl: nat)
    requires OrderedProbing(s, s0, hash, key, value, steps, inc, psl)
    requires !Occ(s[At(Bucket(hash(key), |s|), steps, |s|)])
    requires |s0| == |s| && !Reuses(s0, hash, key)
    ensures var s' := s[At(Bucket(hash(key), |s|), steps, |s|) := Seated(inc, psl)];
            WellOrdered(s', hash) && MapOf(s') == MapOf(s0)[key := value]
  {
    hide MapOf, Bucket, AllPlaced, Smooth;
    var b := Bucket(hash(key), |s|);
    var i := At(b, steps, |s|);
    assert At(b, 0, |s|) == b;
    if exists k :: Holds(s0, k, key) {
      StoredKeyIsAhead(s, s0, hash, key, value, steps, inc, psl);
      assert false;
    }
    FreeRank(s, hash, i);
    SeatFits(s, s0, hash, key, value, steps, inc, psl);
    SeatOrdered(s, hash, i, Seated(inc, psl));
    MapWrite(s, i, Seated(inc, psl));
  }

  lemma FreeRank(s: seq<Slot>, hash: Hash, i: nat)
    requires AllPlaced(s, hash) && i < |s| && !Occ(s[i])
    ensures Rank(s[i]) <= 1
  {
  }

  /** The loop takes the tombstone in the home slot of a stored key, which then is stored twice. */
  lemma LandsTwice(s: seq<Slot>, s0: seq<Slot>, hash: Hash, key: Bytes, value: Bytes, steps: nat, inc: Slot, psl: nat)
    requires OrderedProbing(s, s0, hash, key, value, steps, inc, psl)
    requires !Occ(s[At(Bucket(hash(key), |s|), steps, |s|)])
    requires |s0| == |s| && Reuses(s0, hash, key)
    ensures !DistinctKeys(s[At(Bucket(hash(key), |s|), steps, |s|) := Seated(inc, psl)])
  {
    var i := At(Bucket(hash(key), |s|), steps, |s|);
    var k :| Holds(s0, k, key);
    assert Holds(s, k, key) && k != i;
    var s' := s[i := Seated(inc, psl)];
    assert s'[i].key == s'[k].key && Occ(s'[i]) && Occ(s'[k]);
  }

  /** Changing a stored value keeps the order and changes one binding. */
  lemma ValueOrdered(s: seq<Slot>, hash: Hash, i: nat, value: Bytes)
    requires WellOrdered(s, hash) && i < |s| && Occ(s[i])
    ensures var s' := s[i := s[i].(value := value)];
            WellOrdered(s', hash) && MapOf(s') == MapOf(s)[s[i].key := value]
  {
    hide MapOf;
    var s' := s[i := s[i].(value := value)];
    forall p | 0 <= p < |s| ensures Rank(s'[At(p, 1, |s|)]) <= Rank(s'[p]) + 1 {
      assert Rank(s[At(p, 1, |s|)]) <= Rank(s[p]) + 1;
    }
    forall k | 0 <= k < |s| ensures Placed(s', hash, k) && (!Occ(s'[k]) ==> s'[k].psl == 0) {
      assert Placed(s, hash, k);
    }
    MapWrite(s, i, s'[i]);
    MapAt(s, i);
  }

  /** A key seated in a slot that was passed is not met again. */
  lemma SeatedBehind(s: seq<Slot>, b: nat, key: Bytes, steps: nat)
    requires DistinctKeys(s) && b < |s| && steps < |s| && forall j :: 0 <= j < steps ==> Occ(s[At(b, j, |s|)])
    ensures (exists j :: 0 <= j < steps && s[At(b, j, |s|)].key == key) ==> !Holds(s, At(b, steps, |s|), key)
  {
    forall j | 0 <= j < steps && s[At(b, j, |s|)].key == key ensures !Holds(s, At(b, steps, |s|), key) {
      if At(b, j, |s|) == At(b, steps, |s|) { AtInjective(b, j, steps, |s|); assert false; }
    }
  }

  /** A loop that meets the key has passed no other slot with it, so the key was stored from the start. */
  lemma MetKeyWasStored(s: seq<Slot>, s0: seq<Slot>, hash: Hash, key: Bytes, value: Bytes, steps: nat, inc: Slot, psl: nat)
    requires OrderedProbing(s, s0, hash, key, value, steps, inc, psl) && |s0| == |s|
    requires Matches(s[At(Bucket(hash(key), |s|), steps, |s|)], hash(key), key)
    ensures s == s0 && inc.key == key && !Reuses(s0, hash, key)
  {
    hide MapOf, AllPlaced, Smooth, Bucket;
    var b := Bucket(hash(key), |s|);
    var i := At(b, steps, |s|);
    assert Holds(s, i, key);
    if !(exists k :: Holds(s0, k, key)) {
      SeatedBehind(s, b, key, steps);
      assert false;
    }
    assert At(b, 0, |s|) == b;
  }

  /** The loop ends at the key itself, which then is the only entry to change. */
  lemma Meets(s: seq<Slot>, s0: seq<Slot>, hash: Hash, key: Bytes, value: Bytes, steps: nat, inc: Slot, psl: nat)
    requires OrderedProbing(s, s0, hash, key, value, steps, inc, psl)
    requires Matches(s[At(Bucket(hash(key), |s|), steps, |s|)], hash(key), key)
    requires |s0| == |s|
    ensures var i := At(Bucket(hash(key), |s|), steps, |s|); var s' := s[i := s[i].(value := value)];
            WellOrdered(s', hash) && MapOf(s') == MapOf(s0)[key := value]
    ensures !Reuses(s0, hash, key)
  {
    hide MapOf, WellOrdered, AllPlaced, Bucket;
    MetKeyWasStored(s, s0, hash, key, value, steps, inc, psl);
    ValueOrdered(s, hash, At(Bucket(hash(key), |s|), steps, |s|), value);
  }

  /** The loop goes on past an entry at least as far from home. */
  lemma Passes(s: seq<Slot>, s0: seq<Slot>, hash: Hash, key: Bytes, value: Bytes, steps: nat, inc: Slot, psl: nat)
    requires OrderedProbing(s, s0, hash, key, value, steps, inc, psl) && steps + 1 < |s|
    requires var e := s[At(Bucket(hash(key), |s|), steps, |s|)];
             Occ(e) && !Matches(e, hash(key), key) && psl <= e.psl
    ensures OrderedProbing(s, s0, hash, key, value, steps + 1, inc, psl + 1)
  {
    var b := Bucket(hash(key), |s|);
    AtSteps(b, steps, |s|);
    AtSteps(Bucket(inc.hash, |s|), psl, |s|);
    assert Placed(s, hash, At(b, steps, |s|));
  }

  /** The loop seats its entry and goes on with the one displaced. */
  lemma Displaces(s: seq<Slot>, s0: seq<Slot>, hash: Hash, key: Bytes, value: Bytes, steps: nat, inc: Slot, psl: nat)
    requires OrderedProbing(s, s0, hash, key, value, steps, inc, psl) && steps + 1 < |s|
    requires var e := s[At(Bucket(hash(key), |s|), steps, |s|)];
             Occ(e) && !Matches(e, hash(key), key) && psl > e.psl
    ensures var i := At(Bucket(hash(key), |s|), steps, |s|);
            OrderedProbing(s[i := Seated(inc, psl)], s0, hash, key, value, steps + 1, s[i], s[i].psl + 1)
  {
    hide WellOrdered, MapOf, Bucket, AllPlaced;
    var b := Bucket(hash(key), |s|);
    var i := At(b, steps, |s|);
    var e, seat := s[i], Seated(inc, psl);
    if exists k :: Holds(s0, k, key) { StoredKeyIsAhead(s, s0, hash, key, value, steps, inc, psl); assert false; }
    SeatFits(s, s0, hash, key, value, steps, inc, psl);
    SeatOrdered(s, hash, i, seat);
    assert !Holds(s, i, inc.key);
    DisplacedAlone(s, hash, i, seat);
    DisplacedMap(s, hash, i, seat);
    SeatedWay(s, hash, key, steps, inc, psl);
    AtSteps(b, steps, |s|);
    AtSteps(Bucket(e.hash, |s|), e.psl, |s|);
  }

  lemma DisplacedAlone(s: seq<Slot>, hash: Hash, i: nat, seat: Slot)
    requires WellOrdered(s, hash) && i < |s| && Occ(s[i]) && seat.key != s[i].key
    ensures Absent(s[i := seat], s[i].key)
    ensures s[i].psl < |s| && s[i].hash == hash(s[i].key) && i == At(Bucket(s[i].hash, |s|), s[i].psl, |s|)
  {
    assert Placed(s, hash, i);
    WriteHolds(s, i, seat, s[i].key);
  }

  /** The displaced entry in hand makes up for its missing slot. */
  lemma DisplacedMap(s: seq<Slot>, hash: Hash, i: nat, seat: Slot)
    requires i < |s| && WellOrdered(s, hash) && WellOrdered(s[i := seat], hash) && Occ(s[i]) && Occ(seat) && seat.key != s[i].key
    ensures MapOf(s[i := seat])[s[i].key := s[i].value] == MapOf(s)[seat.key := seat.value]
  {
    MapWrite(s, i, seat);
    MapAt(s, i);
  }

  /** What was passed stays passed; the key is now seated if it was the entry in hand. */
  lemma SeatedWay(s: seq<Slot>, hash: Hash, key: Bytes, steps: nat, inc: Slot, psl: nat)
    requires Probing(s, hash, key, steps, inc, psl) && steps + 1 < |s|
    requires inc.key == key || exists j :: 0 <= j < steps && s[At(Bucket(hash(key), |s|), j, |s|)].key == key
    ensures var b := Bucket(hash(key), |s|); var s' := s[At(b, steps, |s|) := Seated(inc, psl)];
            && (forall j :: 0 <= j < steps + 1 ==> Occ(s'[At(b, j, |s|)]))
            && exists j :: 0 <= j < steps + 1 && s'[At(b, j, |s|)].key == key
  {
    var b := Bucket(hash(key), |s|);
    var i := At(b, steps, |s|);
    var s' := s[i := Seated(inc, psl)];
    forall j | 0 <= j < steps ensures s'[At(b, j, |s|)] == s[At(b, j, |s|)] {
      if At(b, j, |s|) == i { AtInjective(b, j, steps, |s|); }
    }
    if inc.key == key {
      assert s'[At(b, steps, |s|)].key == key;
    } else {
      var j :| 0 <= j < steps && s[At(b, j, |s|)].key == key;
      assert s'[At(b, j, |s|)].key == key;
    }
  }

  // ----- Deletion -----

  /** What del leaves in the slot: the entry's bytes, no longer occupied, at probe distance 0. */
  function Buried(e: Slot): (b: Slot)
    ensures b.state == Tombstone && b.psl == 0 && b.(state := e.state, psl := e.psl) == e
  {
    e.(state := Tombstone, psl := 0)
  }

  /** The entry right after slot x is two or more places from home, so its probe crosses x. */
  predicate Crossed(s: seq<Slot>, x: nat)
    requires x < |s|
  {
    var e := s[At(x, 1, |s|)];
    Occ(e) && e.psl >= 2
  }

  /** Burying an entry keeps the order exactly when no probe crosses its slot. */
  lemma BuriedOrdered(s: seq<Slot>, hash: Hash, x: nat)
    requires WellOrdered(s, hash) && x < |s| && Occ(s[x])
    ensures AllPlaced(s[x := Buried(s[x])], hash) && DistinctKeys(s[x := Buried(s[x])])
    ensures WellOrdered(s[x := Buried(s[x])], hash) <==> !Crossed(s, x)
  {
    var s' := s[x := Buried(s[x])];
    forall i | 0 <= i < |s| ensures Placed(s', hash, i) && (!Occ(s'[i]) ==> s'[i].psl == 0) {
      assert Placed(s, hash, i);
    }
    var n := At(x, 1, |s|);
    assert Placed(s, hash, n);
    if Crossed(s, x) {
      assert n != x && Rank(s'[n]) > Rank(s'[x]) + 1;
    } else {
      forall p | 0 <= p < |s| ensures Rank(s'[At(p, 1, |s|)]) <= Rank(s'[p]) + 1 {
        assert Rank(s[At(p, 1, |s|)]) <= Rank(s[p]) + 1;
      }
    }
  }

  /** Unless its slot is crossed, a deletion leaves every other key to be found where it was. */
  lemma FoundAfterDel(s: seq<Slot>, hash: Hash, x: nat, i: nat, j: nat)
    requires WellOrdered(s, hash) && x < |s| && Occ(s[x]) && !Crossed(s, x)
    requires i < |s| && i != x && Occ(s[i]) && j <= s[i].psl
    ensures Probe(s[x := Buried(s[x])], hash(s[i].key), s[i].key, j) == Some(i)
  {
    BuriedOrdered(s, hash, x);
    ProbeFinds(s[x := Buried(s[x])], hash, s[i].key, i, j);
  }

  /** The entry that crosses the slot is the one that gets lost. */
  lemma {:induction false} LostAfterDel(s: seq<Slot>, hash: Hash, x: nat, j: nat)
    requires WellOrdered(s, hash) && x < |s| && Occ(s[x]) && Crossed(s, x)
    requires var n := At(x, 1, |s|); j < s[n].psl
    ensures var n := At(x, 1, |s|); Probe(s[x := Buried(s[x])], hash(s[n].key), s[n].key, j) == None
    decreases s[At(x, 1, |s|)].psl - j
  {
    hide Probe, AllPlaced, Bucket;
    var n := At(x, 1, |s|);
    PlacedAt(s, hash, n);
    ProbeOnce(s[x := Buried(s[x])], hash(s[n].key), s[n].key, j);
    var b := Bucket(s[n].hash, |s|);
    var k := At(b, j, |s|);
    if k == n { AtInjective(b, j, s[n].psl, |s|); assert false; }
    AtSteps(b, j, |s|);
    if j + 1 < s[n].psl {
      LostAfterDel(s, hash, x, j + 1);
    } else {
      Predecessor(b, j, x, |s|);
    }
  }

  /**
  Deleting from a table in which every key can be found, whatever was deleted before, keeps every other key
  reachable exactly when the entry after the deleted slot is less than two places from home.
  */
  lemma DelExact(s: seq<Slot>, hash: Hash, x: nat)
    requires AllPlaced(s, hash) && x < |s| && Occ(s[x]) && AllReachable(s, hash)
    ensures AllReachable(s[x := Buried(s[x])], hash) <==> !Crossed(s, x)
    ensures Probe(s[x := Buried(s[x])], hash(s[x].key), s[x].key, 0) == None
  {
    var s' := s[x := Buried(s[x])];
    ReachableIsOrdered(s, hash);
    BuriedOrdered(s, hash, x);
    ReachableIsOrdered(s', hash);
    if Probe(s', hash(s[x].key), s[x].key, 0).Some? { assert false; }
  }

  // ----- Runs of deletions -----

  /** One deletion: the slot that the probe finds is buried. */
  function DelStep(s: seq<Slot>, hash: Hash, key: Bytes): (s': seq<Slot>)
    requires |s| > 0
    ensures |s'| == |s|
  {
    var x := Probe(s, hash(key), key, 0);
    if x.None? then s else s[x.value := Buried(s[x.value])]
  }

  function DelAll(s: seq<Slot>, hash: Hash, keys: seq<Bytes>): (s': seq<Slot>)
    requires |s| > 0
    ensures |s'| == |s|
  {
    if keys == [] then s else DelStep(DelAll(s, hash, keys[..|keys| - 1]), hash, keys[|keys| - 1])
  }

  /** Deleting the key from s buries a crossed slot. */
  predicate Cuts(s: seq<Slot>, hash: Hash, key: Bytes)
    requires |s| > 0
  {
    var x := Probe(s, hash(key), key, 0);
    x.Some? && Crossed(s, x.value)
  }

  /** No deletion of the run buries a crossed slot. */
  predicate NoCut(s: seq<Slot>, hash: Hash, keys: seq<Bytes>)
    requires |s| > 0
  {
    forall i :: 0 <= i < |keys| ==> !Cuts(DelAll(s, hash, keys[..i]), hash, keys[i])
  }

  /** A slot that a probe finds is not one whose rank rises too far, so deleting it mends nothing. */
  lemma LostStaysLost(s: seq<Slot>, hash: Hash, key: Bytes)
    requires AllPlaced(s, hash) && |s| > 0 && DistinctKeys(s) && !Smooth(s)
    ensures !Smooth(DelStep(s, hash, key))
  {
    var x := Probe(s, hash(key), key, 0);
    if x.Some? {
      var p :| 0 <= p < |s| && !(Rank(s[At(p, 1, |s|)]) <= Rank(s[p]) + 1);
      var n := At(p, 1, |s|);
      assert Placed(s, hash, n) && Placed(s, hash, x.value);
      if x.value == n { FoundIsSmooth(s, hash, p); assert false; }
      var s' := DelStep(s, hash, key);
      assert Rank(s'[n]) > Rank(s'[p]) + 1;
    }
  }

  lemma DelStepKeeps(s: seq<Slot>, hash: Hash, key: Bytes)
    requires AllPlaced(s, hash) && |s| > 0 && DistinctKeys(s)
    ensures AllPlaced(DelStep(s, hash, key), hash) && DistinctKeys(DelStep(s, hash, key))
    ensures Smooth(DelStep(s, hash, key)) <==> Smooth(s) && !Cuts(s, hash, key)
  {
    var s' := DelStep(s, hash, key);
    forall i | 0 <= i < |s| ensures Placed(s', hash, i) && (!Occ(s'[i]) ==> s'[i].psl == 0) {
      assert Placed(s, hash, i);
    }
    var x := Probe(s, hash(key), key, 0);
    if !Smooth(s) {
      LostStaysLost(s, hash, key);
    } else if x.Some? {
      BuriedOrdered(s, hash, x.value);
    }
  }

  lemma {:induction false} DelAllKeeps(s: seq<Slot>, hash: Hash, keys: seq<Bytes>)
    requires WellOrdered(s, hash) && |s| > 0
    ensures AllPlaced(DelAll(s, hash, keys), hash) && DistinctKeys(DelAll(s, hash, keys))
    ensures Smooth(DelAll(s, hash, keys)) <==> NoCut(s, hash, keys)
  {
    hide AllPlaced, DistinctKeys, Smooth, Cuts, DelStep;
    if keys != [] {
      var n := |keys| - 1;
      DelAllKeeps(s, hash, keys[..n]);
      DelStepKeeps(DelAll(s, hash, keys[..n]), hash, keys[n]);
      forall i | 0 <= i < n ensures keys[..n][..i] == keys[..i] {}
    }
  }

  /** Over every run of deletions: all remaining keys can be found at the end exactly if no deletion cut one off. */
  lemma DelRunExact(s: seq<Slot>, hash: Hash, keys: seq<Bytes>)
    requires AllPlaced(s, hash) && |s| > 0 && AllReachable(s, hash)
    ensures AllReachable(DelAll(s, hash, keys), hash) <==> NoCut(s, hash, keys)
  {
    ReachableIsOrdered(s, hash);
    DelAllKeeps(s, hash, keys);
    ReachableIsOrdered(DelAll(s, hash, keys), hash);
  }

  /** The failing family is not empty: three colliding keys, the second of which is deleted. */
  lemma DelLosesAKey()
    ensures exists s: seq<Slot>, hash: Hash, x: nat, i: nat ::
              && WellOrdered(s, hash) && x < |s| && i < |s| && i != x && Occ(s[x]) && Occ(s[i])
              && Probe(s[x := Buried(s[x])], hash(s[i].key), s[i].key, 0) == None
  {
    var hash: Hash := k => 0;
    var s := [Slot(Occupied, 0, 0, [1], []), Slot(Occupied, 1, 0, [2], []), Slot(Occupied, 2, 0, [3], []), EmptySlot];
    assert forall i :: 0 <= i < 4 ==> Placed(s, hash, i);
    assert WellOrdered(s, hash);
    assert Crossed(s, 1);
    LostAfterDel(s, hash, 1, 0);
    assert Probe(s[1 := Buried(s[1])], hash(s[2].key), s[2].key, 0) == None;
  }

  /** Nor is the other: of two colliding keys the first is deleted and the second set again. */
  lemma SetStoresTwice()
    ensures exists s: seq<Slot>, hash: Hash, a: Bytes, b: Bytes ::
              |s| > 0 && WellOrdered(s, hash) && NoTombstones(s) && WellOrdered(DelStep(s, hash, a), hash)
              && Reuses(DelStep(s, hash, a), hash, b)
  {
    var hash: Hash := k => 0;
    var s := [Slot(Occupied, 0, 0, [1], []), Slot(Occupied, 1, 0, [2], []), EmptySlot];
    assert forall i :: 0 <= i < 3 ==> Placed(s, hash, i);
    assert WellOrdered(s, hash) && NoTombstones(s);
    assert Probe(s, hash([1]), [1], 0) == Some(0);
    var s' := s[0 := Buried(s[0])];
    assert DelStep(s, hash, [1]) == s';
    BuriedOrdered(s, hash, 0);
    assert Holds(s', 1, [2]) && s'[0].state == Tombstone;
    assert Reuses(DelStep(s, hash, [1]), hash, [2]);
  }
}
