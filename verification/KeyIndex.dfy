/**
The key registry: a hash table from key to the decimal text of an index. Keys get consecutive indices,
which never change.
*/
module KeyIndex {
  import opened ByteStrings
  import opened Options
  import opened Decimal
  import opened RobinHood
  import opened HashTable

  const UINT32_LIMIT: nat := 0x1_0000_0000

  const TEXT_CAP: nat := 32

  lemma {:induction false} DigitsShort(n: nat, k: nat)
    requires k > 0 && n < Pow10(k)
    ensures |Digits(n)| <= k
  {
    if n >= 10 { DigitsShort(n / 10, k - 1); }
  }

  /** The text of an index has at most ten digits and reads back as the index. */
  lemma IndexText(n: nat)
    requires n < UINT32_LIMIT
    ensures |Digits(n)| <= 10 && Accumulate(Digits(n)) == Number(n)
  {
    assert Pow10(10) == 10_000_000_000 by {
      assert Pow10(3) == 1000 && Pow10(6) == 1000 * Pow10(3) && Pow10(9) == 1000 * Pow10(6);
    }
    DigitsShort(n, 10);
    AccumulateDigits(n);
  }

  /** What strtoul reads: the digits before the first byte that is none. */
  function LeadingDigits(s: Bytes): Bytes
  {
    if s == [] || !IsDigit(s[0]) then [] else [s[0]] + LeadingDigits(s[1..])
  }

  lemma {:induction false} LeadingIs(d: Bytes, rest: Bytes)
    requires (forall i :: 0 <= i < |d| ==> IsDigit(d[i])) && rest != [] && !IsDigit(rest[0])
    ensures LeadingDigits(d + rest) == d
  {
    if d == [] {
      assert d + rest == rest;
    } else {
      LeadingIs(d[1..], rest);
      assert (d + rest)[1..] == d[1..] + rest;
    }
  }

  /** Nothing of an index text is cut off in the 32-byte buffer it is read back through. */
  lemma ReadsBack(n: nat, before: Bytes, text: Bytes, len: nat)
    requires n < UINT32_LIMIT && |before| == |text| == TEXT_CAP && Copied(Digits(n), before, text, len)
    ensures Accumulate(LeadingDigits(text)) == Number(n)
  {
    hide Digits, Accumulate, LeadingDigits;
    IndexText(n);
    var k := |Digits(n)|;
    assert text == Digits(n) + text[k..];
    LeadingIs(Digits(n), text[k..]);
  }

  /** The table stores exactly the texts of the indices. */
  ghost predicate Stored(contents: map<Bytes, Bytes>, index: map<Bytes, nat>)
  {
    contents.Keys == index.Keys && forall k :: k in index ==> contents[k] == Digits(index[k])
  }

  ghost predicate Injective(index: map<Bytes, nat>, used: nat)
  {
    && (forall k :: k in index ==> index[k] < used)
    && forall j, k :: j in index && k in index && index[j] == index[k] ==> j == k
  }

  lemma StoredAt(contents: map<Bytes, Bytes>, index: map<Bytes, nat>, used: nat, key: Bytes)
    requires Stored(contents, index) && Injective(index, used)
    ensures key in contents <==> key in index
    ensures key in index ==> index[key] < used && contents[key] == Digits(index[key])
  {
  }

  lemma Registers(contents: map<Bytes, Bytes>, index: map<Bytes, nat>, used: nat, key: Bytes)
    requires Stored(contents, index) && Injective(index, used) && key !in index
    ensures Injective(index, used + 1)
    ensures Stored(contents[key := Digits(used)], index[key := used]) && Injective(index[key := used], used + 1)
    ensures |index[key := used]| == |index| + 1
  {
    hide Digits;
    assert index[key := used].Keys == index.Keys + {key};
  }

  class Registry {
    const keys: Table
    const max: nat
    var used: nat
    /** The index of every registered key, and how many indices went to keys too long to store. */
    ghost var index: map<Bytes, nat>
    ghost var leaked: nat

    ghost predicate Valid()
      reads this, keys, keys.entries
    {
      && keys.Valid() && keys.Ordered() && keys.Clean()
      && 0 < max && 2 * max < UINT32_LIMIT && keys.entries.Length == 2 * max
      && keys.count <= used <= max
      && Stored(keys.Contents(), index) && Injective(index, used)
      && used == |index| + leaked
      && forall k :: k in index ==> |k| <= MAX_KEY
    }

    constructor (max: nat, hash: Hash)
      requires 0 < max && 2 * max < UINT32_LIMIT
      ensures Valid() && fresh(keys) && fresh(keys.entries) && this.max == max
      ensures used == 0 && index == map[] && leaked == 0
    {
      keys := new Table(max * 2, hash);
      this.max := max;
      used, index, leaked := 0, map[], 0;
    }

    method Lookup(key: Bytes) returns (r: Option<nat>)
      requires Valid()
      ensures r == if key in index then Some(index[key]) else None
    {
      hide WellOrdered, AllPlaced, MapOf, OccupiedCount, Accumulate, Digits, Copied, NoTombstones, LeadingDigits, Stored, Injective;
      StoredAt(keys.Contents(), index, used, key);
      var text := new byte[TEXT_CAP];
      ghost var before := text[..];
      var len := keys.GetInto(key, text);
      if len.None? {
        return None;
      }
      ReadsBack(index[key], before, text[..], len.value);
      var n := Accumulate(LeadingDigits(text[..]));
      r := Some(n.value);
    }

    /**
    The index of a key, registering it if asked to. An unknown key is refused exactly when all indices are
    taken or the key is too long to store; in the latter case its index is lost. Otherwise it gets the next
    index, and no other key's index changes.
    */
    method IndexFor(key: Bytes, create: bool) returns (r: Option<nat>)
      requires Valid()
      modifies this`used, this`index, this`leaked, keys`count, keys.entries
      ensures Valid()
      ensures key in old(index) ==> r == Some(old(index)[key])
      ensures key !in old(index) && create && old(used) < max && |key| <= 256 ==>
                r == Some(old(used)) && used == old(used) + 1 && index == old(index)[key := old(used)] && leaked == old(leaked)
      ensures key !in old(index) && create && old(used) < max && |key| > 256 ==>
                r == None && used == old(used) + 1 && index == old(index) && leaked == old(leaked) + 1
      ensures key !in old(index) && !(create && old(used) < max) ==> r == None
      ensures key in old(index) || !(create && old(used) < max) ==>
                used == old(used) && index == old(index) && leaked == old(leaked)
    {
      hide WellOrdered, AllPlaced, MapOf, OccupiedCount, Digits, Stored, Injective, Reuses, NoTombstones;
      r := Lookup(key);
      if r.Some? || !create || used >= max {
        return;
      }
      var idx := used;
      Registers(keys.Contents(), index, used, key);
      IndexText(idx);
      used := used + 1;
      var ok, _ := keys.Set(key, Digits(idx));
      if !ok {
        leaked := leaked + 1;
        return None;
      }
      index := index[key := idx];
      r := Some(idx);
    }
  }

  /** A request for a key's index, and whether to register the key. */
  datatype Ask = Ask(key: Bytes, create: bool)

  /** The registry in the abstract: the indices of the registered keys, and how many went to keys too long to store. */
  datatype Keys = Keys(index: map<Bytes, nat>, leaked: nat)

  function Used(k: Keys): nat
  {
    |k.index| + k.leaked
  }

  /** One request: a new key takes the next index as long as there is one; a key too long to store loses it. */
  function Asked(k: Keys, ask: Ask, max: nat): Keys
  {
    if ask.key in k.index || !ask.create || Used(k) >= max then k
    else if |ask.key| > MAX_KEY then k.(leaked := k.leaked + 1)
    else k.(index := k.index[ask.key := Used(k)])
  }

  ghost function Replay(k: Keys, asks: seq<Ask>, max: nat): Keys
  {
    if asks == [] then k else Asked(Replay(k, asks[..|asks| - 1], max), asks[|asks| - 1], max)
  }

  /** The answer to a request: the index the key has by then; refused exactly if it is new and none is left, or too long. */
  ghost predicate AnswerIs(k: Keys, ask: Ask, max: nat, r: Option<nat>)
  {
    var k' := Asked(k, ask, max);
    && r == (if ask.key in k'.index then Some(k'.index[ask.key]) else None)
    && (ask.create ==> (r.None? <==> ask.key !in k.index && (Used(k) >= max || |ask.key| > MAX_KEY)))
  }

  /** One request. */
  method Serve(reg: Registry, ask: Ask) returns (r: Option<nat>)
    requires reg.Valid()
    modifies reg`used, reg`index, reg`leaked, reg.keys`count, reg.keys.entries
    ensures reg.Valid()
    ensures Keys(reg.index, reg.leaked) == Asked(old(Keys(reg.index, reg.leaked)), ask, reg.max)
    ensures AnswerIs(old(Keys(reg.index, reg.leaked)), ask, reg.max, r)
  {
    hide WellOrdered, AllPlaced, MapOf, OccupiedCount, Digits, Stored, Injective, NoTombstones;
    r := reg.IndexFor(ask.key, ask.create);
  }

  /** Every run of requests, for keys of any length, does to the registry what it does to the abstract one. */
  method RunAsks(reg: Registry, asks: seq<Ask>) returns (rs: seq<Option<nat>>)
    requires reg.Valid()
    modifies reg`used, reg`index, reg`leaked, reg.keys`count, reg.keys.entries
    ensures reg.Valid() && Keys(reg.index, reg.leaked) == Replay(old(Keys(reg.index, reg.leaked)), asks, reg.max)
    ensures |rs| == |asks|
    ensures forall i :: 0 <= i < |rs| ==>
              AnswerIs(Replay(old(Keys(reg.index, reg.leaked)), asks[..i], reg.max), asks[i], reg.max, rs[i])
  {
    hide Registry.Valid, AnswerIs, Asked;
    rs := [];
    ghost var k0 := Keys(reg.index, reg.leaked);
    for i := 0 to |asks|
      invariant reg.Valid() && |rs| == i
      invariant Keys(reg.index, reg.leaked) == Replay(k0, asks[..i], reg.max)
      invariant forall j :: 0 <= j < i ==> AnswerIs(Replay(k0, asks[..j], reg.max), asks[j], reg.max, rs[j])
    {
      assert asks[..i + 1][..i] == asks[..i];
      var r := Serve(reg, asks[i]);
      rs := rs + [r];
    }
    assert asks[..|asks|] == asks;
  }

  predicate Storable(asks: seq<Ask>)
  {
    forall i :: 0 <= i < |asks| ==> |asks[i].key| <= MAX_KEY
  }

  /**
  Requests for keys that can be stored lose no index; so from an empty registry a new key is refused exactly
  when max keys are registered.
  */
  lemma {:induction false} NoIndexLost(asks: seq<Ask>, max: nat)
    requires Storable(asks)
    ensures var k := Replay(Keys(map[], 0), asks, max);
            && k.leaked == 0 && |k.index| <= max
            && forall ask: Ask, r :: ask.create && |ask.key| <= MAX_KEY && AnswerIs(k, ask, max, r) ==>
                 (r.None? <==> ask.key !in k.index && |k.index| == max)
  {
    if asks != [] { NoIndexLost(asks[..|asks| - 1], max); }
  }

  /** Offering keys that are too long loses an index each time, until none is left and no key can be registered. */
  lemma {:induction false} Exhausted(asks: seq<Ask>, max: nat)
    requires forall i :: 0 <= i < |asks| ==> asks[i].create && |asks[i].key| > MAX_KEY
    ensures Replay(Keys(map[], 0), asks, max) == Keys(map[], if |asks| < max then |asks| else max)
    ensures |asks| >= max ==> forall ask: Ask, r ::
              AnswerIs(Replay(Keys(map[], 0), asks, max), ask, max, r) ==> r.None?
  {
    if asks != [] { Exhausted(asks[..|asks| - 1], max); }
  }
}
