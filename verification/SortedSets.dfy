/** ZADD, ZSCORE and ZRANGE by key: one tree for each registered key. */
module SortedSets {
  import opened ByteStrings
  import opened Options
  import opened BTree
  import opened BTreeShape
  import KeyIndex
  import RobinHood
  import Replies

  function Binding(m: map<Bytes, int64>, member: Bytes): Option<int64>
  {
    if member in m then Some(m[member]) else None
  }

  class ZsetRegistry {
    const reg: KeyIndex.Registry
    const trees: seq<SortedSet>
    const maxMembers: nat

    /** No two trees share an object. */
    ghost predicate Apart()
      reads this
    {
      forall i, j :: 0 <= i < j < |trees| ==>
        trees[i] != trees[j] && trees[i].nodes != trees[j].nodes && trees[i].members != trees[j].members
    }

    ghost function Nodes(): set<object>
      reads this
    {
      set i | 0 <= i < |trees| :: trees[i].nodes as object
    }

    ghost function Tables(): set<object>
      reads this
    {
      set i | 0 <= i < |trees| :: trees[i].members as object
    }

    ghost predicate Valid()
      reads this, reg, reg.keys, reg.keys.entries, trees, Nodes(), Tables()
    {
      && reg.Valid() && |trees| == reg.max && Apart() && TreesValid()
      && forall i :: reg.used <= i < |trees| ==> trees[i].Scores() == map[]
    }

    ghost predicate TreesValid()
      reads this, trees, Nodes(), Tables()
    {
      forall i :: 0 <= i < |trees| ==> trees[i].Valid() && trees[i].maxMembers == maxMembers
    }

    /** The sorted set of a key; an unregistered key has none. */
    ghost function Scores(key: Bytes): map<Bytes, int64>
      requires Valid()
      reads this, reg, reg.keys, reg.keys.entries, trees, Nodes(), Tables()
    {
      if key in reg.index then trees[reg.index[key]].Scores() else map[]
    }

    constructor (max: nat, members: nat, hash: RobinHood.Hash)
      requires 0 < max && 2 * max < KeyIndex.UINT32_LIMIT && members > 0
      ensures Valid() && forall k :: Scores(k) == map[]
      ensures fresh(reg) && fresh(reg.keys) && fresh(reg.keys.entries)
      ensures fresh(trees) && fresh(Nodes()) && fresh(Tables())
    {
      hide KeyIndex.Registry.Valid, SortedSet.Valid, SortedSet.Scores;
      var ts := NewTrees(max, members);
      reg := new KeyIndex.Registry(max, hash);
      trees := ts;
      maxMembers := if members > MAX_ENTRIES then MAX_ENTRIES else members;
    }

    static method NewTrees(max: nat, members: nat) returns (ts: seq<SortedSet>)
      requires members > 0
      ensures |ts| == max && forall i :: 0 <= i < |ts| ==> NewTree(ts[i], members)
      ensures forall i :: 0 <= i < |ts| ==> fresh(ts[i]) && fresh(ts[i].nodes) && fresh(ts[i].members)
      ensures forall i, j :: 0 <= i < j < |ts| ==>
                ts[i] != ts[j] && ts[i].nodes != ts[j].nodes && ts[i].members != ts[j].members
    {
      hide SortedSet.Valid, SortedSet.Scores;
      ts := [];
      while |ts| < max
        invariant |ts| <= max
        invariant forall i :: 0 <= i < |ts| ==> NewTree(ts[i], members)
        invariant forall i :: 0 <= i < |ts| ==> fresh(ts[i]) && fresh(ts[i].nodes) && fresh(ts[i].members)
        invariant forall i, j :: 0 <= i < j < |ts| ==>
                    ts[i] != ts[j] && ts[i].nodes != ts[j].nodes && ts[i].members != ts[j].members
      {
        var t := new SortedSet(members);
        ts := ts + [t];
      }
    }

    static ghost predicate NewTree(t: SortedSet, members: nat)
      reads t, t.nodes, t.members
    {
      t.Valid() && t.Scores() == map[] && t.maxMembers == if members > 4096 then 4096 else members
    }

    /** ZADD to one tree: the others share nothing with it, so they stay as they are. */
    method AddAt(idx: nat, score: int64, member: Bytes) returns (ok: bool)
      requires idx < |trees| && Apart() && TreesValid()
      modifies trees[idx], trees[idx].nodes, trees[idx].members
      ensures TreesValid()
      ensures ok <==> 0 < |member| < 48 &&
                      (member in old(trees[idx].Scores()) || |old(trees[idx].Scores())| < maxMembers)
      ensures trees[idx].Scores() == if ok then old(trees[idx].Scores())[member := score] else old(trees[idx].Scores())
      ensures forall i :: 0 <= i < |trees| && i != idx ==> trees[i].Scores() == old(trees[i].Scores())
    {
      hide SortedSet.Valid, SortedSet.Scores;
      ok := trees[idx].Add(score, member);
    }

    /**
    ZADD by key. One binding of that key's sorted set changes and no other sorted set does; refused exactly
    when the member is illegal, its set is full, or an unknown key cannot be registered.
    */
    method Add(key: Bytes, score: int64, member: Bytes) returns (ok: bool)
      requires Valid()
      modifies reg`used, reg`index, reg`leaked, reg.keys`count, reg.keys.entries, trees, Nodes(), Tables()
      ensures Valid()
      ensures ok <==> (key in old(reg.index) || (old(reg.used) < reg.max && |key| <= 256))
                      && 0 < |member| < 48
                      && (member in old(Scores(key)) || |old(Scores(key))| < maxMembers)
      ensures Scores(key) == if ok then old(Scores(key))[member := score] else old(Scores(key))
      ensures forall other :: other != key ==> Scores(other) == old(Scores(other))
    {
      hide KeyIndex.Registry.Valid, SortedSet.Valid, SortedSet.Scores;
      IndicesBounded();
      var idx := reg.IndexFor(key, true);
      if idx.None? {
        return false;
      }
      ok := AddAt(idx.value, score, member);
    }

    lemma IndicesBounded()
      requires Valid()
      ensures reg.used <= reg.max
      ensures forall k :: k in reg.index ==> reg.index[k] < reg.used
      ensures forall j, k :: j in reg.index && k in reg.index && reg.index[j] == reg.index[k] ==> j == k
    {
      hide SortedSet.Valid, SortedSet.Scores;
    }

    /** ZSCORE by key. */
    method Score(key: Bytes, member: Bytes) returns (r: Option<int64>)
      requires Valid()
      ensures r == Binding(old(Scores(key)), member)
    {
      hide SortedSet.Valid, SortedSet.Scores;
      IndicesBounded();
      var idx := reg.Lookup(key);
      if idx.None? {
        return None;
      }
      r := trees[idx.value].Score(member);
    }

    /** The members of a key's sorted set in listing order. */
    ghost function Ranked(key: Bytes): seq<Bytes>
      requires Valid()
      reads this, reg, reg.keys, reg.keys.entries, trees, Nodes(), Tables()
    {
      IndicesBounded();
      if key in reg.index then trees[reg.index[key]].Ranked() else []
    }

    /** ZRANGE by key. */
    method Range(key: Bytes, start: int, stop: int, reply: array<byte>) returns (ok: bool, replyLen: nat)
      requires Valid()
      modifies reply
      ensures Answered(Replies.Slice(old(Ranked(key)), start, stop), reply[..], ok, replyLen)
    {
      hide SortedSet.Valid, SortedSet.Ranked, Answered;
      IndicesBounded();
      var idx := reg.Lookup(key);
      if idx.None? {
        ok, replyLen := SortedSet.EmptyReply(reply);
        return;
      }
      ok, replyLen := trees[idx.value].RangeReply(start, stop, reply);
    }
  }
}
