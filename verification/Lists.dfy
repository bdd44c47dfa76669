/** LPUSH, LRANGE and LLEN by key: many lists interleaved in one log. */
module Lists {
  import opened ByteStrings
  import opened Options
  import opened LogSpec
  import opened AppendLog
  import KeyIndex
  import RobinHood
  import Replies
  import RespSpec

  /** Every registered list's head agrees with the log; every other list is empty. */
  ghost predicate AllAgree(index: map<Bytes, nat>, used: nat, metas: seq<Meta>, b: Bytes)
  {
    && (forall k :: k in index ==> index[k] < |metas| && Agrees(b, k, metas[index[k]]))
    && (forall i :: used <= i < |metas| ==> metas[i] == NoList)
    && forall k :: k !in index ==> ListOf(b, k) == []
  }

  lemma EmptyAgrees(b: Bytes, key: Bytes)
    requires ListOf(b, key) == []
    ensures Agrees(b, key, NoList)
  {
  }

  lemma NewKeyAgrees(index: map<Bytes, nat>, used: nat, metas: seq<Meta>, b: Bytes, key: Bytes)
    requires AllAgree(index, used, metas, b) && key !in index && used < |metas|
    ensures AllAgree(index[key := used], used + 1, metas, b)
    ensures AllAgree(index, used + 1, metas, b)
  {
    hide Agrees, ListOf;
    EmptyAgrees(b, key);
  }

  /** A push to one list, seen from all of them. */
  lemma PushKeepsAll(index: map<Bytes, nat>, used: nat, metas: seq<Meta>, b: Bytes, key: Bytes, m: Meta, c: Bytes)
    requires AllAgree(index, used, metas, b) && KeyIndex.Injective(index, used) && used <= |metas| && key in index
    requires Agrees(c, key, m)
    requires forall other, n :: other != key && Agrees(b, other, n) ==> Agrees(c, other, n) && ListOf(c, other) == ListOf(b, other)
    ensures AllAgree(index, used, metas[index[key] := m], c)
    ensures forall other :: other != key ==> ListOf(c, other) == ListOf(b, other)
  {
    hide Agrees, ListOf;
    forall other | other != key ensures ListOf(c, other) == ListOf(b, other) {
      if other in index {
        assert Agrees(b, other, metas[index[other]]);
      } else {
        EmptyAgrees(b, other);
      }
    }
  }

  class ListRegistry {
    const reg: KeyIndex.Registry
    const lists: array<Meta>
    const log: Log

    ghost predicate Valid()
      reads this, reg, reg.keys, reg.keys.entries, lists, log, log.base
    {
      && reg.Valid() && log.Valid() && lists.Length == reg.max
      && AllAgree(reg.index, reg.used, lists[..], log.Bytes())
    }

    /** The elements of a list, newest first, by linear scan of the log. */
    ghost function Elements(key: Bytes): seq<Bytes>
      requires Valid()
      reads this, reg, reg.keys, reg.keys.entries, lists, log, log.base
    {
      Vals(ListOf(log.Bytes(), key))
    }

    constructor (max: nat, capacity: nat, hash: RobinHood.Hash)
      requires 0 < max && 2 * max < KeyIndex.UINT32_LIMIT && 4096 <= capacity < NO_PREV
      ensures Valid() && forall k :: Elements(k) == []
      ensures fresh(reg) && fresh(reg.keys) && fresh(reg.keys.entries)
      ensures fresh(lists) && fresh(log) && fresh(log.base)
    {
      reg := new KeyIndex.Registry(max, hash);
      lists := new Meta[max](_ => NoList);
      log := new Log(capacity);
      new;
      assert forall k :: ListOf([], k) == [];
    }

    /** LPUSH to a registered list. */
    method PushTo(idx: nat, key: Bytes, val: Bytes) returns (ok: bool)
      requires Valid() && key in reg.index && reg.index[key] == idx
      modifies lists, log`writePos, log.base
      ensures Valid()
      ensures ok <==> 0 < |key| <= 256 && 0 < |val| <= 512
                      && old(log.writePos) + RecordSize(|key|, |val|) <= log.base.Length
      ensures Elements(key) == if ok then [val] + old(Elements(key)) else old(Elements(key))
      ensures forall other :: other != key ==> Elements(other) == old(Elements(other))
    {
      hide KeyIndex.Stored, Agrees, ListOf, AllAgree, Whole, RobinHood.WellOrdered, RobinHood.AllPlaced,
           RobinHood.MapOf, RobinHood.OccupiedCount, Record, KeyIndex.Injective;
      ghost var metas, b := lists[..], log.Bytes();
      AgreesAt(reg.index, reg.used, metas, b, key);
      var m;
      ok, m := log.LPush(lists[idx], key, val);
      PushKeepsAll(reg.index, reg.used, metas, b, key, m, log.Bytes());
      lists[idx] := m;
      assert lists[..] == metas[idx := m];
    }

    /**
    LPUSH by key. The new element heads its list and no other list changes; refused exactly when a bound is
    exceeded, the log is full, or an unknown key finds no index left.
    */
    method LPush(key: Bytes, val: Bytes) returns (ok: bool)
      requires Valid()
      modifies reg`used, reg`index, reg`leaked, reg.keys`count, reg.keys.entries, lists, log`writePos, log.base
      ensures Valid()
      ensures ok <==> 0 < |key| <= 256 && 0 < |val| <= 512
                      && old(log.writePos) + RecordSize(|key|, |val|) <= log.base.Length
                      && (key in old(reg.index) || old(reg.used) < reg.max)
      ensures Elements(key) == if ok then [val] + old(Elements(key)) else old(Elements(key))
      ensures forall other :: other != key ==> Elements(other) == old(Elements(other))
    {
      hide KeyIndex.Injective, KeyIndex.Stored, Agrees, ListOf, AllAgree, Whole, RobinHood.WellOrdered, RobinHood.AllPlaced,
           RobinHood.MapOf, RobinHood.OccupiedCount, Record;
      ghost var index, used := reg.index, reg.used;
      if key !in index && used < reg.max { NewKeyAgrees(index, used, lists[..], log.Bytes(), key); }
      var idx := reg.IndexFor(key, true);
      if idx.None? {
        return false;
      }
      ok := PushTo(idx.value, key, val);
    }

    /** LLEN by key. */
    method LLen(key: Bytes) returns (n: nat)
      requires Valid()
      ensures n == |Elements(key)|
    {
      hide Agrees, ListOf, AllAgree;
      AgreesAt(reg.index, reg.used, lists[..], log.Bytes(), key);
      var idx := reg.Lookup(key);
      if idx.None? {
        return 0;
      }
      CountIs(log.Bytes(), key, lists[idx.value]);
      n := Log.LLen(lists[idx.value]);
    }

    /** LRANGE by key: the clamped slice of the newest 1024 elements. */
    method LRange(key: Bytes, start: int, stop: int, reply: array<byte>) returns (ok: bool, replyLen: nat)
      requires Valid() && reply != log.base
      modifies reply
      ensures Answered(Replies.Slice(NewestOf(old(Elements(key))), start, stop), reply[..], ok, replyLen)
    {
      hide Agrees, ListOf, AllAgree, Answered, Replies.Slice;
      AgreesAt(reg.index, reg.used, lists[..], log.Bytes(), key);
      var idx := reg.Lookup(key);
      if idx.None? {
        EmptySlice(start, stop);
        ok, replyLen := Log.WriteHeader(reply, 0);
        AnsweredNone(reply[..], ok, replyLen);
        return;
      }
      ok, replyLen := log.LRange(lists[idx.value], start, stop, reply, key);
    }
  }

  lemma AgreesAt(index: map<Bytes, nat>, used: nat, metas: seq<Meta>, b: Bytes, key: Bytes)
    requires AllAgree(index, used, metas, b)
    ensures if key in index then index[key] < |metas| && Agrees(b, key, metas[index[key]]) else ListOf(b, key) == []
  {
    hide Agrees, ListOf;
  }

  lemma CountIs(b: Bytes, key: Bytes, m: Meta)
    requires Agrees(b, key, m)
    ensures m.count == |Vals(ListOf(b, key))|
  {
  }
}
