/** The bump arena: blocks are handed out one after another and never taken back. */
module Arena {
  import opened ByteStrings
  import opened Options
  import opened Bits

  const DEFAULT_ALIGN: nat := 64

  /** In 64 bits, and-ing with the complement of 2^k - 1 clears the low k bits. */
  lemma {:induction false} ClearLow(x: nat, n: nat, k: nat)
    requires k <= n && x < Pow2(n)
    ensures Pow2(k) <= Pow2(n) && And(x, Pow2(n) - Pow2(k)) == x - x % Pow2(k)
  {
    hide And;
    WeakGrows(k, n);
    if k == 0 {
      ClearNone(x, n);
    } else {
      ClearLow(x / 2, n - 1, k - 1);
      ClearStep(x, Pow2(k - 1), Pow2(n - 1) - Pow2(k - 1), 2 * Pow2(k - 1), Pow2(n) - Pow2(k));
    }
  }

  lemma ClearNone(x: nat, n: nat)
    requires x < Pow2(n)
    ensures Pow2(0) == 1 && And(x, Pow2(n) - 1) == x == x - x % 1
  {
    hide Pow2, And;
    PowZero();
    MaskIsModulo(x, n);
    ModUnique(x, Pow2(n), 0, x);
  }

  lemma ClearStep(x: nat, p: nat, m: nat, p2: nat, m2: nat)
    requires p > 0 && p2 == 2 * p && m2 == 2 * m && And(x / 2, m) == x / 2 - x / 2 % p
    ensures And(x, m2) == x - x % p2
  {
    hide And;
    AndEven(x, m);
    HalfMod(x, p);
    HalvesClear(x, And(x / 2, m), x / 2 % p, x % p2);
  }

  lemma HalvesClear(x: nat, a: nat, h: nat, d: nat)
    requires a == x / 2 - h && d == 2 * h + x % 2
    ensures 2 * a == x - d
  {
  }

  lemma AndEven(x: nat, m: nat)
    ensures And(x, 2 * m) == 2 * And(x / 2, m)
  {
    assert 2 * m / 2 == m && 2 * m % 2 == 0;
  }

  /** align_up on 64-bit sizes: (v + a - 1) & ~(a - 1). */
  function AlignUp(v: nat, align: nat): nat
    requires 0 < align <= Pow2(64)
  {
    And(v + align - 1, Pow2(64) - align)
  }

  /** The least multiple of the alignment that is not below the value. */
  lemma AlignUpExact(v: nat, k: nat)
    requires k <= 64 && v + Pow2(k) - 1 < Pow2(64)
    ensures Pow2(k) <= Pow2(64)
    ensures var r := AlignUp(v, Pow2(k)); r % Pow2(k) == 0 && v <= r < v + Pow2(k)
  {
    hide Pow2, And;
    var a := Pow2(k);
    var x := v + a - 1;
    ClearLow(x, 64, k);
    ModUnique(x - x % a, a, x / a, 0);
  }

  /** A block handed out: where it starts, how long it is, and what its start is a multiple of. */
  datatype Block = Block(start: nat, size: nat, align: nat)

  /** Blocks are aligned, nonempty, in bounds and in order, hence pairwise disjoint. */
  ghost predicate LaidOut(blocks: seq<Block>, offset: nat)
  {
    && (forall i :: 0 <= i < |blocks| ==> blocks[i].align > 0 && blocks[i].start % blocks[i].align == 0 && blocks[i].size > 0)
    && (forall i :: 0 <= i < |blocks| ==> blocks[i].start + blocks[i].size <= offset)
    && forall i, j :: 0 <= i < j < |blocks| ==> blocks[i].start + blocks[i].size <= blocks[j].start
  }

  class BumpArena {
    const mem: array<byte>
    var offset: nat
    ghost var blocks: seq<Block>

    ghost predicate Valid()
      reads this
    {
      offset <= mem.Length < Pow2(63) && LaidOut(blocks, offset)
    }

    constructor (size: nat)
      requires 0 < size < Pow2(63)
      ensures Valid() && blocks == [] && fresh(mem) && mem.Length == size
    {
      mem := new byte[size](_ => 0);
      offset := 0;
      blocks := [];
    }

    /** Hands out the next aligned block; refused only for an empty request or when the arena is used up. */
    method Alloc(size: nat, align: nat, ghost k: nat) returns (r: Option<nat>)
      requires Valid() && k < 63 && (align == Pow2(k) || (align == 0 && k == 6))
      modifies this`offset, this`blocks
      ensures Valid()
      ensures r.None? ==> blocks == old(blocks) && offset == old(offset)
      ensures r.None? <==> size == 0 || FirstFit(old(offset), Pow2(k)) + size > mem.Length
      ensures r.Some? ==> r.value == FirstFit(old(offset), Pow2(k)) && offset == r.value + size
      ensures r.Some? ==> blocks == old(blocks) + [Block(r.value, size, Pow2(k))]
    {
      hide Pow2, And;
      if size == 0 {
        return None;
      }
      var a := if align == 0 then DEFAULT_ALIGN else align;
      SixtyFourIs();
      RoomToAlign(offset, mem.Length, k);
      AlignUpExact(offset, k);
      FirstFitIs(offset, Pow2(k), AlignUp(offset, a));
      var start := AlignUp(offset, a);
      if start + size > mem.Length {
        return None;
      }
      offset := start + size;
      blocks := blocks + [Block(start, size, a)];
      r := Some(start);
    }

    /** Like Alloc for the product in 64 bits, and the block is zeroed; nothing outside the block changes. */
    method Calloc(count: nat, size: nat, align: nat, ghost k: nat) returns (r: Option<nat>)
      requires Valid() && k < 63 && (align == Pow2(k) || (align == 0 && k == 6))
      modifies this`offset, this`blocks, mem
      ensures Valid()
      ensures var total := Product(count, size);
              && (r.None? <==> total == 0 || FirstFit(old(offset), Pow2(k)) + total > mem.Length)
              && (r.None? ==> blocks == old(blocks) && offset == old(offset) && mem[..] == old(mem[..]))
              && (r.Some? ==> r.value == FirstFit(old(offset), Pow2(k)) && r.value + total <= mem.Length)
              && (r.Some? ==> blocks == old(blocks) + [Block(r.value, total, Pow2(k))])
              && (r.Some? ==> forall i :: 0 <= i < mem.Length ==>
                    mem[i] == if r.value <= i < r.value + total then 0 else old(mem[i]))
    {
      hide Pow2, And;
      var total := Product(count, size);
      r := Alloc(total, align, k);
      if r.Some? {
        forall i | r.value <= i < r.value + total { mem[i] := 0; }
      }
    }
  }

  /** count * size as 64-bit arithmetic gives it. */
  function Product(count: nat, size: nat): nat
  {
    count * size % Pow2(64)
  }

  lemma ProductWraps(count: nat, size: nat) returns (q: nat)
    ensures count * size == q * Pow2(64) + Product(count, size) && Product(count, size) < Pow2(64)
  {
    hide Pow2;
    q := count * size / Pow2(64);
  }

  /** The least multiple of a that is not below v. */
  function FirstFit(v: nat, a: nat): (r: nat)
    requires a > 0
    ensures v <= r
  {
    if v % a == 0 then v else v + a - v % a
  }

  lemma SixtyFourIs()
    ensures Pow2(6) == 64
  {
    assert Pow2(3) == 8;
  }

  lemma FirstFitIs(v: nat, a: nat, r: nat)
    requires a > 0 && r % a == 0 && v <= r < v + a
    ensures r == FirstFit(v, a)
  {
    var d := r - v;
    if d == 0 {
    } else {
      ModUnique(v, a, r / a - 1, a - d);
    }
  }

  lemma RoomToAlign(offset: nat, size: nat, k: nat)
    requires offset <= size < Pow2(63) && k < 63
    ensures offset + Pow2(k) - 1 < Pow2(64) && Pow2(k) <= Pow2(64)
  {
    PowGrows(k, 63);
    PowGrows(63, 64);
  }

  lemma FirstFitAligned(v: nat, a: nat)
    requires a > 0
    ensures FirstFit(v, a) % a == 0
  {
    if v % a != 0 { ModUnique(v + a - v % a, a, v / a + 1, 0); }
  }

  /** A request for a block whose start is a multiple of two to the k. */
  datatype Request = Request(size: nat, k: nat)

  /** What a request gets when the bytes before offset are taken. */
  function Grant(offset: nat, cap: nat, q: Request): Option<nat>
  {
    var start := FirstFit(offset, Pow2(q.k));
    if q.size == 0 || start + q.size > cap then None else Some(start)
  }

  /** What a run of requests gets. */
  function Grants(offset: nat, cap: nat, qs: seq<Request>): (rs: seq<Option<nat>>)
    ensures |rs| == |qs|
    decreases qs
  {
    if qs == [] then []
    else
      var r := Grant(offset, cap, qs[0]);
      [r] + Grants(if r.Some? then r.value + qs[0].size else offset, cap, qs[1..])
  }

  /** A granted block starts at or after the given place, is aligned, and ends within the arena. */
  ghost predicate Granted(q: Request, r: Option<nat>, from: nat, cap: nat)
  {
    r.Some? ==> from <= r.value && r.value % Pow2(q.k) == 0 && r.value + q.size <= cap
  }

  /** Two granted requests share no byte. */
  ghost predicate Disjoint(q: Request, r: Option<nat>, q': Request, r': Option<nat>)
  {
    r.Some? && r'.Some? ==> r.value + q.size <= r'.value || r'.value + q'.size <= r.value
  }

  /** Over every run of requests: the granted blocks are aligned, in bounds and pairwise disjoint. */
  lemma {:induction false} GrantsApart(offset: nat, cap: nat, qs: seq<Request>)
    ensures forall i :: 0 <= i < |qs| ==> Granted(qs[i], Grants(offset, cap, qs)[i], offset, cap)
    ensures forall i, j :: 0 <= i < j < |qs| ==>
              Disjoint(qs[i], Grants(offset, cap, qs)[i], qs[j], Grants(offset, cap, qs)[j])
    decreases qs
  {
    hide Pow2, FirstFit;
    if qs != [] {
      var r := Grant(offset, cap, qs[0]);
      var next := if r.Some? then r.value + qs[0].size else offset;
      FirstFitAligned(offset, Pow2(qs[0].k));
      GrantsApart(next, cap, qs[1..]);
      var rs, rest := Grants(offset, cap, qs), Grants(next, cap, qs[1..]);
      forall i | 0 < i < |qs| ensures qs[i] == qs[1..][i - 1] && rs[i] == rest[i - 1] && Granted(qs[i], rs[i], next, cap) {
        assert Granted(qs[1..][i - 1], rest[i - 1], next, cap);
      }
      forall i, j | 0 <= i < j < |qs| ensures Disjoint(qs[i], rs[i], qs[j], rs[j]) {
        if i > 0 { assert Disjoint(qs[1..][i - 1], rest[i - 1], qs[1..][j - 1], rest[j - 1]); }
      }
    }
  }

  /** A run of allocations on the arena object gets exactly these blocks. */
  method RunAllocs(arena: BumpArena, qs: seq<Request>) returns (rs: seq<Option<nat>>)
    requires arena.Valid() && forall i :: 0 <= i < |qs| ==> qs[i].k < 63
    modifies arena`offset, arena`blocks
    ensures arena.Valid() && rs == Grants(old(arena.offset), arena.mem.Length, qs)
    ensures forall i :: 0 <= i < |qs| ==> Granted(qs[i], rs[i], old(arena.offset), arena.mem.Length)
    ensures forall i, j :: 0 <= i < j < |qs| ==> Disjoint(qs[i], rs[i], qs[j], rs[j])
  {
    hide Pow2, FirstFit, LaidOut, Grants, Granted, Disjoint;
    rs := [];
    ghost var all, cap := Grants(arena.offset, arena.mem.Length, qs), arena.mem.Length;
    for n := 0 to |qs|
      invariant arena.Valid() && |rs| == n && all == rs + Grants(arena.offset, cap, qs[n..])
    {
      GrantsNext(arena.offset, cap, qs, n);
      var r := arena.Alloc(qs[n].size, Pow2(qs[n].k), qs[n].k);
      assert rs + ([r] + Grants(arena.offset, cap, qs[n + 1..])) == rs + [r] + Grants(arena.offset, cap, qs[n + 1..]);
      rs := rs + [r];
    }
    assert rs + [] == rs;
    GrantsApart(old(arena.offset), cap, qs);
  }

  lemma GrantsNext(offset: nat, cap: nat, qs: seq<Request>, n: nat)
    requires n < |qs|
    ensures var r := Grant(offset, cap, qs[n]);
            Grants(offset, cap, qs[n..]) == [r] + Grants(if r.Some? then r.value + qs[n].size else offset, cap, qs[n + 1..])
  {
    assert qs[n..][0] == qs[n] && qs[n..][1..] == qs[n + 1..];
  }
}
