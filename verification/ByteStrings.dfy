/** Bytes as the C code sees them, and the byte-string order that memcmp induces. */
module ByteStrings {

  type byte = x: int | 0 <= x < 256

  type Bytes = seq<byte>

  const CR: byte := 13
  const LF: byte := 10
  const NUL: byte := 0

  /** The sign-carrying result of `memcmp(a, b, n)`. */
  function Memcmp(a: Bytes, b: Bytes, n: nat): int
    requires n <= |a| && n <= |b|
  {
    if n == 0 then 0
    else if a[0] != b[0] then a[0] - b[0]
    else Memcmp(a[1..], b[1..], n - 1)
  }

  /** memcmp over the common length, then the shorter string first. */
  function BytesCmp(a: Bytes, b: Bytes): int
  {
    var rc := Memcmp(a, b, if |a| < |b| then |a| else |b|);
    if rc != 0 then rc
    else if |a| < |b| then -1
    else if |a| > |b| then 1
    else 0
  }

  /** At the first position where the strings differ, the first one has the smaller byte. */
  predicate DiffersBelow(a: Bytes, b: Bytes, k: nat)
  {
    k < |a| && k < |b| && a[..k] == b[..k] && a[k] < b[k]
  }

  /** The dictionary order of unsigned bytes: a smaller byte at the first difference, or a proper prefix. */
  ghost predicate Below(a: Bytes, b: Bytes)
  {
    a < b || exists k: nat :: DiffersBelow(a, b, k)
  }

  lemma OneMoreByte(a: Bytes, b: Bytes, k: nat)
    requires |a| > 0 && |b| > 0 && a[0] == b[0]
    ensures DiffersBelow(a, b, k + 1) <==> DiffersBelow(a[1..], b[1..], k)
    ensures a < b <==> a[1..] < b[1..]
  {
    if k + 1 <= |a| && k + 1 <= |b| {
      assert a[..k + 1] == [a[0]] + a[1..][..k] && b[..k + 1] == [b[0]] + b[1..][..k];
      assert a[..k + 1][1..] == a[1..][..k] && b[..k + 1][1..] == b[1..][..k];
    }
    assert a == [a[0]] + a[1..] && b == [b[0]] + b[1..];
    if a < b { assert a == b[..|a|] && a[1..] == b[1..][..|a| - 1]; }
    if a[1..] < b[1..] { assert a[1..] == b[1..][..|a| - 1] && a == b[..|a|]; }
  }

  lemma BelowFromHead(a: Bytes, b: Bytes)
    requires |a| > 0 && |b| > 0 && a[0] == b[0]
    ensures Below(a, b) <==> Below(a[1..], b[1..])
  {
    hide DiffersBelow;
    OneMoreByte(a, b, 0);
    if exists k: nat :: DiffersBelow(a, b, k) {
      var k: nat :| DiffersBelow(a, b, k);
      NotAtHead(a, b, k);
      OneMoreByte(a, b, k - 1);
    }
    if exists k: nat :: DiffersBelow(a[1..], b[1..], k) {
      var k: nat :| DiffersBelow(a[1..], b[1..], k);
      OneMoreByte(a, b, k);
    }
  }

  lemma NotAtHead(a: Bytes, b: Bytes, k: nat)
    requires |a| > 0 && |b| > 0 && a[0] == b[0] && DiffersBelow(a, b, k)
    ensures k > 0
  {
  }

  /** The comparison is the dictionary order, in both directions. */
  lemma {:induction false} BytesCmpIsDictionary(a: Bytes, b: Bytes)
    ensures BytesCmp(a, b) < 0 <==> Below(a, b)
    ensures BytesCmp(a, b) > 0 <==> Below(b, a)
  {
    if |a| == 0 || |b| == 0 {
    } else if a[0] != b[0] {
      assert a[..0] == b[..0];
      assert DiffersBelow(a, b, 0) <==> a[0] < b[0];
      assert DiffersBelow(b, a, 0) <==> b[0] < a[0];
      OnlyAtHead(a, b);
      OnlyAtHead(b, a);
    } else {
      BelowFromHead(a, b);
      BelowFromHead(b, a);
      BytesCmpIsDictionary(a[1..], b[1..]);
    }
  }

  lemma SamePrefix(a: Bytes, b: Bytes, k: nat)
    requires k <= |a| && k <= |b| && a[..k] == b[..k]
    ensures k > 0 ==> a[0] == b[0]
  {
    if k > 0 { assert a[..k][0] == a[0] && b[..k][0] == b[0]; }
  }

  lemma OnlyAtHead(a: Bytes, b: Bytes)
    requires |a| > 0 && |b| > 0 && a[0] != b[0]
    ensures Below(a, b) ==> a[0] < b[0]
  {
    forall k: nat | DiffersBelow(a, b, k) ensures k == 0 { SamePrefix(a, b, k); }
  }

  lemma {:induction false} BytesCmpAntisymmetric(a: Bytes, b: Bytes)
    ensures BytesCmp(a, b) < 0 <==> BytesCmp(b, a) > 0
    ensures BytesCmp(a, b) == 0 <==> a == b
  {
    if |a| > 0 && |b| > 0 && a[0] == b[0] {
      BytesCmpAntisymmetric(a[1..], b[1..]);
      assert a == [a[0]] + a[1..] && b == [b[0]] + b[1..];
    }
  }

  lemma {:induction false} BytesCmpTransitive(a: Bytes, b: Bytes, c: Bytes)
    requires BytesCmp(a, b) <= 0 && BytesCmp(b, c) <= 0
    ensures BytesCmp(a, c) <= 0
  {
    if |a| > 0 && |b| > 0 && |c| > 0 && a[0] == b[0] == c[0] {
      BytesCmpTransitive(a[1..], b[1..], c[1..]);
    }
  }

  lemma SliceOfSlice(s: Bytes, lo: nat, mid: nat, hi: nat)
    requires lo <= mid <= hi <= |s|
    ensures s[lo..hi][..mid - lo] == s[lo..mid]
  {
  }

  lemma SliceAt(s: Bytes, lo: nat, i: nat, hi: nat)
    requires lo <= i < hi <= |s|
    ensures s[lo..hi][i - lo] == s[i]
  {
  }

  lemma SliceOfPrefix(s: Bytes, lo: nat, mid: nat, hi: nat)
    requires lo <= mid <= hi <= |s|
    ensures s[..hi][lo..mid] == s[lo..mid]
  {
  }
}

module Options {
  datatype Option<+T> = None | Some(value: T)
}
