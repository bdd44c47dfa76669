/** The two bit tricks on sizes: rounding up to a power of two by smearing, and masking as modulo. */
module Bits {

  function Pow2(k: nat): (p: nat)
    ensures p >= 1
  {
    if k == 0 then 1 else 2 * Pow2(k - 1)
  }

  /** Bitwise or, bit by bit from the low end. */
  function Or(a: nat, b: nat): nat
  {
    if a == 0 && b == 0 then 0
    else 2 * Or(a / 2, b / 2) + if a % 2 == 1 || b % 2 == 1 then 1 else 0
  }

  function And(a: nat, b: nat): nat
  {
    if a == 0 || b == 0 then 0
    else 2 * And(a / 2, b / 2) + if a % 2 == 1 && b % 2 == 1 then 1 else 0
  }

  /** Shifting right by k. */
  function Shr(a: nat, k: nat): nat
  {
    if k == 0 then a else Shr(a / 2, k - 1)
  }

  /** Bit i of n. */
  function BitOf(n: nat, i: nat): nat
  {
    if i == 0 then n % 2 else BitOf(n / 2, i - 1)
  }

  lemma HalfOfOps(a: nat, b: nat)
    ensures And(a, b) / 2 == And(a / 2, b / 2) && (And(a, b) % 2 == 1 <==> a % 2 == 1 && b % 2 == 1)
    ensures Or(a, b) / 2 == Or(a / 2, b / 2) && (Or(a, b) % 2 == 1 <==> a % 2 == 1 || b % 2 == 1)
  {
  }

  /** The operators, told by each bit of their results. */
  lemma {:induction false} BitsAre(a: nat, b: nat, i: nat)
    ensures BitOf(And(a, b), i) == 1 <==> BitOf(a, i) == 1 && BitOf(b, i) == 1
    ensures BitOf(Or(a, b), i) == 1 <==> BitOf(a, i) == 1 || BitOf(b, i) == 1
  {
    hide And, Or;
    HalfOfOps(a, b);
    if i > 0 { BitsAre(a / 2, b / 2, i - 1); }
  }

  lemma {:induction false} ShiftedBits(a: nat, k: nat, i: nat)
    ensures BitOf(Shr(a, k), i) == BitOf(a, i + k)
  {
    if k > 0 { ShiftedBits(a / 2, k - 1, i); }
  }

  // ----- Powers -----

  lemma {:induction false} PowAdds(j: nat, k: nat)
    ensures Pow2(j + k) == Pow2(j) * Pow2(k)
  {
    if j > 0 { PowAdds(j - 1, k); }
  }

  lemma {:induction false} PowGrows(j: nat, k: nat)
    requires j < k
    ensures 2 * Pow2(j) <= Pow2(k)
  {
    if j + 1 < k { PowGrows(j, k - 1); }
  }

  /** Every positive number lies between two neighbouring powers of two. */
  lemma {:induction false} TopBit(n: nat) returns (k: nat)
    requires n > 0
    ensures Pow2(k) <= n < Pow2(k + 1)
  {
    if n == 1 {
      k := 0;
    } else {
      k := TopBit(n / 2);
      k := k + 1;
    }
  }

  // ----- Masking -----

  /** Masking with 2^k - 1 keeps the remainder modulo 2^k. */
  lemma {:induction false} MaskIsModulo(n: nat, k: nat)
    ensures And(n, Pow2(k) - 1) == n % Pow2(k)
  {
    if k > 0 {
      MaskIsModulo(n / 2, k - 1);
      HalfMod(n, Pow2(k - 1));
      assert (Pow2(k) - 1) / 2 == Pow2(k - 1) - 1;
    }
  }

  lemma HalfMod(n: nat, p: nat)
    requires p > 0
    ensures n % (2 * p) == 2 * (n / 2 % p) + n % 2
  {
    var q, r := n / 2 / p, n / 2 % p;
    assert n / 2 == q * p + r;
    MulDoubles(q, p);
    ModUnique(n, 2 * p, q, 2 * r + n % 2);
  }

  lemma ModUnique(n: nat, d: nat, q: nat, r: nat)
    requires d > 0 && n == q * d + r && r < d
    ensures n % d == r && n / d == q
  {
    var q', r' := n / d, n % d;
    assert n == q' * d + r';
    if q' < q {
      MulGrows(q' + 1, q, d);
      assert false;
    } else if q' > q {
      MulGrows(q + 1, q', d);
      assert false;
    }
  }

  lemma MulGrows(a: int, b: int, d: nat)
    requires a <= b
    ensures a * d <= b * d
  {
  }

  lemma MulCancels(a: int, b: int, d: nat)
    requires a * d < b * d
    ensures a < b
  {
    if a >= b { MulGrows(b, a, d); }
  }

  // ----- Smearing -----

  lemma {:induction false} OrAtLeast(a: nat, b: nat)
    ensures Or(a, b) >= a && Or(a, b) >= b
  {
    if a != 0 || b != 0 { OrAtLeast(a / 2, b / 2); }
  }

  lemma {:induction false} OrBelow(a: nat, b: nat, k: nat)
    requires a < Pow2(k) && b < Pow2(k)
    ensures Or(a, b) < Pow2(k)
  {
    if k > 0 { OrBelow(a / 2, b / 2, k - 1); }
  }

  /** Bits from k up pass through an or with a number below 2^k. */
  lemma {:induction false} OrHigh(h: nat, lo: nat, b: nat, k: nat)
    requires lo < Pow2(k) && b < Pow2(k)
    ensures Or(h * Pow2(k) + lo, b) == h * Pow2(k) + Or(lo, b)
  {
    hide Or;
    if k == 0 {
      OrZero(h);
      OrZero(0);
    } else {
      var p := Pow2(k - 1);
      OrHigh(h, lo / 2, b / 2, k - 1);
      MulDoubles(h, p);
      assert h * Pow2(k) + lo == 2 * (h * p + lo / 2) + lo % 2;
      OrStep(h * p + lo / 2, lo % 2, b);
      OrStep(lo / 2, lo % 2, b);
    }
  }

  lemma OrStep(a: nat, bit: nat, b: nat)
    requires bit < 2
    ensures Or(2 * a + bit, b) == 2 * Or(a, b / 2) + if bit == 1 || b % 2 == 1 then 1 else 0
  {
    assert (2 * a + bit) / 2 == a && (2 * a + bit) % 2 == bit;
  }

  lemma {:induction false} OrZero(h: nat)
    ensures Or(h, 0) == h
  {
    if h > 0 { OrZero(h / 2); }
  }

  lemma {:induction false} ShrIs(a: nat, k: nat)
    ensures Shr(a, k) * Pow2(k) <= a < (Shr(a, k) + 1) * Pow2(k)
  {
    if k > 0 {
      ShrIs(a / 2, k - 1);
      var s, p := Shr(a, k), Pow2(k - 1);
      HalfBetween(a, s * p, (s + 1) * p);
      MulDoubles(s, p);
      MulDoubles(s + 1, p);
    }
  }

  lemma HalfBetween(a: nat, x: nat, y: nat)
    requires x <= a / 2 < y
    ensures 2 * x <= a < 2 * y
  {
  }

  lemma MulDoubles(s: nat, p: nat)
    ensures s * (2 * p) == 2 * (s * p)
  {
  }

  lemma MulAtLeast(m: nat, p: nat)
    requires p >= 1
    ensures m * p >= m
  {
    MulGrows(1, p, m);
  }

  /** The top w of the bits 0..k of n are all ones. */
  predicate Smeared(n: nat, k: nat, w: nat)
  {
    n < Pow2(k) && n >= Pow2(k) - if w <= k then Pow2(k - w) else 1
  }

  /** One or-and-shift step doubles the run of leading ones. */
  lemma SmearStep(n: nat, k: nat, w: nat)
    requires Smeared(n, k, w) && w > 0
    ensures Smeared(Or(n, Shr(n, w)), k, 2 * w)
  {
    hide Pow2, Or, Shr;
    var m := Shr(n, w);
    ShrIs(n, w);
    OrAtLeast(n, m);
    MulAtLeast(m, Pow2(w));
    OrBelow(n, m, k);
    if w <= k { SmearLow(n, m, k, w); }
  }

  lemma SmearLow(n: nat, m: nat, k: nat, w: nat)
    requires 0 < w <= k && Pow2(k) - Pow2(k - w) <= n < Pow2(k)
    requires m * Pow2(w) <= n < (m + 1) * Pow2(w)
    ensures Or(n, m) >= Pow2(k) - if 2 * w <= k then Pow2(k - 2 * w) else 1
  {
    hide Pow2, Or;
    var p, q := Pow2(w), Pow2(k - w);
    PowAdds(w, k - w);
    var lo := n - (p - 1) * q;
    Quotient(n, m, p, q);
    OrHigh(p - 1, lo, m, k - w);
    OrAtLeast(lo, m);
    if 2 * w <= k {
      PowAdds(w, k - 2 * w);
      QuotientHigh(n, m, p, q, Pow2(k - 2 * w));
    } else {
      PowGrows(k - w, w);
      QuotientTop(n, m, p, q);
    }
  }

  lemma Quotient(n: nat, m: nat, p: nat, q: nat)
    requires p * q - q <= n < p * q && m * p <= n
    ensures m < q && (p - 1) * q == p * q - q
  {
    assert m * p < q * p;
    MulCancels(m, q, p);
  }

  lemma QuotientHigh(n: nat, m: nat, p: nat, q: nat, r: nat)
    requires p * q - q <= n < (m + 1) * p && q == p * r
    ensures m >= q - r
  {
    assert (q - r) * p == p * q - q;
    MulCancels(q - r, m + 1, p);
  }

  lemma QuotientTop(n: nat, m: nat, p: nat, q: nat)
    requires p * q - q <= n < (m + 1) * p && q <= p
    ensures m >= q - 1
  {
    assert (q - 1) * p == p * q - p;
    MulCancels(q - 1, m + 1, p);
  }

  predicate IsPow2(n: nat, k: nat)
  {
    n == Pow2(k)
  }

  /** r is the least power of two, from 2 up, that is not below v. */
  ghost predicate RoundedUp(v: nat, r: nat)
  {
    && (exists k :: 1 <= k <= 63 && IsPow2(r, k))
    && r >= v
    && forall k :: k >= 1 && Pow2(k) >= v ==> r <= Pow2(k)
  }

  /** next_power_of_two on 64-bit sizes; past 2^63 the final increment wraps to zero. */
  method NextPowerOfTwo(v: nat) returns (r: nat)
    requires v < Pow2(64)
    ensures v <= Pow2(63) ==> RoundedUp(v, r)
    ensures v > Pow2(63) ==> r == 0
  {
    hide Pow2, Or, Shr, RoundedUp, Smeared;
    if v < 2 {
      SmallRoundsToTwo(v);
      return 2;
    }
    ghost var top := TopBit(v - 1);
    ghost var k := top + 1;
    r := v - 1;
    SmearBegins(r, top);
    SmearStep(r, k, 1);
    r := Or(r, Shr(r, 1));
    SmearStep(r, k, 2);
    r := Or(r, Shr(r, 2));
    SmearStep(r, k, 4);
    r := Or(r, Shr(r, 4));
    SmearStep(r, k, 8);
    r := Or(r, Shr(r, 8));
    SmearStep(r, k, 16);
    r := Or(r, Shr(r, 16));
    SmearStep(r, k, 32);
    r := Or(r, Shr(r, 32));
    SmearEnds(v, r, top);
    r := (r + 1) % Pow2(64);
  }

  lemma SmallRoundsToTwo(v: nat)
    requires v < 2
    ensures RoundedUp(v, 2) && v <= Pow2(63)
  {
    assert IsPow2(2, 1) by { assert Pow2(1) == 2; }
    forall k: nat | k >= 1 ensures 2 <= Pow2(k) { PowGrows(0, k); }
  }

  lemma SmearBegins(n: nat, top: nat)
    requires Pow2(top) <= n < Pow2(top + 1)
    ensures Smeared(n, top + 1, 1)
  {
  }

  /** A run of 64 leading ones below 2^64 is all ones, so one more is the next power of two. */
  lemma SmearEnds(v: nat, r: nat, top: nat)
    requires 2 <= v < Pow2(64) && Pow2(top) <= v - 1 < Pow2(top + 1) && Smeared(r, top + 1, 64)
    ensures v <= Pow2(63) ==> RoundedUp(v, (r + 1) % Pow2(64))
    ensures v > Pow2(63) ==> (r + 1) % Pow2(64) == 0
  {
    hide Pow2;
    var k := top + 1;
    if top >= 64 { WeakGrows(64, top); assert false; }
    assert r + 1 == Pow2(k) by { if k == 64 { assert Pow2(0) == 1 by { PowZero(); } } }
    if k == 64 {
      ModUnique(r + 1, Pow2(64), 1, 0);
    } else {
      PowGrows(k, 64);
      WeakGrows(k, 63);
      ModUnique(r + 1, Pow2(64), 0, r + 1);
      assert IsPow2(Pow2(k), k);
      forall j: nat | Pow2(j) >= v ensures Pow2(k) <= Pow2(j) {
        if j <= top { WeakGrows(j, top); assert false; }
        WeakGrows(k, j);
      }
    }
  }

  lemma PowZero()
    ensures Pow2(0) == 1
  {
  }

  lemma WeakGrows(j: nat, k: nat)
    requires j <= k
    ensures Pow2(j) <= Pow2(k)
  {
    if j < k { PowGrows(j, k); }
  }

  lemma SixtyFour()
    ensures Pow2(6) == 64
  {
    assert Pow2(3) == 8;
  }
}
