/**
 The bit arithmetic behind round_down: masking with a power of two is rounding
 down to a multiple of it.
 */
module Bits {

  function Pow2(k: nat): (p: nat)
    ensures p >= 1
  {
    if k == 0 then 1 else 2 * Pow2(k - 1)
  }

  predicate IsPow2(n: nat) {
    exists k | 0 <= k < 64 :: n == Pow2(k)
  }

  /** Bitwise conjunction. */
  function And(x: nat, y: nat): nat {
    if x == 0 || y == 0 then 0 else 2 * And(x / 2, y / 2) + (x % 2) * (y % 2)
  }

  /** round_down on 64-bit words: x & ~(align - 1). */
  function RoundDown(x: nat, align: nat): nat
    requires 0 < align <= Pow2(64)
  {
    And(x, Pow2(64) - align)
  }

  lemma {:induction false} PowMonotone(j: nat, k: nat)
    requires j <= k
    ensures Pow2(j) <= Pow2(k)
    decreases k
  {
    if j < k { PowMonotone(j, k - 1); }
  }

  lemma {:induction false} HalfMod(x: nat, m: nat)
    requires 0 < m
    ensures x % (2 * m) == 2 * ((x / 2) % m) + x % 2
  {
    var h := x / 2;
    var q, r := h / m, h % m;
    assert x == 2 * (q * m + r) + x % 2;
    assert x == q * (2 * m) + (2 * r + x % 2);
    ModUnique(x, 2 * m, q, 2 * r + x % 2);
  }

  lemma {:induction false} MulStep(p: nat, q: nat, d: nat)
    ensures p < q ==> p * d + d <= q * d
  {
    if p < q { assert (p + 1) * d <= q * d; }
  }

  lemma {:induction false} ModUnique(x: nat, d: nat, q: nat, r: nat)
    requires r < d && x == q * d + r
    ensures x % d == r && x / d == q
  {
    var q', r' := x / d, x % d;
    assert q' * d + r' == q * d + r;
    MulStep(q', q, d);
    MulStep(q, q', d);
  }

  lemma {:induction false} AndStep(x: nat, y: nat)
    ensures And(x, y) == 2 * And(x / 2, y / 2) + (x % 2) * (y % 2)
  {
  }

  lemma {:induction false} PowStep(k: nat)
    requires 0 < k
    ensures Pow2(k) == 2 * Pow2(k - 1)
  {
  }

  lemma {:induction false} HalfMask(n: nat, k: nat)
    requires 0 < k <= n
    ensures Pow2(k) <= Pow2(n) && Pow2(k - 1) <= Pow2(n - 1)
    ensures (Pow2(n) - Pow2(k)) / 2 == Pow2(n - 1) - Pow2(k - 1)
    ensures (Pow2(n) - Pow2(k)) % 2 == 0
  {
    PowMonotone(k, n);
    PowMonotone(k - 1, n - 1);
    PowStep(n);
    PowStep(k);
  }

  /** Masking off the low k bits of an n-bit word subtracts the remainder by 2^k. */
  lemma {:induction false} MaskIsFloor(x: nat, n: nat, k: nat)
    requires x < Pow2(n) && k <= n
    ensures Pow2(k) <= Pow2(n) && And(x, Pow2(n) - Pow2(k)) == x - x % Pow2(k)
    decreases n
  {
    hide Pow2, And;
    PowMonotone(k, n);
    if k == n {
      SmallMod(x, Pow2(k));
      AndZero(x);
    } else if k == 0 {
      AndOnes(x, n);
    } else {
      PowStep(n);
      MaskIsFloor(x / 2, n - 1, k - 1);
      MaskDoubles(x, n, k);
    }
  }

  lemma {:induction false} MaskDoubles(x: nat, n: nat, k: nat)
    requires 0 < k <= n && Pow2(k) <= Pow2(n) && Pow2(k - 1) <= Pow2(n - 1)
    requires And(x / 2, Pow2(n - 1) - Pow2(k - 1)) == x / 2 - (x / 2) % Pow2(k - 1)
    ensures And(x, Pow2(n) - Pow2(k)) == x - x % Pow2(k)
  {
    hide Pow2, And;
    PowStep(k);
    HalfMask(n, k);
    AndStep(x, Pow2(n) - Pow2(k));
    HalfMod(x, Pow2(k - 1));
    MaskStep(x, Pow2(n) - Pow2(k), Pow2(k - 1));
  }

  lemma {:induction false} MaskStep(x: nat, y: nat, p: nat)
    requires 0 < p && y % 2 == 0 && And(x, y) == 2 * And(x / 2, y / 2) + (x % 2) * (y % 2)
    requires And(x / 2, y / 2) == x / 2 - (x / 2) % p && x % (2 * p) == 2 * ((x / 2) % p) + x % 2
    ensures And(x, y) == x - x % (2 * p)
  {
    hide And;
    var h, m, r := x / 2, (x / 2) % p, x % 2;
    assert And(x, y) == 2 * (h - m);
  }

  lemma {:induction false} AndZero(x: nat)
    ensures And(x, 0) == 0
  {
  }

  lemma {:induction false} AndOnes(x: nat, n: nat)
    requires x < Pow2(n)
    ensures Pow2(0) == 1 && And(x, Pow2(n) - 1) == x
  {
    if n > 0 {
      PowStep(n);
      hide Pow2, And;
      AndOnes(x / 2, n - 1);
      AndStep(x, Pow2(n) - 1);
      assert (Pow2(n) - 1) / 2 == Pow2(n - 1) - 1 && (Pow2(n) - 1) % 2 == 1;
      assert x == 2 * (x / 2) + x % 2;
    }
  }

  lemma {:induction false} SmallMod(x: nat, d: nat)
    requires x < d
    ensures x % d == x
  {
  }

  /** On 64-bit words and powers of two, round_down subtracts the remainder. */
  lemma {:induction false} RoundDownIsFloor(x: nat, align: nat)
    requires x < Pow2(64) && IsPow2(align)
    ensures 0 < align <= Pow2(64) && RoundDown(x, align) == x - x % align
  {
    hide Pow2, And;
    var k :| 0 <= k < 64 && align == Pow2(k);
    MaskIsFloor(x, 64, k);
  }

  /** x - x % d is the greatest multiple of d that is at most x. */
  lemma {:induction false} Euclid(x: nat, d: nat) returns (q: nat)
    requires 0 < d
    ensures q * d + x % d == x
  {
    q := x / d;
  }

  lemma {:induction false} FloorGreatest(x: nat, d: nat, c: nat)
    requires 0 < d
    ensures (x - x % d) % d == 0
    ensures c % d == 0 && c <= x ==> c <= x - x % d
  {
    var q := Euclid(x, d);
    ModUnique(q * d, d, q, 0);
    if c % d == 0 && c <= x {
      var k := Euclid(c, d);
      MulStep(q, k, d);
    }
  }

  lemma {:induction false} Pow64()
    ensures Pow2(64) == 0x1_0000_0000_0000_0000
  {
    assert Pow2(8) == 0x100;
    assert Pow2(16) == 0x1_0000;
    assert Pow2(24) == 0x100_0000;
    assert Pow2(32) == 0x1_0000_0000;
    assert Pow2(40) == 0x100_0000_0000;
    assert Pow2(48) == 0x1_0000_0000_0000;
    assert Pow2(56) == 0x100_0000_0000_0000;
  }
}
