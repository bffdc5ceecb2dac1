/** Powers of two and bitwise operations on natural numbers. */
module Bits {
  import opened Decimal

  function Pow2(k: nat): (p: nat)
    ensures p > 0
  {
    if k == 0 then 1 else 2 * Pow2(k - 1)
  }

  lemma {:induction false} PowMonotone(a: nat, b: nat)
    requires a <= b
    ensures Pow2(a) <= Pow2(b)
    decreases b - a
  {
    if a < b { PowMonotone(a, b - 1); }
  }

  /** 64 less the count of leading zeros. */
  function BitLength(v: nat): nat { if v == 0 then 0 else 1 + BitLength(v / 2) }

  function Or(a: nat, b: nat): nat
    decreases a + b
  {
    if a == 0 && b == 0 then 0
    else 2 * Or(a / 2, b / 2) + (if a % 2 == 1 || b % 2 == 1 then 1 else 0)
  }

  function And(a: nat, b: nat): nat
    decreases a + b
  {
    if a == 0 || b == 0 then 0
    else 2 * And(a / 2, b / 2) + (if a % 2 == 1 && b % 2 == 1 then 1 else 0)
  }

  /** Masking with one less than a power of two is taking the remainder. */
  lemma {:induction false} MaskIsRemainder(x: nat, k: nat)
    ensures And(x, Pow2(k) - 1) == Remainder(x, Pow2(k))
  {
    hide And, Remainder;
    if k == 0 {
      MaskNothing(x);
    } else {
      MaskIsRemainder(x / 2, k - 1);
      AndOdd(x, Pow2(k - 1) - 1);
      HalvesRemainder(x, Pow2(k - 1));
    }
  }

  function Remainder(x: nat, n: nat): nat
    requires n > 0
  {
    x % n
  }

  lemma MaskNothing(x: nat)
    ensures And(x, 0) == Remainder(x, 1)
  {
  }

  lemma AndOdd(x: nat, n: nat)
    ensures And(x, 2 * n + 1) == 2 * And(x / 2, n) + x % 2
  {
  }

  lemma HalvesRemainder(x: nat, p: nat)
    requires p > 0
    ensures 2 * Remainder(x / 2, p) + x % 2 == Remainder(x, 2 * p)
  {
    var h := x / 2;
    var q, r := h / p, h % p;
    Split(h, p);
    Doubled(q, p);
    DivModUnique(x, 2 * p, q, 2 * r + x % 2);
  }

  lemma Split(x: nat, p: nat)
    requires p > 0
    ensures x == (x / p) * p + x % p && x % p < p
  {
  }

  lemma Doubled(x: nat, p: nat)
    ensures 2 * (x * p) == x * (2 * p)
  {
  }
}
