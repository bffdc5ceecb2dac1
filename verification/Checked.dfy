/** Signed 64-bit arithmetic that refuses instead of wrapping, and divisions with a chosen rounding. */
module Checked {
  import opened CoreTypes
  import opened Decimal
  import opened Fixed

  /** Multiplication through magnitudes.  Exact, except that INT64_MIN is refused as an operand and
      as a product. */
  function CheckedMulSigned(a: int64, b: int64): (r: Option<int>)
    ensures r == if a != INT64_MIN && b != INT64_MIN && INT64_MIN < a * b <= INT64_MAX then Some(a * b) else None
  {
    var ua, ub := UnsignedMagnitude(a), UnsignedMagnitude(b);
    SignOfProduct(a, b);
    if ua > INT64_MAX || ub > INT64_MAX then None
    else
      match CheckedMul(ua, ub)
      case None => None
      case Some(p) => Some(if (a < 0) != (b < 0) then -p else p)
  }

  lemma SignOfProduct(a: int, b: int)
    ensures a * b == if (a < 0) != (b < 0) then 0 - Magnitude(a) * Magnitude(b) else Magnitude(a) * Magnitude(b)
    ensures Magnitude(a) * Magnitude(b) >= 0
  {
    var x, y := Magnitude(a), Magnitude(b);
    Negations(x, y);
    ProductOfNats(x, y);
  }

  lemma Negations(x: int, y: int)
    ensures (-x) * y == -(x * y) && x * (-y) == -(x * y) && (-x) * (-y) == x * y
  {
  }

  lemma ProductOfNats(x: nat, y: nat)
    ensures x * y >= 0
  {
  }

  /** The refusal at INT64_MIN reaches further than its product: even times zero or one. */
  lemma MinimumTimesZeroIsRefused()
    ensures CheckedMulSigned(INT64_MIN, 0) == None && CheckedMulSigned(INT64_MIN, 1) == None
  {
  }

  function CheckedAddSigned(a: int64, b: int64): (r: Option<int>)
    ensures r == if INT64_MIN <= a + b <= INT64_MAX then Some(a + b) else None
  {
    if b >= 0 then CheckedAdd(a, b)
    else if a < INT64_MIN - b then None
    else Some(a + b)
  }

  function CheckedSubSigned(a: int64, b: int64): (r: Option<int>)
    ensures r == if INT64_MIN <= a - b <= INT64_MAX then Some(a - b) else None
  {
    if b == INT64_MIN then if a >= 0 then None else Some(a - b)
    else CheckedAddSigned(a, -b)
  }

  /** Division that truncates toward zero, as the machine divides. */
  function TruncDiv(num: int, den: int): int
    requires den != 0
  {
    var q := Magnitude(num) / Magnitude(den);
    if (num < 0) == (den < 0) then q else -q
  }

  function TruncRem(num: int, den: int): int
    requires den != 0
  {
    if num < 0 then -(Magnitude(num) % Magnitude(den)) else Magnitude(num) % Magnitude(den)
  }

  lemma TruncSplit(num: int, den: int)
    requires den != 0
    ensures num == TruncDiv(num, den) * den + TruncRem(num, den)
    ensures Magnitude(TruncRem(num, den)) < Magnitude(den)
    ensures TruncRem(num, den) != 0 ==> (TruncRem(num, den) < 0 <==> num < 0)
  {
    var n, d := Magnitude(num), Magnitude(den);
    NatSplit(n, d);
    SignedSplit(num, den, n / d, n % d);
  }

  lemma NatSplit(n: nat, d: nat)
    requires d > 0
    ensures n / d >= 0 && 0 <= n % d < d && n == (n / d) * d + n % d
  {
  }

  /** Putting the signs back on a quotient and remainder of magnitudes. */
  lemma SignedSplit(num: int, den: int, q: nat, r: nat)
    requires den != 0 && Magnitude(num) == q * Magnitude(den) + r && r < Magnitude(den)
    ensures var t := if (num < 0) == (den < 0) then q else 0 - q;
            var e := if num < 0 then 0 - r else r;
            num == t * den + e && Magnitude(e) < Magnitude(den) && (e != 0 ==> (e < 0 <==> num < 0))
  {
    Negations(q, Magnitude(den));
  }

  /** The largest quotient not above the ratio. */
  function FloorDiv(num: int, den: int): (q: int)
    requires den != 0
    ensures if den > 0 then q * den <= num < q * den + den else q * den >= num > q * den + den
  {
    var t, r := TruncDiv(num, den), TruncRem(num, den);
    TruncSplit(num, den);
    OneMore(t, den);
    if r != 0 && (r < 0) != (den < 0) then t - 1 else t
  }

  /** The smallest quotient not below the ratio. */
  function CeilDiv(num: int, den: int): (q: int)
    requires den != 0
    ensures if den > 0 then q * den - den < num <= q * den else q * den - den > num >= q * den
  {
    var t, r := TruncDiv(num, den), TruncRem(num, den);
    TruncSplit(num, den);
    OneMore(t, den);
    if r != 0 && (r < 0) == (den < 0) then t + 1 else t
  }

  lemma OneMore(t: int, den: int)
    ensures (t + 1) * den == t * den + den && (t - 1) * den == t * den - den
  {
  }

  /** The quotient of smallest magnitude not below the ratio's. */
  function DivAwayFromZero(num: int, den: int): (q: int)
    requires den != 0
    ensures Magnitude(num) <= Magnitude(q) * Magnitude(den) < Magnitude(num) + Magnitude(den)
    ensures q == 0 <==> num == 0
    ensures q != 0 ==> ((q < 0) == ((num < 0) != (den < 0)))
  {
    var t := TruncDiv(num, den);
    AwayFromZero(num, den);
    if TruncRem(num, den) == 0 then t
    else if (num < 0) == (den < 0) then t + 1
    else t - 1
  }

  /** The magnitude of the rounded quotient, and its sign. */
  lemma AwayFromZero(num: int, den: int)
    requires den != 0
    ensures var t, n, d := TruncDiv(num, den), Magnitude(num), Magnitude(den);
            var q := if TruncRem(num, den) == 0 then t else if (num < 0) == (den < 0) then t + 1 else t - 1;
            && n <= Magnitude(q) * d < n + d
            && (q == 0 <==> num == 0)
            && (q != 0 ==> ((q < 0) == ((num < 0) != (den < 0))))
  {
    hide TruncDiv, TruncRem;
    var n, d := Magnitude(num), Magnitude(den);
    AwayBounds(n, d);
    TruncIs(num, den);
  }

  /** Truncation works on magnitudes and puts the sign back. */
  lemma TruncIs(num: int, den: int)
    requires den != 0
    ensures Magnitude(TruncDiv(num, den)) == Magnitude(num) / Magnitude(den)
    ensures TruncRem(num, den) == 0 <==> Magnitude(num) % Magnitude(den) == 0
    ensures var q := Magnitude(num) / Magnitude(den);
            TruncDiv(num, den) == if (num < 0) == (den < 0) then q else -q
  {
    hide Magnitude;
    var n, d := Magnitude(num), Magnitude(den);
    PositiveMagnitude(den);
    MagnitudeOfQuotient(n, d);
  }

  lemma PositiveMagnitude(x: int)
    ensures x != 0 ==> Magnitude(x) > 0
  {
  }

  lemma MagnitudeOfQuotient(n: nat, d: nat)
    requires d > 0
    ensures Magnitude(n / d) == n / d && Magnitude(-(n / d)) == n / d
  {
    QuotientIsNat(n, d);
  }

  lemma QuotientIsNat(n: nat, d: nat)
    requires d > 0
    ensures n / d >= 0
  {
  }

  lemma AwayBounds(n: nat, d: nat)
    requires d > 0
    ensures var q := n / d;
            n == q * d + n % d && (q + 1) * d == q * d + d && n % d < d && (n % d == 0 && q == 0 ==> n == 0)
                && (n == 0 ==> q == 0 && n % d == 0)
  {
    if n == 0 { DivModUnique(0, d, 0, 0); }
  }
}
