/** Decimal digit strings and the numbers they spell. */
module Decimal {
  predicate IsDigit(c: char) { '0' <= c <= '9' }

  function DigitValue(c: char): (d: nat)
    requires IsDigit(c)
    ensures d < 10
  {
    (c as int) - ('0' as int)
  }

  function DigitChar(d: nat): (c: char)
    requires d < 10
    ensures IsDigit(c) && DigitValue(c) == d
  {
    ('0' as int + d) as char
  }

  predicate AllDigits(s: string) { forall i :: 0 <= i < |s| ==> IsDigit(s[i]) }

  function Pow10(n: nat): (p: nat)
    ensures p > 0
  {
    if n == 0 then 1 else 10 * Pow10(n - 1)
  }

  /** The number a digit string spells, most significant digit first. */
  function Value(s: string): nat
    requires AllDigits(s)
  {
    if s == [] then 0 else 10 * Value(s[..|s| - 1]) + DigitValue(s[|s| - 1])
  }

  /** The shortest decimal spelling of `n`. */
  function Digits(n: nat): (s: string)
    ensures s != [] && AllDigits(s)
  {
    if n < 10 then [DigitChar(n)] else Digits(n / 10) + [DigitChar(n % 10)]
  }

  /** The last `k` decimal digits of `n`, zero-padded. */
  function Padded(n: nat, k: nat): (s: string)
    ensures |s| == k && AllDigits(s)
  {
    if k == 0 then [] else Padded(n / 10, k - 1) + [DigitChar(n % 10)]
  }

  lemma NextPow(v: int, k: nat)
    requires k > 0
    ensures Pow10(k) == 10 * Pow10(k - 1) && v * Pow10(k) == 10 * (v * Pow10(k - 1))
  {
    var p := Pow10(k - 1);
    assert v * (10 * p) == 10 * (v * p);
  }

  /** The last digit of a number, and the rest. */
  lemma LastDigit(a: nat, d: nat)
    requires d < 10
    ensures (10 * a + d) / 10 == a && (10 * a + d) % 10 == d
  {
  }

  lemma ValueOfLast(s: string)
    requires AllDigits(s) && s != []
    ensures var n := |s| - 1;
            && AllDigits(s[..n]) && s == s[..n] + [s[n]] && IsDigit(s[n])
            && Value(s) == 10 * Value(s[..n]) + DigitValue(s[n])
  {
    hide DigitValue, IsDigit;
    FrontAndLast(s);
    ValueIs(s);
  }

  lemma FrontAndLast(s: string)
    requires AllDigits(s) && s != []
    ensures var n := |s| - 1; AllDigits(s[..n]) && s == s[..n] + [s[n]] && IsDigit(s[n])
  {
    hide IsDigit;
  }

  lemma ValueIs(s: string)
    requires AllDigits(s) && s != [] && AllDigits(s[..|s| - 1]) && IsDigit(s[|s| - 1])
    ensures Value(s) == 10 * Value(s[..|s| - 1]) + DigitValue(s[|s| - 1])
  {
    hide DigitValue, IsDigit, AllDigits;
  }

  lemma ValueOfNone(s: string)
    requires s == ""
    ensures AllDigits(s) && Value(s) == 0
  {
  }

  /** A run of digits grows by the digit after it. */
  lemma ValueNext(s: string, from: nat, i: nat)
    requires from <= i < |s| && AllDigits(s[from..i]) && IsDigit(s[i])
    ensures AllDigits(s[from..i + 1]) && Value(s[from..i + 1]) == Value(s[from..i]) * 10 + DigitValue(s[i])
  {
    hide Value, IsDigit, DigitValue;
    var t := s[from..i + 1];
    assert t == s[from..i] + [s[i]];
    forall j | 0 <= j < |t| ensures IsDigit(t[j]) { assert j < i - from ==> t[j] == s[from..i][j]; }
    ValueOfLast(t);
    assert t[..i - from] == s[from..i];
  }

  lemma {:induction false} DigitsValue(n: nat)
    ensures Value(Digits(n)) == n
  {
    if n >= 10 {
      DigitsValue(n / 10);
      assert Digits(n)[..|Digits(n)| - 1] == Digits(n / 10);
    }
  }

  lemma PowAdd(a: nat, b: nat)
    ensures Pow10(a + b) == Pow10(a) * Pow10(b)
  {
    if a > 0 {
      PowAdd(a - 1, b);
      assert Pow10(a + b) == 10 * (Pow10(a - 1) * Pow10(b));
    }
  }

  lemma {:induction false} ValueConcat(a: string, b: string)
    requires AllDigits(a) && AllDigits(b)
    ensures AllDigits(a + b)
    ensures Value(a + b) == Value(a) * Pow10(|b|) + Value(b)
  {
    hide Pow10, Value;
    if b == [] {
      assert a + b == a;
      ConcatNothing(a);
    } else {
      var n := |b| - 1;
      ValueOfLast(b);
      ValueConcat(a, b[..n]);
      AllDigitsConcat(a, b);
      ValueOfLast(a + b);
      assert (a + b)[..|a| + n] == a + b[..n];
      NextPow(Value(a), |b|);
    }
  }

  lemma ConcatNothing(a: string)
    requires AllDigits(a)
    ensures Value(a) * Pow10(0) + Value([]) == Value(a)
  {
    assert Pow10(0) == 1 && Value([]) == 0;
  }

  lemma AllDigitsConcat(a: string, b: string)
    requires AllDigits(a) && AllDigits(b)
    ensures AllDigits(a + b)
  {
  }

  /** `n` without its last `k` decimal digits. */
  function DropDigits(n: nat, k: nat): nat {
    if k == 0 then n else DropDigits(n / 10, k - 1)
  }

  /** The dropped digits and the kept ones make up the number. */
  lemma {:induction false} SplitDigits(n: nat, k: nat)
    ensures DropDigits(n, k) * Pow10(k) + Value(Padded(n, k)) == n
  {
    hide Pow10, Value, DigitChar;
    if k == 0 {
      NothingDropped(n);
    } else {
      SplitDigits(n / 10, k - 1);
      NextPow(DropDigits(n / 10, k - 1), k);
      LastOfPadded(n, k);
    }
  }

  lemma NothingDropped(n: nat)
    ensures DropDigits(n, 0) == n && Padded(n, 0) == [] && Value([]) == 0 && n * Pow10(0) == n
  {
    assert Pow10(0) == 1;
  }

  lemma LastOfPadded(n: nat, k: nat)
    requires k > 0
    ensures Value(Padded(n, k)) == 10 * Value(Padded(n / 10, k - 1)) + n % 10
    ensures DropDigits(n, k) == DropDigits(n / 10, k - 1)
  {
    ValueOfLast(Padded(n, k));
    assert Padded(n, k)[..k - 1] == Padded(n / 10, k - 1);
  }

  lemma DivModUnique(n: nat, d: nat, q: nat, r: nat)
    requires d > 0 && n == q * d + r && r < d
    ensures n / d == q && n % d == r
  {
    var e := n / d - q;
    assert n == (n / d) * d + n % d;
    assert (n / d) * d == q * d + e * d;
    assert e * d == r - n % d;
    MultipleBound(e, d);
  }

  lemma MultipleBound(e: int, d: int)
    requires d >= 0
    ensures e > 0 ==> e * d >= d
    ensures e < 0 ==> e * d <= 0 - d
  {
  }

  lemma {:induction false} ValueBound(s: string)
    requires AllDigits(s)
    ensures Value(s) < Pow10(|s|)
  {
    if s != [] { ValueBound(s[..|s| - 1]); }
  }

  /** A digit string with no leading zero is the shortest spelling of its number. */
  lemma {:induction false} ShortestSpelling(s: string)
    requires AllDigits(s) && s != [] && (s[0] != '0' || |s| == 1)
    ensures Digits(Value(s)) == s
  {
    hide Value, Digits, DigitChar, DigitValue;
    var n := |s| - 1;
    ValueOfLast(s);
    if n == 0 {
      OneDigit(s);
    } else {
      ShortestSpelling(s[..n]);
      NoLeadingZeroIsPositive(s[..n]);
      LastDigit(Value(s[..n]), DigitValue(s[n]));
      MoreDigits(Value(s));
      DigitOfChar(s[n]);
    }
  }

  lemma OneDigit(s: string)
    requires AllDigits(s) && |s| == 1
    ensures Digits(Value(s)) == s
  {
    assert Value(s[..0]) == 0;
    assert s == [s[0]];
  }

  lemma MoreDigits(n: nat)
    requires n >= 10
    ensures Digits(n) == Digits(n / 10) + [DigitChar(n % 10)]
  {
  }

  lemma DigitOfChar(c: char)
    requires IsDigit(c)
    ensures DigitChar(DigitValue(c)) == c
  {
  }

  lemma {:induction false} NoLeadingZeroIsPositive(s: string)
    requires AllDigits(s) && s != [] && s[0] != '0'
    ensures Value(s) > 0
  {
    if |s| > 1 { NoLeadingZeroIsPositive(s[..|s| - 1]); }
  }

  /** Leading zeros say nothing. */
  function StripZeros(s: string): string {
    if s != [] && s[0] == '0' then StripZeros(s[1..]) else s
  }

  lemma {:induction false} StripZerosIsShortest(s: string)
    requires AllDigits(s) && Value(s) > 0
    ensures StripZeros(s) == Digits(Value(s))
  {
    hide Value, Digits;
    EmptyIsZero(s);
    if s[0] == '0' {
      DropLeadingZero(s);
      StripZerosIsShortest(s[1..]);
    } else {
      ShortestSpelling(s);
    }
  }

  lemma EmptyIsZero(s: string)
    ensures s == [] ==> AllDigits(s) && Value(s) == 0
  {
  }

  lemma DropLeadingZero(s: string)
    requires AllDigits(s) && s != [] && s[0] == '0'
    ensures Value(s) == Value(s[1..])
  {
    hide Pow10;
    ValueConcat(s[..1], s[1..]);
    assert s == s[..1] + s[1..];
    assert s[..1][..0] == [];
    assert Value(s[..1]) == 0;
  }
}
