/** Exact fixed-point decimals: parsing without rounding, formatting, and the canonical spelling. */
module Fixed {
  import opened CoreTypes
  import opened Decimal

  const MAX_SCALE: nat := 18

  datatype ParseError = Ok | Empty | Malformed | PrecisionLoss | Overflow | ScaleTooLarge
  datatype ParseResult = ParseResult(mantissa: int, error: ParseError)

  // ----- the grammar -----

  datatype Exponent = NoExponent | Exponent(marker: char, sign: string, digits: string)

  /** An optional sign, an integer part, an optional point and fraction, an optional exponent. */
  datatype Token = Token(sign: string, whole: string, point: bool, fraction: string, exponent: Exponent)

  predicate IsSign(s: string) { s == "" || s == "+" || s == "-" }

  predicate WellFormed(t: Token) {
    && IsSign(t.sign)
    && AllDigits(t.whole) && AllDigits(t.fraction)
    && (!t.point ==> t.fraction == "")
    && t.whole + t.fraction != ""
    && ExponentOk(t.exponent)
  }

  predicate ExponentOk(e: Exponent) {
    e.Exponent? ==>
      && (e.marker == 'e' || e.marker == 'E')
      && IsSign(e.sign) && AllDigits(e.digits) && e.digits != ""
  }

  function SpellExponent(e: Exponent): string {
    match e
    case NoExponent => ""
    case Exponent(marker, sign, digits) => [marker] + sign + digits
  }

  function Spelling(t: Token): string {
    t.sign + t.whole + (if t.point then "." else "") + t.fraction + SpellExponent(t.exponent)
  }

  /** All the digits of the number, as one integer. */
  function Significand(t: Token): nat
    requires WellFormed(t)
  {
    Value(t.whole + t.fraction)
  }

  /** The written exponent. */
  function WrittenExponent(t: Token): int
    requires WellFormed(t)
  {
    match t.exponent
    case NoExponent => 0
    case Exponent(_, sign, digits) => (if sign == "-" then 0 - Value(digits) else Value(digits))
  }

  // ----- scanning a spelling back into its parts -----

  /** The end of the run of digits starting at `i`. */
  function RunEnd(s: string, i: nat): (e: nat)
    requires i <= |s|
    ensures i <= e <= |s| && AllDigits(s[i..e])
    ensures e < |s| ==> !IsDigit(s[e])
    decreases |s| - i
  {
    if i < |s| && IsDigit(s[i]) then
      var e := RunEnd(s, i + 1);
      assert s[i..e] == [s[i]] + s[i + 1..e];
      e
    else i
  }

  lemma {:induction false} RunEndOf(s: string, i: nat, e: nat)
    requires i <= e <= |s| && AllDigits(s[i..e]) && (e < |s| ==> !IsDigit(s[e]))
    ensures RunEnd(s, i) == e
    decreases e - i
  {
    if i < e {
      assert s[i..e][0] == s[i];
      assert s[i + 1..e] == s[i..e][1..];
      RunEndOf(s, i + 1, e);
    }
  }

  function SignAt(s: string, i: nat): (sign: string)
    requires i <= |s|
    ensures IsSign(sign) && i + |sign| <= |s| && s[i..i + |sign|] == sign
  {
    if i < |s| && (s[i] == '+' || s[i] == '-') then [s[i]] else ""
  }

  function ScanExponent(s: string, i: nat): (e: Option<Exponent>)
    requires i <= |s|
  {
    if i == |s| then Some(NoExponent)
    else if s[i] != 'e' && s[i] != 'E' then None
    else
      var sign := SignAt(s, i + 1);
      var from := i + 1 + |sign|;
      var end := RunEnd(s, from);
      if from < end == |s| then Some(Exponent(s[i], sign, s[from..])) else None
  }

  function Scan(s: string): Option<Token> {
    var sign := SignAt(s, 0);
    var wholeEnd := RunEnd(s, |sign|);
    var point := wholeEnd < |s| && s[wholeEnd] == '.';
    var from := if point then wholeEnd + 1 else wholeEnd;
    var end := if point then RunEnd(s, from) else from;
    match ScanExponent(s, end)
    case None => None
    case Some(e) =>
      if wholeEnd == |sign| && end == from then None
      else Some(Token(sign, s[|sign|..wholeEnd], point, s[from..end], e))
  }

  lemma ScanExponentSound(s: string, i: nat)
    requires i <= |s| && ScanExponent(s, i).Some?
    ensures SpellExponent(ScanExponent(s, i).value) == s[i..]
  {
    if i < |s| {
      var sign := SignAt(s, i + 1);
      var from := i + 1 + |sign|;
      assert s[i..] == [s[i]] + s[i + 1..from] + s[from..];
    }
  }

  lemma FivePieces(s: string, a: nat, b: nat, c: nat, d: nat)
    requires a <= b <= c <= d <= |s|
    ensures s == s[..a] + s[a..b] + s[b..c] + s[c..d] + s[d..]
  {
  }

  /** What scans is well formed and spells the input. */
  lemma ScanSound(s: string)
    requires Scan(s).Some?
    ensures WellFormed(Scan(s).value) && Spelling(Scan(s).value) == s
  {
    hide RunEnd, SignAt, ScanExponent, SpellExponent;
    var sign := SignAt(s, 0);
    var wholeEnd := RunEnd(s, |sign|);
    var point := wholeEnd < |s| && s[wholeEnd] == '.';
    var from := if point then wholeEnd + 1 else wholeEnd;
    var end := if point then RunEnd(s, from) else from;
    var e := ScanExponent(s, end).value;
    ScanExponentSound(s, end);
    WellFormedExponent(s, end);
    FivePieces(s, |sign|, wholeEnd, from, end);
    DotAt(s, wholeEnd, from);
    assert !point ==> s[from..end] == "";
    NotBothEmpty(s[|sign|..wholeEnd], s[from..end]);
  }

  lemma NotBothEmpty(a: string, b: string)
    ensures a + b == "" <==> |a| == 0 && |b| == 0
  {
  }

  lemma DotAt(s: string, i: nat, j: nat)
    requires i <= |s| && (if i < |s| && s[i] == '.' then j == i + 1 else j == i)
    ensures s[i..j] == if i < |s| && s[i] == '.' then "." else ""
  {
  }

  lemma WellFormedExponent(s: string, i: nat)
    requires i <= |s| && ScanExponent(s, i).Some?
    ensures var e := ScanExponent(s, i).value;
            ExponentOk(e)
  {
    if i < |s| {
      var from := i + 1 + |SignAt(s, i + 1)|;
      assert s[from..|s|] == s[from..];
    }
  }

  lemma ScanExponentComplete(s: string, i: nat, e: Exponent)
    requires i <= |s| && s[i..] == SpellExponent(e)
    requires ExponentOk(e)
    ensures ScanExponent(s, i) == Some(e)
  {
    hide RunEnd, SignAt, SpellExponent, IsSign;
    if e.NoExponent? {
      NothingLeft(s, i);
    } else {
      ExponentParts(s, i, e);
      DigitsAreNoSigns(e.digits);
      SignThenDigits(s, i + 1, e.sign, e.digits);
      RunEndOf(s, i + 1 + |e.sign|, |s|);
    }
  }

  lemma NothingLeft(s: string, i: nat)
    requires i <= |s| && s[i..] == SpellExponent(NoExponent)
    ensures i == |s|
  {
  }

  lemma DigitsAreNoSigns(digits: string)
    requires AllDigits(digits)
    ensures digits != "" ==> digits[0] != '+' && digits[0] != '-'
  {
  }

  lemma ExponentParts(s: string, i: nat, e: Exponent)
    requires i <= |s| && e.Exponent? && s[i..] == SpellExponent(e)
    ensures i + 1 + |e.sign| <= |s| && s[i] == e.marker && s[i + 1..] == e.sign + e.digits
    ensures var from := i + 1 + |e.sign|; s[from..] == e.digits && s[from..|s|] == e.digits
  {
    assert s[i..] == [e.marker] + (e.sign + e.digits);
    assert s[i] == s[i..][0];
    assert s[i + 1..] == s[i..][1..];
    assert s[i + 1 + |e.sign|..] == s[i + 1..][|e.sign|..];
  }

  lemma SignThenDigits(s: string, i: nat, sign: string, digits: string)
    requires i <= |s| && s[i..] == sign + digits && IsSign(sign)
    requires digits != "" ==> digits[0] != '+' && digits[0] != '-'
    ensures SignAt(s, i) == sign
  {
    if i < |s| { assert s[i] == s[i..][0]; }
  }

  /** Where each part of a token's spelling lies. */
  lemma SpellingSlices(t: Token)
    requires WellFormed(t)
    ensures var s, tail := Spelling(t), SpellExponent(t.exponent);
            var a := |t.sign|;
            var b := a + |t.whole|;
            var c := if t.point then b + 1 else b;
            var d := c + |t.fraction|;
            && |s| == d + |tail|
            && s[..a] == t.sign && s[a..b] == t.whole && s[c..d] == t.fraction && s[d..] == tail
            && (t.point ==> s[b] == '.') && (d < |s| ==> s[d] == tail[0])
  {
    hide SpellExponent;
    var dot := if t.point then "." else "";
    FiveSlices(t.sign, t.whole, dot, t.fraction, SpellExponent(t.exponent));
    var s, b := Spelling(t), |t.sign| + |t.whole|;
    if t.point { assert s[b..b + 1][0] == s[b]; }
    var d := b + |dot| + |t.fraction|;
    if d < |s| { assert s[d..][0] == s[d]; }
  }

  lemma FiveSlices(a: string, b: string, c: string, d: string, e: string)
    ensures var s := a + b + c + d + e;
            var i, j, k, l := |a|, |a| + |b|, |a| + |b| + |c|, |a| + |b| + |c| + |d|;
            |s| == l + |e| && s[..i] == a && s[i..j] == b && s[j..k] == c && s[k..l] == d && s[l..] == e
  {
  }

  lemma TailStart(e: Exponent)
    requires e.Exponent? ==> e.marker == 'e' || e.marker == 'E'
    ensures var tail := SpellExponent(e);
            tail != "" ==> !IsDigit(tail[0]) && tail[0] != '.' && tail[0] != '+' && tail[0] != '-'
  {
  }

  lemma SignScans(t: Token)
    requires WellFormed(t)
    ensures SignAt(Spelling(t), 0) == t.sign
  {
    hide SpellExponent;
    var s := Spelling(t);
    SpellingSlices(t);
    TailStart(t.exponent);
    if t.sign != "" {
      assert s[0] == s[..1][0];
    } else if t.whole != "" {
      assert s[0] == s[0..|t.whole|][0];
    }
  }

  /** Every well-formed token's spelling scans back to it: the grammar is unambiguous. */
  lemma ScanComplete(t: Token)
    requires WellFormed(t)
    ensures Scan(Spelling(t)) == Some(t)
  {
    hide RunEnd, SignAt, ScanExponent, SpellExponent, Spelling;
    var s := Spelling(t);
    var a := |t.sign|;
    var b := a + |t.whole|;
    var c := if t.point then b + 1 else b;
    var d := c + |t.fraction|;
    SpellingSlices(t);
    SignScans(t);
    TailStart(t.exponent);
    RunEndOf(s, a, b);
    RunEndOf(s, c, d);
    ScanExponentComplete(s, d, t.exponent);
    NotBothEmpty(t.whole, t.fraction);
  }

  // ----- parsing -----

  const MAX_EXPONENT: int := 1000

  /** The exponent as the parser reads it: magnitudes beyond 1000 are clamped. */
  function ReadExponent(t: Token): int
    requires WellFormed(t)
  {
    ClampedExponent(t.exponent)
  }

  predicate ExponentDigits(e: Exponent) { e.Exponent? ==> AllDigits(e.digits) }

  function ClampedExponent(e: Exponent): int
    requires ExponentDigits(e)
  {
    match e
    case NoExponent => 0
    case Exponent(_, sign, digits) =>
      (if sign == "-" then 0 - Min(Value(digits), MAX_EXPONENT) else Min(Value(digits), MAX_EXPONENT))
  }

  /** A scanned token as a mantissa at `scale`, refused rather than rounded. */
  function Convert(t: Token, scale: nat): ParseResult
    requires WellFormed(t) && scale <= MAX_SCALE
  {
    var digits := Significand(t);
    var shift := scale + ReadExponent(t) - |t.fraction|;
    var signed := (m: int) => ParseResult(if t.sign == "-" then -m else m, Ok);
    if digits > INT64_MAX then ParseResult(0, Overflow)
    else if shift >= 0 then
      if shift > MAX_SCALE || digits * Pow10(shift) > INT64_MAX then ParseResult(0, Overflow)
      else signed(digits * Pow10(shift))
    else if -shift > MAX_SCALE then
      if digits == 0 then ParseResult(0, Ok) else ParseResult(0, PrecisionLoss)
    else if digits % Pow10(-shift) != 0 then ParseResult(0, PrecisionLoss)
    else signed(digits / Pow10(-shift))
  }

  function Parse(text: string, scale: nat): ParseResult {
    if scale > MAX_SCALE then ParseResult(0, ScaleTooLarge)
    else if text == "" then ParseResult(0, Empty)
    else
      match Scan(text)
      case None => ParseResult(0, Malformed)
      case Some(t) => ScanSound(text); Convert(t, scale)
  }

  /** The parser calls malformed exactly the inputs no token spells. */
  lemma MalformedIsUnspellable(text: string, scale: nat)
    requires scale <= MAX_SCALE && text != ""
    ensures Parse(text, scale).error == Malformed <==> forall t: Token :: WellFormed(t) ==> Spelling(t) != text
  {
    hide Scan, WellFormed, Spelling;
    if Scan(text).Some? {
      ScanSound(text);
    }
    forall t: Token | WellFormed(t) ensures Spelling(t) == text ==> Scan(text).Some? {
      ScanComplete(t);
    }
  }

  /** `m` at `scale` is exactly the number `t` spells: m * 10^-scale == +-digits * 10^(exponent - |fraction|),
      with negative powers moved to the other side. */
  predicate Denotes(t: Token, scale: nat, m: int)
    requires WellFormed(t)
  {
    var e := WrittenExponent(t);
    DenotesWith(if t.sign == "-" then 0 - Significand(t) else Significand(t), |t.fraction|, e, scale, m)
  }

  predicate DenotesWith(digits: int, fraction: nat, e: int, scale: nat, m: int) {
    m * Pow10(fraction + Max(-e, 0)) == digits * Pow10(scale + Max(e, 0))
  }

  lemma PowStrict(a: nat, b: nat)
    requires a < b
    ensures Pow10(a) < Pow10(b)
    decreases b
  {
    if a + 1 < b { PowStrict(a, b - 1); }
  }

  /** A shift by a nonnegative power is exact. */
  lemma ShiftUpIsExact(digits: int, fraction: nat, e: int, scale: nat)
    requires scale + e - fraction >= 0
    ensures DenotesWith(digits, fraction, e, scale, digits * Pow10(scale + e - fraction))
  {
    var k, a, b := scale + e - fraction, fraction + Max(-e, 0), scale + Max(e, 0);
    PowAdd(k, a);
    assert digits * Pow10(k) * Pow10(a) == digits * (Pow10(k) * Pow10(a));
  }

  /** Dividing out a power is exact, and possible only when it divides. */
  lemma ShiftDownIsExact(digits: int, fraction: nat, e: int, scale: nat, m: int)
    requires scale + e - fraction < 0
    ensures DenotesWith(digits, fraction, e, scale, m) <==> m * Pow10(fraction - scale - e) == digits
  {
    var k, a, b := fraction - scale - e, fraction + Max(-e, 0), scale + Max(e, 0);
    PowAdd(k, b);
    assert m * Pow10(a) == m * Pow10(k) * Pow10(b);
    CancelFactor(m * Pow10(k), digits, Pow10(b));
  }

  lemma CancelFactor(x: int, y: int, p: nat)
    requires p > 0
    ensures x * p == y * p <==> x == y
  {
    if x != y { MultipleBound(x - y, p); }
    assert (x - y) * p == x * p - y * p;
  }

  /** The parser's answer is exact for the exponent it read. */
  lemma ConvertIsExact(t: Token, scale: nat)
    requires WellFormed(t) && scale <= MAX_SCALE && Convert(t, scale).error == Ok
    ensures DenotesWith(if t.sign == "-" then 0 - Significand(t) else Significand(t), |t.fraction|, ReadExponent(t),
                        scale, Convert(t, scale).mantissa)
  {
    hide DenotesWith, Pow10, Significand, ReadExponent, WellFormed;
    var digits, f, e := Significand(t), |t.fraction|, ReadExponent(t);
    var signed := if t.sign == "-" then 0 - digits else digits;
    var shift := scale + e - f;
    if shift >= 0 {
      ShiftUpIsExact(signed, f, e, scale);
      NegatedProduct(digits, Pow10(shift));
    } else {
      ShiftDownIsExact(signed, f, e, scale, Convert(t, scale).mantissa);
      if -shift <= MAX_SCALE {
        WholeQuotient(digits, Pow10(-shift));
        NegatedProduct(digits / Pow10(-shift), Pow10(-shift));
      } else {
        NegatedProduct(0, Pow10(-shift));
      }
    }
  }

  lemma NegatedProduct(x: int, p: int)
    ensures (0 - x) * p == 0 - x * p && (x == 0 ==> x * p == 0)
  {
  }

  lemma WholeQuotient(x: nat, p: nat)
    requires p > 0 && x % p == 0
    ensures (x / p) * p == x
  {
    assert x == (x / p) * p + x % p;
  }

  /** An accepted token denotes exactly its mantissa if and only if its written exponent is at most
      1000 in magnitude, or the number is zero. */
  lemma ExactIffExponentInRange(text: string, scale: nat)
    requires Parse(text, scale).error == Ok
    ensures Scan(text).Some? && WellFormed(Scan(text).value)
    ensures var t := Scan(text).value;
            Denotes(t, scale, Parse(text, scale).mantissa) <==>
            (-MAX_EXPONENT <= WrittenExponent(t) <= MAX_EXPONENT || Significand(t) == 0)
  {
    hide Scan, WellFormed, Convert, Value, Pow10, DenotesWith;
    ScanSound(text);
    var t, m := Scan(text).value, Parse(text, scale).mantissa;
    var f, e, r := |t.fraction|, WrittenExponent(t), ReadExponent(t);
    var digits := if t.sign == "-" then 0 - Significand(t) else Significand(t);
    ConvertIsExact(t, scale);
    if e > MAX_EXPONENT || e < -MAX_EXPONENT {
      TwoExponents(digits, f, r, e, scale, m);
    }
  }

  lemma TwoExponents(digits: int, f: nat, r: int, e: int, scale: nat, m: int)
    requires DenotesWith(digits, f, r, scale, m) && (0 <= r < e || e < r <= 0)
    ensures DenotesWith(digits, f, e, scale, m) <==> digits == 0
  {
    if r < e {
      PowStrict(scale + r, scale + e);
      DifferentMultiples(digits, Pow10(scale + r), Pow10(scale + e));
    } else {
      PowStrict(f - r, f - e);
      DifferentMultiples(m, Pow10(f - r), Pow10(f - e));
      ZeroTogether(m, Pow10(f - r), digits, Pow10(scale));
    }
  }

  lemma DifferentMultiples(x: int, p: nat, q: nat)
    requires p < q
    ensures x * p == x * q <==> x == 0
  {
    assert x * q - x * p == x * (q - p);
    if x != 0 { MultipleBound(x, q - p); }
  }

  lemma ZeroTogether(x: int, p: nat, y: int, q: nat)
    requires x * p == y * q && p > 0 && q > 0
    ensures x == 0 <==> y == 0
  {
    MultipleBound(x, p);
    MultipleBound(y, q);
  }

  // ----- the mantissa a token denotes, and when the parser misses it -----

  /** How far the decimal point must move, by the exponent as written. */
  function TrueShift(t: Token, scale: nat): int
    requires WellFormed(t)
  {
    scale + WrittenExponent(t) - |t.fraction|
  }

  function SignedBy(t: Token, m: int): int { if t.sign == "-" then 0 - m else m }

  /** The one mantissa that denotes the token at `scale`, if any does. */
  function ExactMantissa(t: Token, scale: nat): Option<int>
    requires WellFormed(t)
  {
    var digits, k := Significand(t), TrueShift(t, scale);
    if k >= 0 then Some(SignedBy(t, digits * Pow10(k)))
    else if digits % Pow10(-k) == 0 then Some(SignedBy(t, digits / Pow10(-k)))
    else None
  }

  lemma ExactMantissaDenotes(t: Token, scale: nat, m: int)
    requires WellFormed(t)
    ensures Denotes(t, scale, m) <==> ExactMantissa(t, scale) == Some(m)
  {
    hide WellFormed, Pow10, Significand, WrittenExponent;
    var digits, f, e, k := Significand(t), |t.fraction|, WrittenExponent(t), TrueShift(t, scale);
    var signed := SignedBy(t, digits);
    if k >= 0 {
      ShiftUpIsExact(signed, f, e, scale);
      NegatedProduct(digits, Pow10(k));
      CancelFactor(m, signed * Pow10(k), Pow10(f + Max(-e, 0)));
    } else {
      ShiftDownIsExact(signed, f, e, scale, m);
      QuotientOrNone(m, digits, t.sign == "-", Pow10(-k));
    }
  }

  lemma QuotientOrNone(m: int, digits: nat, negative: bool, p: nat)
    requires p > 0
    ensures m * p == (if negative then 0 - digits else digits) <==>
              digits % p == 0 && m == if negative then 0 - digits / p else digits / p
  {
    var n := if negative then 0 - m else m;
    NegatedProduct(m, p);
    if digits % p == 0 {
      WholeQuotient(digits, p);
      CancelFactor(n, digits / p, p);
    } else if n * p == digits {
      WholeMultiple(n, p);
    }
  }

  /** Precision loss is reported for a number that needs no rounding exactly when its written exponent
      is beyond 1000 and the number itself is whole at the scale. */
  lemma RefusesOnlyToAvoidRounding(text: string, scale: nat)
    requires Parse(text, scale).error == PrecisionLoss
    ensures Scan(text).Some? && WellFormed(Scan(text).value)
    ensures var t := Scan(text).value;
            var k := TrueShift(t, scale);
            (exists m :: Denotes(t, scale, m)) <==>
              WrittenExponent(t) > MAX_EXPONENT && (k >= 0 || Significand(t) % Pow10(-k) == 0)
  {
    hide Scan, WellFormed, Pow10, Significand, ReadExponent, WrittenExponent, Denotes, ExactMantissa;
    ScanSound(text);
    var t := Scan(text).value;
    ReadsTheExponent(t);
    RefusedUnlessFar(t, scale);
    DenotedIffExact(t, scale);
    if ExactMantissa(t, scale).Some? { ExactMantissaDenotes(t, scale, ExactMantissa(t, scale).value); }
  }

  lemma DenotedIffExact(t: Token, scale: nat)
    requires WellFormed(t)
    ensures (exists m :: Denotes(t, scale, m)) <==> ExactMantissa(t, scale).Some?
    ensures var k := TrueShift(t, scale); ExactMantissa(t, scale).Some? <==> k >= 0 || Significand(t) % Pow10(-k) == 0
  {
    hide WellFormed, Pow10, Significand, Denotes, TrueShift;
    if ExactMantissa(t, scale).Some? { ExactMantissaDenotes(t, scale, ExactMantissa(t, scale).value); }
    forall m | Denotes(t, scale, m) ensures ExactMantissa(t, scale).Some? { ExactMantissaDenotes(t, scale, m); }
  }

  /** The clamp is the only difference between the exponent read and the one written. */
  lemma ReadsTheExponent(t: Token)
    requires WellFormed(t)
    ensures ReadExponent(t) == Max(0 - MAX_EXPONENT, Min(WrittenExponent(t), MAX_EXPONENT))
  {
    hide Value;
  }

  /** A number refused at the exponent read is not whole at the one written, unless that is larger. */
  lemma RefusedUnlessFar(t: Token, scale: nat)
    requires WellFormed(t) && scale <= MAX_SCALE && Convert(t, scale).error == PrecisionLoss
    requires ReadExponent(t) == Max(0 - MAX_EXPONENT, Min(WrittenExponent(t), MAX_EXPONENT))
    ensures var k := TrueShift(t, scale);
            WrittenExponent(t) <= MAX_EXPONENT ==> k < 0 && Significand(t) % Pow10(-k) != 0
  {
    hide WellFormed, Pow10, Significand, ReadExponent, WrittenExponent;
    var k := TrueShift(t, scale);
    if -k > MAX_SCALE { SmallIsNoMultiple(Significand(t), -k); }
  }

  lemma SmallIsNoMultiple(digits: nat, k: nat)
    requires 0 < digits <= INT64_MAX && k > MAX_SCALE
    ensures digits % Pow10(k) != 0
  {
    hide Pow10;
    PowNineteen();
    if k > 19 { PowStrict(19, k); }
    DivModUnique(digits, Pow10(k), 0, digits);
  }

  /** Overflow is reported for a number that fits exactly when the number is zero, or its digits alone
      do not fit but a negative shift brings them back. */
  lemma OverflowIsSpuriousIff(text: string, scale: nat)
    requires Parse(text, scale).error == Overflow
    ensures Scan(text).Some? && WellFormed(Scan(text).value)
    ensures var t := Scan(text).value;
            var k := TrueShift(t, scale);
            (exists m :: 0 - INT64_MAX <= m <= INT64_MAX && Denotes(t, scale, m)) <==>
              || Significand(t) == 0
              || (k < 0 && Significand(t) % Pow10(-k) == 0 && Significand(t) / Pow10(-k) <= INT64_MAX)
  {
    hide Scan, WellFormed, Pow10, Significand, ReadExponent, WrittenExponent, Denotes, ExactMantissa;
    ScanSound(text);
    var t := Scan(text).value;
    ReadsTheExponent(t);
    OverflowCases(t, scale);
    forall m | Denotes(t, scale, m) ensures ExactMantissa(t, scale) == Some(m) { ExactMantissaDenotes(t, scale, m); }
    if ExactMantissa(t, scale).Some? { ExactMantissaDenotes(t, scale, ExactMantissa(t, scale).value); }
  }

  predicate Fits(m: Option<int>) { m.Some? && 0 - INT64_MAX <= m.value <= INT64_MAX }

  lemma OverflowCases(t: Token, scale: nat)
    requires WellFormed(t) && scale <= MAX_SCALE && Convert(t, scale).error == Overflow
    requires ReadExponent(t) == Max(0 - MAX_EXPONENT, Min(WrittenExponent(t), MAX_EXPONENT))
    ensures var k := TrueShift(t, scale);
            Fits(ExactMantissa(t, scale)) <==>
              || Significand(t) == 0
              || (k < 0 && Significand(t) % Pow10(-k) == 0 && Significand(t) / Pow10(-k) <= INT64_MAX)
  {
    hide WellFormed, Pow10, Significand, ReadExponent, WrittenExponent;
    var k, read := TrueShift(t, scale), scale + ReadExponent(t) - |t.fraction|;
    var digits := Significand(t);
    if k >= 0 {
      NegatedProduct(digits, Pow10(k));
      if digits > 0 {
        AtLeastOnce(digits, Pow10(k));
        if digits <= INT64_MAX { FarShiftOverflows(digits, read, k); }
      }
    } else {
      QuotientBound(digits, Pow10(-k));
      if digits == 0 { DivModUnique(0, Pow10(-k), 0, 0); }
    }
  }

  lemma FarShiftOverflows(digits: nat, read: nat, k: nat)
    requires digits > 0 && read <= k && (read > MAX_SCALE || digits * Pow10(read) > INT64_MAX)
    ensures digits * Pow10(k) > INT64_MAX
  {
    hide Pow10;
    if read > MAX_SCALE {
      PowNineteen();
      if k > 19 { PowStrict(19, k); }
      AtLeastOnce(Pow10(k), digits);
      Commutes(digits, Pow10(k));
    } else {
      if read < k { PowStrict(read, k); }
      MoreOf(digits, Pow10(read), Pow10(k));
    }
  }

  lemma Commutes(x: int, y: int)
    ensures x * y == y * x
  {
  }

  lemma MoreOf(x: nat, p: nat, q: nat)
    requires p <= q
    ensures x * p <= x * q
  {
  }

  lemma WholeMultiple(m: int, p: nat)
    requires p > 0 && m * p >= 0
    ensures (m * p) % p == 0
  {
    if m < 0 { MultipleBound(m, p); }
    DivModUnique(m * p, p, m, 0);
  }

  lemma PowNineteen()
    ensures Pow10(18) == 1_000_000_000_000_000_000 && Pow10(19) > INT64_MAX
  {
    assert Pow10(6) == 1_000_000;
    PowAdd(6, 6);
    PowAdd(12, 6);
    PowAdd(18, 1);
  }

  // ----- the clamp's limit, concretely -----

  /** 0.00...01e1001 with a thousand decimals is ten, and parses as one. */
  lemma ClampedExponentIsWrong() returns (t: Token)
    ensures WellFormed(t) && Parse(Spelling(t), 0) == ParseResult(1, Ok) && !Denotes(t, 0, 1)
  {
    hide Scan, Spelling, Pow10, Padded, DenotesWith;
    var fraction := Padded(1, 1000);
    t := Token("", "0", true, fraction, Exponent('e', "", "1001"));
    SpelledNumbers();
    ScanComplete(t);
    OneAfterZeros(fraction, 1000);
    assert Spelling(t) != "" by { if Spelling(t) == "" { EmptyNeverScans(); } }
    assert Parse(Spelling(t), 0) == Convert(t, 0);
    assert Pow10(0) == 1 by { PowZero(); }
    ExactIffExponentInRange(Spelling(t), 0);
  }

  /** 0.00...01e1001 with a thousand and one decimals is one, and is refused as imprecise. */
  lemma ClampedExponentIsRefused() returns (t: Token)
    ensures WellFormed(t) && Parse(Spelling(t), 0) == ParseResult(0, PrecisionLoss) && Denotes(t, 0, 1)
  {
    hide Scan, Spelling, Pow10, Padded, Denotes, Convert;
    var fraction := Padded(1, 1001);
    t := Token("", "0", true, fraction, Exponent('e', "", "1001"));
    SpelledNumbers();
    ScanComplete(t);
    OneAfterZeros(fraction, 1001);
    assert Spelling(t) != "" by { if Spelling(t) == "" { EmptyNeverScans(); } }
    OneIsRefused(t);
    PowZero();
    ExactMantissaDenotes(t, 0, 1);
  }

  lemma OneIsRefused(t: Token)
    requires WellFormed(t) && Significand(t) == 1 && ReadExponent(t) == 1000 && |t.fraction| == 1001
    ensures Convert(t, 0) == ParseResult(0, PrecisionLoss)
  {
    hide WellFormed, Significand, ReadExponent;
    assert Pow10(1) == 10;
  }

  lemma SpelledNumbers()
    ensures AllDigits("0") && Value("0") == 0
    ensures AllDigits("19") && Value("19") == 19
    ensures AllDigits("1001") && Value("1001") == 1001
  {
    hide Value;
    DigitsValue(0);
    DigitsValue(19);
    DigitsValue(1001);
    assert Digits(0) == "0" && Digits(1) == "1" && Digits(19) == "19";
    assert Digits(10) == "10";
    assert Digits(100) == "100";
    assert Digits(1001) == "1001";
  }

  /** "0e19" overflows, though it is zero. */
  lemma ZeroOverflows() returns (t: Token)
    ensures WellFormed(t) && Parse(Spelling(t), 0) == ParseResult(0, Overflow) && Denotes(t, 0, 0)
  {
    hide Scan, Spelling, Denotes;
    t := Token("", "0", false, "", Exponent('e', "", "19"));
    assert "0" + "" == "0";
    SpelledNumbers();
    ScanComplete(t);
    assert Spelling(t) != "" by { if Spelling(t) == "" { EmptyNeverScans(); } }
    ExactMantissaDenotes(t, 0, 0);
  }

  lemma PowZero()
    ensures Pow10(0) == 1
  {
  }

  lemma EmptyNeverScans()
    ensures Scan("").None?
  {
  }

  lemma OneAfterZeros(fraction: string, k: nat)
    requires k > 0 && fraction == Padded(1, k)
    ensures "0" + fraction != "" && Value("0" + fraction) == 1
  {
    hide Padded, Pow10;
    SplitDigits(1, k);
    PowStrict(0, k);
    PowZero();
    MultipleBound(DropDigits(1, k), Pow10(k));
    ValueConcat("0", fraction);
    assert "0"[..0] == "";
    assert Value("0") == 0;
  }

  // ----- formatting -----

  function Magnitude(m: int): nat { if m < 0 then -m else m }

  function FormatToken(m: int, scale: nat): Token {
    var mag := Magnitude(m);
    Token(if m < 0 then "-" else "", Digits(DropDigits(mag, scale)), scale > 0, Padded(mag, scale), NoExponent)
  }

  /** The canonical spelling: trailing zeros kept, at least one digit before the point. */
  function Format(m: int, scale: nat): string {
    (if m < 0 then "-" else "") + Digits(DropDigits(Magnitude(m), scale)) + (if scale > 0 then "." else "")
        + Padded(Magnitude(m), scale)
  }

  lemma FormatSpellsToken(m: int, scale: nat)
    ensures WellFormed(FormatToken(m, scale)) && Spelling(FormatToken(m, scale)) == Format(m, scale)
    ensures Significand(FormatToken(m, scale)) == Magnitude(m)
  {
    var mag, t := Magnitude(m), FormatToken(m, scale);
    assert scale == 0 ==> t.fraction == "";
    SplitDigits(mag, scale);
    DigitsValue(DropDigits(mag, scale));
    ValueConcat(t.whole, t.fraction);
  }

  /** Formatting and parsing undo each other, on every mantissa but INT64_MIN, whose spelling overflows. */
  lemma FormatParses(m: int, scale: nat)
    requires INT64_MIN <= m <= INT64_MAX && scale <= MAX_SCALE
    ensures Parse(Format(m, scale), scale) ==
            if m == INT64_MIN then ParseResult(0, Overflow) else ParseResult(m, Ok)
  {
    hide Scan, Spelling, Digits, Padded;
    var t := FormatToken(m, scale);
    FormatSpellsToken(m, scale);
    ScanComplete(t);
    NeverEmpty(m, scale);
    assert Pow10(0) == 1;
  }

  lemma NeverEmpty(m: int, scale: nat)
    ensures Format(m, scale) != ""
  {
  }

  /** Different mantissas have different spellings. */
  lemma FormatIsInjective(m: int, n: int, scale: nat)
    requires INT64_MIN <= m <= INT64_MAX && INT64_MIN <= n <= INT64_MAX && scale <= MAX_SCALE
    requires Format(m, scale) == Format(n, scale)
    ensures m == n
  {
    hide Format, Parse;
    FormatParses(m, scale);
    FormatParses(n, scale);
  }

  /** A leading plus carries no information. */
  function WithoutPlus(text: string): string {
    if text != "" && text[0] == '+' then text[1..] else text
  }

  /** Spelled exactly as formatting would spell the value it parses to. */
  predicate IsCanonical(text: string, scale: nat) {
    var s := WithoutPlus(text);
    Parse(s, scale).error == Ok && Format(Parse(s, scale).mantissa, scale) == s
  }

  /** The canonical texts are exactly the spellings of representable mantissas above INT64_MIN. */
  lemma CanonicalTexts(text: string, scale: nat)
    requires scale <= MAX_SCALE
    ensures IsCanonical(text, scale) <==>
            exists m :: INT64_MIN < m <= INT64_MAX && WithoutPlus(text) == Format(m, scale)
  {
    hide Format, Parse;
    var s := WithoutPlus(text);
    if IsCanonical(text, scale) {
      ParsedFits(s, scale);
    }
    forall m | INT64_MIN < m <= INT64_MAX && s == Format(m, scale) ensures IsCanonical(text, scale) {
      FormatParses(m, scale);
    }
  }

  /** What digits mean: place value, most significant first. */
  lemma PlaceValue()
    ensures Value("120") == 120 && Digits(120) == "120" && Padded(7, 3) == "007" && StripZeros("0070") == "70"
  {
    hide Value, Digits, Padded, StripZeros;
    ValueOfTwelveTens();
    DigitsOfTwelveTens();
    PaddedSeven();
    StrippedSeventy();
  }

  lemma ValueOfTwelveTens()
    ensures Value("120") == 120
  {
    hide Value;
    ValueOfNone("120"[0..0]);
    ValueNext("120", 0, 0);
    ValueNext("120", 0, 1);
    ValueNext("120", 0, 2);
    assert "120"[0..3] == "120";
  }

  lemma DigitsOfTwelveTens()
    ensures Digits(120) == "120"
  {
    assert Digits(1) == "1";
    assert Digits(12) == "12";
  }

  lemma PaddedSeven()
    ensures Padded(7, 3) == "007"
  {
    assert Padded(0, 1) == "0";
    assert Padded(0, 2) == "00";
  }

  lemma StrippedSeventy()
    ensures StripZeros("0070") == "70"
  {
    assert "0070"[1..] == "070" && "070"[1..] == "70";
  }

  /** Twelve and a half at two places. */
  lemma TwelveAndAHalf()
    ensures Format(-1250, 2) == "-12.50" && Parse("-12.50", 2) == ParseResult(-1250, Ok)
  {
    hide Parse;
    assert DropDigits(1250, 2) == 12 by { assert DropDigits(125, 1) == DropDigits(12, 0); }
    assert Digits(12) == "12" by { assert Digits(1) == "1"; }
    assert Padded(1250, 2) == "50" by { assert Padded(125, 1) == Padded(12, 0) + "5"; }
    FormatParses(-1250, 2);
  }

  /** Which complaint comes first: the scale, then an empty text, then what no token spells. */
  lemma ComplaintsInOrder(text: string, scale: nat)
    ensures Parse(text, scale).error == ScaleTooLarge <==> scale > 18
    ensures Parse(text, scale).error == Empty <==> scale <= 18 && text == ""
    ensures Parse(text, scale).error == Malformed <==> scale <= 18 && text != "" && Scan(text).None?
    ensures Parse(text, scale).error != Ok ==> Parse(text, scale).mantissa == 0
  {
    hide Scan;
  }

  /** Which tokens are numbers here, by their characters: a sign or none, digits before or after the
      point, and an exponent of at least one digit after either e. */
  lemma TokensAre(sign: string, whole: string, fraction: string, marker: char, esign: string, digits: string)
    ensures WellFormed(Token(sign, whole, true, fraction, NoExponent)) <==>
              && sign in ["", "+", "-"] && (whole != "" || fraction != "")
              && (forall i :: 0 <= i < |whole| ==> '0' <= whole[i] <= '9')
              && (forall i :: 0 <= i < |fraction| ==> '0' <= fraction[i] <= '9')
    ensures WellFormed(Token("", "1", false, "", Exponent(marker, esign, digits))) <==>
              && marker in ['e', 'E'] && esign in ["", "+", "-"] && digits != ""
              && (forall i :: 0 <= i < |digits| ==> '0' <= digits[i] <= '9')
    ensures WellFormed(Token(sign, whole, false, "", NoExponent)) <==>
              && sign in ["", "+", "-"] && whole != ""
              && (forall i :: 0 <= i < |whole| ==> '0' <= whole[i] <= '9')
    ensures Spelling(Token(sign, whole, true, fraction, Exponent(marker, esign, digits)))
         == sign + whole + "." + fraction + ([marker] + esign + digits)
    ensures Spelling(Token(sign, whole, false, "", NoExponent)) == sign + whole
  {
  }

  predicate DoublySigned(text: string) { |text| >= 2 && text[0] == '+' && text[1] == '-' }

  /** A canonical text itself parses, and to the same mantissa, exactly when the plus it may start
      with is not followed by a minus. */
  lemma CanonicalParsesIff(text: string, scale: nat)
    requires scale <= MAX_SCALE && IsCanonical(text, scale)
    ensures Parse(text, scale) ==
            if DoublySigned(text) then ParseResult(0, Malformed) else Parse(WithoutPlus(text), scale)
  {
    hide Scan, Convert, Spelling, WellFormed, Format, FormatToken;
    var s := WithoutPlus(text);
    var m := Parse(s, scale).mantissa;
    var t := FormatToken(m, scale);
    FormatSpellsToken(m, scale);
    if text != s {
      assert text == "+" + s;
      FormatStarts(m, scale);
      if m < 0 {
        NoSecondSign(text);
      } else {
        PlusSpells(t, scale);
      }
    }
  }

  lemma FormatStarts(m: int, scale: nat)
    ensures |Format(m, scale)| > 0 && (Format(m, scale)[0] == '-' <==> m < 0)
    ensures FormatToken(m, scale).sign == if m < 0 then "-" else ""
  {
    hide Digits, Padded;
    FormatSpellsToken(m, scale);
    var t := FormatToken(m, scale);
    if m >= 0 && t.whole != "" { assert IsDigit(t.whole[0]) && Format(m, scale)[0] == t.whole[0]; }
  }

  lemma NoSecondSign(text: string)
    requires DoublySigned(text)
    ensures Scan(text).None?
  {
    RunEndOf(text, 1, 1);
  }

  lemma PlusSpells(t: Token, scale: nat)
    requires WellFormed(t) && t.sign == "" && scale <= MAX_SCALE && Spelling(t) != ""
    ensures Parse("+" + Spelling(t), scale) == Parse(Spelling(t), scale)
  {
    hide Scan;
    var plus := t.(sign := "+");
    PlusInFront(t);
    ScanComplete(t);
    ScanComplete(plus);
  }

  lemma PlusInFront(t: Token)
    requires t.sign == ""
    ensures Spelling(t.(sign := "+")) == "+" + Spelling(t)
  {
  }

  /** Plus and minus together pass for canonical and do not parse. */
  lemma PlusMinusFive()
    ensures IsCanonical("+-5", 0) && Parse("+-5", 0).error == Malformed
  {
    hide Parse, Format;
    assert Format(-5, 0) == "-5" by { MinusFive(); }
    FormatParses(-5, 0);
    CanonicalParsesIff("+-5", 0);
  }

  lemma MinusFive()
    ensures Format(-5, 0) == "-5"
  {
  }

  lemma ParsedFits(text: string, scale: nat)
    requires Parse(text, scale).error == Ok
    ensures -INT64_MAX <= Parse(text, scale).mantissa <= INT64_MAX
  {
    hide Scan, WellFormed, Value, Pow10, Significand, ReadExponent;
    ScanSound(text);
    var t := Scan(text).value;
    var shift := scale + ReadExponent(t) - |t.fraction|;
    if 0 < -shift <= MAX_SCALE {
      QuotientBound(Significand(t), Pow10(-shift));
    }
  }

  lemma QuotientBound(x: nat, p: nat)
    requires p > 0
    ensures 0 <= x / p <= x
  {
    var q := x / p;
    assert x == q * p + x % p;
    AtLeastOnce(q, p);
  }

  lemma AtLeastOnce(q: nat, p: nat)
    requires p > 0
    ensures q * p >= q
  {
    assert q * p == q * (p - 1) + q;
  }

  // ----- the checksum token -----

  /** The text without its point. */
  function DeletePoint(s: string): string {
    if s == "" then "" else (if s[0] == '.' then "" else [s[0]]) + DeletePoint(s[1..])
  }

  lemma {:induction false} DeletePointDigits(s: string)
    requires AllDigits(s)
    ensures DeletePoint(s) == s
  {
    if s != "" { DeletePointDigits(s[1..]); }
  }

  lemma {:induction false} DeletePointConcat(a: string, b: string)
    ensures DeletePoint(a + b) == DeletePoint(a) + DeletePoint(b)
  {
    if a == "" {
      assert a + b == b;
    } else {
      assert (a + b)[1..] == a[1..] + b;
      DeletePointConcat(a[1..], b);
    }
  }

  /** Deleting the point and the leading zeros from a canonical spelling leaves exactly the decimal
      digits of the mantissa - of every mantissa but zero, of which nothing is left. */
  lemma TokenIsMantissaDigits(m: nat, scale: nat)
    ensures StripZeros(DeletePoint(Format(m, scale))) == if m > 0 then Digits(m) else ""
  {
    hide Digits, Padded, DropDigits, DeletePoint, Value, StripZeros, Pow10;
    var whole, fraction := Digits(DropDigits(m, scale)), Padded(m, scale);
    var dot := if scale > 0 then "." else "";
    assert Format(m, scale) == whole + dot + fraction;
    DeletePointConcat(whole + dot, fraction);
    DeletePointConcat(whole, dot);
    DeletePointDigits(whole);
    DeletePointDigits(fraction);
    DeletePointAlone(dot);
    assert whole + "" == whole;
    DigitsValue(DropDigits(m, scale));
    SplitDigits(m, scale);
    ValueConcat(whole, fraction);
    if m > 0 { StripZerosIsShortest(whole + fraction); } else { ZeroStripsToNothing(whole + fraction); }
  }

  lemma {:induction false} ZeroStripsToNothing(s: string)
    requires AllDigits(s) && Value(s) == 0
    ensures StripZeros(s) == ""
  {
    if s != "" {
      assert s == s[..1] + s[1..] && s[..1][..0] == "";
      ValueConcat(s[..1], s[1..]);
      SumOfNothing(Value(s[..1]), Pow10(|s[1..]|), Value(s[1..]));
      assert Value(s[..1]) == DigitValue(s[0]);
      ZeroStripsToNothing(s[1..]);
    }
  }

  lemma SumOfNothing(x: nat, p: nat, y: nat)
    requires p > 0 && x * p + y == 0
    ensures x == 0 && y == 0
  {
    if x > 0 { AtLeastOnce(x, p); }
  }

  lemma DeletePointAlone(dot: string)
    requires dot == "." || dot == ""
    ensures DeletePoint(dot) == ""
  {
    if dot == "." { assert dot[1..] == ""; }
  }

  // ----- the imperative forms -----

  /** Multiplication of nonnegative int64 values with overflow detection by division. */
  function CheckedMul(a: int, b: int): (r: Option<int>)
    requires 0 <= a <= INT64_MAX && 0 <= b <= INT64_MAX
    ensures r == if a * b <= INT64_MAX then Some(a * b) else None
  {
    if a == 0 || b == 0 then Some(0)
    else
      DivisionTest(a, b);
      if a > INT64_MAX / b then None else Some(a * b)
  }

  lemma DivisionTest(a: nat, b: nat)
    requires b > 0
    ensures a > INT64_MAX / b <==> a * b > INT64_MAX
  {
    var q, r := INT64_MAX / b, INT64_MAX % b;
    assert INT64_MAX == q * b + r;
    MultipleBound(a - q, b);
    assert (a - q) * b == a * b - q * b;
  }

  function CheckedAdd(a: int, b: int): (r: Option<int>)
    requires INT64_MIN <= a <= INT64_MAX && 0 <= b <= INT64_MAX
    ensures r == if a + b <= INT64_MAX then Some(a + b) else None
  {
    if a > INT64_MAX - b then None else Some(a + b)
  }

  /** `digits` holds the number `s` spells, or `overflowed` says it does not fit. */
  ghost predicate Tracks(s: string, digits: int, overflowed: bool) {
    && AllDigits(s) && 0 <= digits <= INT64_MAX
    && (if overflowed then Value(s) > INT64_MAX else Value(s) == digits)
  }

  lemma TracksNext(s: string, c: char, digits: int, overflowed: bool)
    requires Tracks(s, digits, overflowed) && IsDigit(c)
    ensures AllDigits(s + [c]) && Value(s + [c]) == 10 * Value(s) + DigitValue(c)
  {
    assert (s + [c])[..|s|] == s;
  }

  /** One run of digits, accumulated onto those already read. */
  method TakeRun(text: string, from: nat, soFar: int, overflow: bool, ghost read: string)
    returns (i: nat, digits: int, overflowed: bool)
    requires from <= |text| && Tracks(read, soFar, overflow)
    ensures from <= |text| && i == RunEnd(text, from)
    ensures Tracks(read + text[from..i], digits, overflowed)
  {
    i, digits, overflowed := from, soFar, overflow;
    assert read + text[from..from] == read;
    while i < |text| && IsDigit(text[i])
      invariant from <= i <= |text|
      invariant AllDigits(text[from..i])
      invariant Tracks(read + text[from..i], digits, overflowed)
    {
      TracksNext(read + text[from..i], text[i], digits, overflowed);
      assert read + text[from..i] + [text[i]] == read + text[from..i + 1];
      assert text[from..i] + [text[i]] == text[from..i + 1];
      if !overflowed {
        var scaled := CheckedMul(digits, 10);
        if scaled.None? {
          overflowed := true;
        } else {
          var sum := CheckedAdd(scaled.value, DigitValue(text[i]));
          if sum.None? { overflowed := true; } else { digits := sum.value; }
        }
      }
      i := i + 1;
    }
    RunEndOf(text, from, i);
  }

  /** The digits of the exponent, clamped at 1000 as they are read. */
  method TakeExponent(text: string, from: nat) returns (i: nat, exponent: int)
    requires from <= |text|
    ensures from <= |text| && i == RunEnd(text, from) && exponent == Min(Value(text[from..i]), MAX_EXPONENT)
  {
    hide Value, AllDigits, RunEnd;
    i, exponent := from, 0;
    ValueOfNone(text[from..from]);
    while i < |text| && IsDigit(text[i])
      invariant from <= i <= |text| && AllDigits(text[from..i])
      invariant exponent == Min(Value(text[from..i]), MAX_EXPONENT)
    {
      ValueNext(text, from, i);
      exponent := exponent * 10 + DigitValue(text[i]);
      if exponent > MAX_EXPONENT {
        exponent := MAX_EXPONENT;
      }
      i := i + 1;
    }
    RunEndOf(text, from, i);
  }

  /** The optional exponent, which must end the text; None when it is malformed. */
  method TakeExponentPart(text: string, end: nat) returns (exponent: Option<int>)
    requires end <= |text|
    ensures exponent.Some? == ScanExponent(text, end).Some?
    ensures exponent.Some? ==>
              ExponentDigits(ScanExponent(text, end).value)
              && exponent.value == ClampedExponent(ScanExponent(text, end).value)
  {
    hide RunEnd, Value;
    if end == |text| {
      return Some(0);
    }
    if text[end] != 'e' && text[end] != 'E' {
      return None;
    }
    var sign := SignAt(text, end + 1);
    var from := end + 1 + |sign|;
    var stop, exponent' := TakeExponent(text, from);
    if stop == from || stop != |text| {
      return None;
    }
    assert text[from..stop] == text[from..];
    exponent := Some(if sign == "-" then -exponent' else exponent');
  }

  lemma TracksNothing()
    ensures Tracks("", 0, false)
  {
  }

  method ParseFixed(text: string, scale: nat) returns (r: ParseResult)
    ensures r == Parse(text, scale)
  {
    hide RunEnd, SignAt, ScanExponent, Value, Convert, ClampedExponent, ExponentDigits;
    if scale > MAX_SCALE {
      return ParseResult(0, ScaleTooLarge);
    }
    if text == "" {
      return ParseResult(0, Empty);
    }
    TracksNothing();
    var sign := SignAt(text, 0);
    var wholeEnd, digits, overflowed := TakeRun(text, |sign|, 0, false, "");
    ghost var whole := text[|sign|..wholeEnd];
    assert "" + whole == whole;
    var from, end := wholeEnd, wholeEnd;
    assert whole + text[from..end] == whole;
    if wholeEnd < |text| && text[wholeEnd] == '.' {
      from := wholeEnd + 1;
      end, digits, overflowed := TakeRun(text, from, digits, overflowed, whole);
    }
    if wholeEnd == |sign| && end == from {
      return ParseResult(0, Malformed);
    }
    var exponent := TakeExponentPart(text, end);
    if exponent.None? {
      return ParseResult(0, Malformed);
    }
    ghost var t := Scan(text).value;
    ScanSound(text);
    r := Rescale(digits, overflowed, sign == "-", scale + exponent.value - (end - from), t, scale);
  }

  /** The last step of parsing: move the mantissa to the target scale. */
  method Rescale(digits: int, overflowed: bool, negative: bool, shift: int, ghost t: Token, ghost scale: nat)
    returns (r: ParseResult)
    requires WellFormed(t) && scale <= MAX_SCALE && Tracks(t.whole + t.fraction, digits, overflowed)
    requires negative == (t.sign == "-") && shift == scale + ReadExponent(t) - |t.fraction|
    ensures r == Convert(t, scale)
  {
    hide WellFormed, ReadExponent, Pow10, Value;
    if overflowed {
      return ParseResult(0, Overflow);
    }
    var mantissa := digits;
    if shift > 0 {
      if shift > MAX_SCALE {
        return ParseResult(0, Overflow);
      }
      PowFits(shift);
      var product := CheckedMul(mantissa, Pow10(shift));
      if product.None? {
        return ParseResult(0, Overflow);
      }
      mantissa := product.value;
    } else if shift < 0 {
      var drop := -shift;
      if drop > MAX_SCALE {
        return if digits == 0 then ParseResult(0, Ok) else ParseResult(0, PrecisionLoss);
      }
      var divisor := Pow10(drop);
      if mantissa % divisor != 0 {
        return ParseResult(0, PrecisionLoss);
      }
      mantissa := mantissa / divisor;
    } else {
      PowZero();
    }
    r := ParseResult(if negative then -mantissa else mantissa, Ok);
  }

  lemma PowFits(k: nat)
    requires k <= MAX_SCALE
    ensures Pow10(k) <= INT64_MAX
  {
    PowNineteen();
    if k < 18 { PowStrict(k, 18); }
  }

  const MAX_FORMATTED: nat := 24

  /** The magnitude taken in unsigned space, where negating INT64_MIN is defined. */
  function UnsignedMagnitude(m: int): (mag: nat)
    requires INT64_MIN <= m <= INT64_MAX
    ensures mag == Magnitude(m)
  {
    var bits := m % U64_MODULUS;
    if m < 0 then (0 - bits) % U64_MODULUS else bits
  }

  /** The last `scale` digits of `mag`, written backwards from the end of `buf`. */
  method FractionInto(mag: nat, scale: nat, buf: array<char>) returns (pos: nat, rest: nat)
    requires scale <= buf.Length
    modifies buf
    ensures pos == buf.Length - scale && buf[pos..] == Padded(mag, scale) && rest == DropDigits(mag, scale)
  {
    hide Padded, DropDigits, DigitChar;
    pos, rest := buf.Length, mag;
    PaddedNothing(mag);
    var i := 0;
    while i < scale
      invariant 0 <= i <= scale && pos == buf.Length - i
      invariant buf[pos..] == Padded(mag, i)
      invariant rest == DropDigits(mag, i)
    {
      DropOneMore(mag, i);
      NextPadded(mag, i);
      pos := PutBefore(rest % 10, pos, buf);
      rest := rest / 10;
      i := i + 1;
    }
  }

  lemma PaddedNothing(n: nat)
    ensures Padded(n, 0) == "" && DropDigits(n, 0) == n
  {
  }

  /** One digit in front of what is written. */
  method PutBefore(digit: nat, end: nat, buf: array<char>) returns (pos: nat)
    requires digit < 10 && 0 < end <= buf.Length
    modifies buf
    ensures pos == end - 1 && buf[pos..] == [DigitChar(digit)] + old(buf[end..])
  {
    pos := end - 1;
    buf[pos] := DigitChar(digit);
  }

  /** Writes the canonical spelling backwards into the end of `buf`; it starts at `pos`. */
  method FormatInto(mantissa: int64, scale: nat, buf: array<char>) returns (pos: nat)
    requires scale <= MAX_SCALE && buf.Length == MAX_FORMATTED
    modifies buf
    ensures pos <= MAX_FORMATTED && buf[pos..] == Format(mantissa, scale)
  {
    hide Padded, DropDigits, Digits;
    var magnitude := UnsignedMagnitude(mantissa);
    WholeFits(magnitude, scale);
    ghost var fraction := Padded(magnitude, scale);
    ghost var whole := Digits(DropDigits(magnitude, scale));
    var rest;
    pos, rest := FractionInto(magnitude, scale, buf);
    if scale > 0 {
      pos := pos - 1;
      buf[pos] := '.';
    }
    ghost var after := (if scale > 0 then "." else "") + fraction;
    assert buf[pos..] == after;
    pos := DigitsInto(rest, pos, buf);
    assert buf[pos..] == whole + after;
    if mantissa < 0 {
      pos := pos - 1;
      buf[pos] := '-';
    }
    ghost var sign := if mantissa < 0 then "-" else "";
    assert buf[pos..] == sign + (whole + after);
    FormatIs(mantissa, scale);
  }

  lemma FormatIs(m: int, scale: nat)
    ensures Format(m, scale) ==
            (if m < 0 then "-" else "")
            + (Digits(DropDigits(Magnitude(m), scale))
                + ((if scale > 0 then "." else "") + Padded(Magnitude(m), scale)))
  {
    hide Padded, DropDigits, Digits;
  }

  lemma {:induction false} DropOneMore(n: nat, i: nat)
    ensures DropDigits(n, i + 1) == DropDigits(n, i) / 10
  {
    if i > 0 { DropOneMore(n / 10, i - 1); }
  }

  /** Padding from the left: one more digit is the lowest of what was dropped. */
  lemma {:induction false} NextPadded(n: nat, i: nat)
    ensures Padded(n, i + 1) == [DigitChar(DropDigits(n, i) % 10)] + Padded(n, i)
  {
    if i > 0 {
      NextPadded(n / 10, i - 1);
    } else {
      assert Padded(n / 10, 0) == "";
    }
  }

  /** The shortest digits of `n`, written backwards to end before `end`; at least one digit. */
  method DigitsInto(n: nat, end: nat, buf: array<char>) returns (pos: nat)
    requires |Digits(n)| <= end <= buf.Length
    modifies buf
    ensures pos == end - |Digits(n)|
    ensures buf[pos..] == Digits(n) + old(buf[end..])
  {
    hide Digits, DigitChar;
    NextDigit(n);
    ghost var tail := buf[end..];
    var rest := n;
    pos := PutBefore(rest % 10, end, buf);
    rest := rest / 10;
    while rest != 0
      invariant pos + 1 <= end && |Digits(n)| == |Rest(rest)| + end - pos
      invariant Digits(n) + tail == Rest(rest) + buf[pos..]
    {
      NextDigit(rest);
      ghost var before := buf[pos..];
      assert Digits(rest) + before == Rest(rest / 10) + ([DigitChar(rest % 10)] + before);
      pos := PutBefore(rest % 10, pos, buf);
      rest := rest / 10;
    }
  }

  /** The digits still to write: none once the number is used up. */
  ghost function Rest(n: nat): string { if n == 0 then "" else Digits(n) }

  lemma NextDigit(n: nat)
    ensures Digits(n) == Rest(n / 10) + [DigitChar(n % 10)]
  {
  }

  lemma {:induction false} DigitsLength(n: nat, k: nat)
    requires k > 0 && n < Pow10(k)
    ensures |Digits(n)| <= k
  {
    assert Pow10(1) == 10 * Pow10(0);
    if n >= 10 {
      DigitsLength(n / 10, k - 1);
    }
  }

  /** The whole part has room: padding to a scale never adds a digit. */
  lemma WholeFits(mag: nat, scale: nat)
    requires mag <= INT64_MAX + 1 && scale <= MAX_SCALE
    ensures |Digits(DropDigits(mag, scale))| <= 19 - scale
  {
    PowNineteen();
    DropBound(mag, scale, 19 - scale);
    DigitsLength(DropDigits(mag, scale), 19 - scale);
  }

  lemma {:induction false} DropBound(n: nat, k: nat, j: nat)
    requires n < Pow10(k + j)
    ensures DropDigits(n, k) < Pow10(j)
  {
    if k > 0 { DropBound(n / 10, k - 1, j); }
  }

  method IsCanonicalAtScale(text: string, scale: nat) returns (ok: bool)
    ensures ok == IsCanonical(text, scale)
  {
    hide Parse, Format;
    var s := WithoutPlus(text);
    var parsed := ParseFixed(s, scale);
    if parsed.error != Ok {
      return false;
    }
    ParsedFits(s, scale);
    ScaleAccepted(s, scale);
    var buf := new char[MAX_FORMATTED](_ => '0');
    var pos := FormatInto(parsed.mantissa, scale, buf);
    ok := buf[pos..] == s;
  }

  lemma ScaleAccepted(text: string, scale: nat)
    requires Parse(text, scale).error == Ok
    ensures scale <= MAX_SCALE
  {
  }
}
