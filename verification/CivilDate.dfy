/** Civil dates as day counts, and timestamps as nanoseconds since the epoch. */
module CivilDate {
  import opened CoreTypes
  import opened Decimal
  import opened Fixed
  import opened Checked

  // ----- the calendar -----

  datatype Date = Date(year: int, month: nat, day: nat)

  predicate Divides(k: nat, y: int)
    requires k > 0
  {
    y % k == 0
  }

  predicate Leap(y: int) { Divides(4, y) && (!Divides(100, y) || Divides(400, y)) }

  function DaysInMonth(y: int, m: nat): nat {
    if m == 2 then if Leap(y) then 29 else 28
    else if m == 4 || m == 6 || m == 9 || m == 11 then 30
    else 31
  }

  predicate IsDate(d: Date) { 1 <= d.month <= 12 && 1 <= d.day <= DaysInMonth(d.year, d.month) }

  /** The next day of the proleptic Gregorian calendar. */
  function Tomorrow(d: Date): Date {
    if d.day < DaysInMonth(d.year, d.month) then d.(day := d.day + 1)
    else if d.month < 12 then Date(d.year, d.month + 1, 1)
    else Date(d.year + 1, 1, 1)
  }

  const EPOCH: Date := Date(1970, 1, 1)

  // ----- the formula -----

  /** Days from 1970-01-01, counting years from March; the machine's division truncates. */
  function DaysFromCivil(year: int, m: nat, d: nat): int
    requires 1 <= m <= 12 && d >= 1
  {
    var y := if m <= 2 then year - 1 else year;
    var era := TruncDiv(if y >= 0 then y else y - 399, 400);
    var yoe := y - era * 400;
    var doy := (153 * (if m > 2 then m - 3 else m + 9) + 2) / 5 + d - 1;
    var doe := yoe * 365 + yoe / 4 - yoe / 100 + doy;
    era * 146097 + doe - 719468
  }

  function Days(d: Date): int
    requires IsDate(d)
  {
    DaysFromCivil(d.year, d.month, d.day)
  }

  /** The truncating division comes out as a floor, so the year of the era is never negative. */
  lemma EraIsFloor(y: int)
    ensures TruncDiv(if y >= 0 then y else y - 399, 400) == y / 400
  {
  }

  /** The day count of 1 March, up to a constant. */
  function FirstOfMarch(y: int): int { 365 * y + Multiples(y, 4) - Multiples(y, 100) + Multiples(y, 400) }

  function Multiples(y: int, k: nat): int
    requires k > 0
  {
    y / k
  }

  lemma DaysIs(year: int, m: nat, d: nat)
    requires 1 <= m <= 12 && d >= 1
    ensures var y := if m <= 2 then year - 1 else year;
            DaysFromCivil(year, m, d)
              == FirstOfMarch(y) + (153 * (if m > 2 then m - 3 else m + 9) + 2) / 5 + d - 1 - 719468
  {
    var y := if m <= 2 then year - 1 else year;
    EraIsFloor(y);
    EraSplit(y);
  }

  lemma EraSplit(y: int)
    ensures var era, yoe := y / 400, y % 400;
            FirstOfMarch(y) == era * 146097 + yoe * 365 + yoe / 4 - yoe / 100
  {
    var era, yoe := y / 400, y % 400;
    assert y == 400 * era + yoe;
    assert y / 4 == 100 * era + yoe / 4;
    assert y / 100 == 4 * era + yoe / 100;
  }

  /** A year from March to March holds the leap day of the February that ends it. */
  lemma YearLength(y: int)
    ensures FirstOfMarch(y) == FirstOfMarch(y - 1) + (if Leap(y) then 366 else 365)
  {
    hide Multiples, Divides;
    OneMoreMultiple(y, 4);
    OneMoreMultiple(y, 100);
    OneMoreMultiple(y, 400);
    Nested(y);
  }

  lemma Nested(y: int)
    ensures Divides(400, y) ==> Divides(100, y)
    ensures Divides(100, y) ==> Divides(4, y)
  {
    Multiple(y, 400, 100, 4);
    Multiple(y, 100, 4, 25);
  }

  lemma Multiple(y: int, k: nat, part: nat, times: nat)
    requires k > 0 && part > 0 && k == part * times
    ensures Divides(k, y) ==> Divides(part, y)
  {
    if Divides(k, y) {
      var q := y / k;
      assert y == k * q;
      Regroup(part, times, q);
      Exact(times * q, part);
    }
  }

  lemma Regroup(a: int, b: int, c: int)
    ensures a * b * c == (b * c) * a
  {
  }

  lemma Exact(n: int, d: nat)
    requires d > 0
    ensures (n * d) % d == 0
  {
    var r, q := (n * d) % d, (n * d) / d;
    assert n * d == q * d + r;
    assert (n - q) * d == n * d - q * d;
    MultipleBound(n - q, d);
  }

  lemma OneMoreMultiple(y: int, k: nat)
    requires k == 4 || k == 100 || k == 400
    ensures Multiples(y, k) == Multiples(y - 1, k) + (if Divides(k, y) then 1 else 0)
  {
  }

  lemma EpochIsZero()
    ensures Days(EPOCH) == 0
  {
    DaysIs(1970, 1, 1);
  }

  /** Each day is one more than the day before it, across month ends, leap years, centuries,
      400-year eras and the year zero. */
  lemma TomorrowIsOneMore(d: Date)
    requires IsDate(d)
    ensures IsDate(Tomorrow(d)) && Days(Tomorrow(d)) == Days(d) + 1
  {
    hide FirstOfMarch, DaysFromCivil;
    var t := Tomorrow(d);
    DaysIs(d.year, d.month, d.day);
    DaysIs(t.year, t.month, t.day);
    YearLength(d.year);
  }

  /** The range check admits days up to 31 in any month; one past the month's end is read as the
      day it runs over to. */
  lemma ImpossibleDayRollsOver(d: Date, day: nat)
    requires IsDate(d) && d.month < 12 && DaysInMonth(d.year, d.month) < day <= 31
    ensures var over := Date(d.year, d.month + 1, day - DaysInMonth(d.year, d.month));
            IsDate(over) && DaysFromCivil(d.year, d.month, day) == Days(over)
  {
    hide FirstOfMarch, DaysFromCivil;
    DaysIs(d.year, d.month, day);
    DaysIs(d.year, d.month + 1, day - DaysInMonth(d.year, d.month));
    YearLength(d.year);
  }

  /** Some date of the written year and month has the number the parser computes exactly when the
      month has that day. */
  lemma NamesADayIff(y: int, m: nat, day: nat)
    requires 1 <= m <= 12 && 1 <= day <= 31
    ensures (exists d: Date :: IsDate(d) && d.year == y && d.month == m && Days(d) == DaysFromCivil(y, m, day))
            <==> day <= DaysInMonth(y, m)
  {
    hide DaysFromCivil;
    if day <= DaysInMonth(y, m) {
      assert IsDate(Date(y, m, day));
    } else {
      var over := RolledOver(y, m, day);
      RollsOver(y, m, day);
      forall d | IsDate(d) && d.year == y && d.month == m ensures Days(d) != DaysFromCivil(y, m, day) {
        DaysAreOrdered(d, over);
      }
    }
  }

  /** The date a written day stands for: itself, or the one it runs over to. */
  function RolledOver(y: int, m: nat, day: nat): Date {
    if day <= DaysInMonth(y, m) then Date(y, m, day) else Date(y, m + 1, day - DaysInMonth(y, m))
  }

  lemma RollsOver(y: int, m: nat, day: nat)
    requires 1 <= m <= 12 && 1 <= day <= 31
    ensures IsDate(RolledOver(y, m, day)) && Days(RolledOver(y, m, day)) == DaysFromCivil(y, m, day)
  {
    hide DaysFromCivil;
    if day > DaysInMonth(y, m) { ImpossibleDayRollsOver(Date(y, m, 1), day); }
  }

  function Later(n: nat): Date { if n == 0 then EPOCH else Tomorrow(Later(n - 1)) }

  /** The formula counts days: the date it numbers n is the one n days after the epoch. */
  lemma {:induction false} DaysCountsDays(n: nat)
    ensures IsDate(Later(n)) && Days(Later(n)) == n
  {
    hide DaysFromCivil;
    if n == 0 {
      EpochIsZero();
    } else {
      DaysCountsDays(n - 1);
      TomorrowIsOneMore(Later(n - 1));
    }
  }

  predicate Earlier(a: Date, b: Date) {
    a.year < b.year || (a.year == b.year && (a.month < b.month || (a.month == b.month && a.day < b.day)))
  }

  /** Calendar order is numeric order, so no two dates share a number. */
  lemma {:induction false} DaysAreOrdered(a: Date, b: Date)
    requires IsDate(a) && IsDate(b) && Earlier(a, b)
    ensures Days(a) < Days(b)
    decreases b.year - a.year, 12 - a.month, 31 - a.day
  {
    hide DaysFromCivil;
    var t := Tomorrow(a);
    TomorrowIsOneMore(a);
    if t != b {
      NothingBetween(a, b);
      DaysAreOrdered(t, b);
    }
  }

  lemma NothingBetween(a: Date, b: Date)
    requires IsDate(a) && IsDate(b) && Earlier(a, b) && Tomorrow(a) != b
    ensures Earlier(Tomorrow(a), b)
  {
  }

  // ----- timestamps -----

  function TakeDigits(s: string, pos: nat, n: nat): Option<nat> {
    if pos + n <= |s| && AllDigits(s[pos..pos + n]) then Some(Value(s[pos..pos + n])) else None
  }

  method TakeDigitsAt(s: string, pos: nat, n: nat) returns (value: Option<nat>)
    ensures value == TakeDigits(s, pos, n)
  {
    hide AllDigits, Value;
    if pos + n > |s| {
      return None;
    }
    var v := 0;
    ValueOfNone(s[pos..pos]);
    for i := 0 to n
      invariant AllDigits(s[pos..pos + i]) && v == Value(s[pos..pos + i])
    {
      if !IsDigit(s[pos + i]) {
        NotAllDigits(s, pos, pos + n, pos + i);
        return None;
      }
      ValueNext(s, pos, pos + i);
      v := v * 10 + DigitValue(s[pos + i]);
    }
    value := Some(v);
  }

  lemma NotAllDigits(s: string, from: nat, end: nat, i: nat)
    requires from <= i < end <= |s| && !IsDigit(s[i])
    ensures !AllDigits(s[from..end])
  {
    assert s[from..end][i - from] == s[i];
  }

  /** A time of day to the second, a fraction as written, and the two letters' case. */
  datatype Stamp = Stamp(
    year: nat, month: nat, day: nat, hour: nat, minute: nat, second: nat,
    fraction: Option<string>, t: char, z: char)

  predicate FieldsOk(s: Stamp) {
    && s.year < 10000 && 1 <= s.month <= 12 && 1 <= s.day <= 31
    && s.hour <= 23 && s.minute <= 59 && s.second <= 60
  }

  predicate StampOk(s: Stamp) {
    && FieldsOk(s)
    && (s.fraction.Some? ==> s.fraction.value != "" && AllDigits(s.fraction.value))
    && (s.t == 'T' || s.t == 't') && (s.z == 'Z' || s.z == 'z')
  }

  function FractionText(f: Option<string>): string { if f.Some? then "." + f.value else "" }

  function ClockText(s: Stamp): string {
    Padded(s.year, 4) + "-" + Padded(s.month, 2) + "-" + Padded(s.day, 2) + [s.t]
    + Padded(s.hour, 2) + ":" + Padded(s.minute, 2) + ":" + Padded(s.second, 2)
  }

  function StampText(s: Stamp): string { ClockText(s) + (FractionText(s.fraction) + [s.z]) }

  function Seconds(s: Stamp): int
    requires FieldsOk(s)
  {
    DaysFromCivil(s.year, s.month, s.day) * 86400 + s.hour * 3600 + s.minute * 60 + s.second
  }

  /** A fraction to nine digits: shorter ones are padded, longer ones truncated. */
  function FractionNanos(f: string): (n: nat)
    requires AllDigits(f)
    ensures n < 1_000_000_000
  {
    var k := Min(|f|, 9);
    ValueBound(f[..k]);
    NanosBound(Value(f[..k]), k);
    Value(f[..k]) * Pow10(9 - k)
  }

  lemma NanosBound(v: nat, k: nat)
    requires k <= 9 && v < Pow10(k)
    ensures 0 <= v * Pow10(9 - k) < 1_000_000_000
  {
    PowAdd(k, 9 - k);
    TenToNine();
    MultipleBound(v - Pow10(k), Pow10(9 - k));
    Differ(v, Pow10(k), Pow10(9 - k));
    ProductOfNats(v, Pow10(9 - k));
  }

  lemma Differ(a: int, b: int, p: int)
    ensures (a - b) * p == a * p - b * p
  {
  }

  lemma TenToNine()
    ensures Pow10(9) == 1_000_000_000
  {
    assert Pow10(3) == 1000;
    PowAdd(3, 3);
    PowAdd(6, 3);
  }

  const MAX_SECONDS: int := INT64_MAX / 1_000_000_000 - 1

  function Nanos(s: Stamp): Option<int>
    requires StampOk(s)
  {
    var seconds := Seconds(s);
    if seconds < 0 || seconds > MAX_SECONDS then None
    else Some(seconds * 1_000_000_000 + if s.fraction.Some? then FractionNanos(s.fraction.value) else 0)
  }

  /** A fraction of k digits is so many nanoseconds of the whole: exact up to nine digits, and rounded
      down beyond. */
  lemma FractionIsShare(f: string)
    requires AllDigits(f)
    ensures |f| <= 9 ==> FractionNanos(f) * Pow10(|f|) == Value(f) * 1_000_000_000
    ensures |f| > 9 ==> FractionNanos(f) == Value(f[..9])
  {
    hide Value, Pow10;
    var k := Min(|f|, 9);
    assert f[..|f|] == f;
    TenToNine();
    if |f| <= 9 {
      PowAdd(9 - k, k);
      Regroup(Value(f), Pow10(9 - k), Pow10(k));
    } else {
      PowZero();
    }
  }

  /** The range refused at its far end is less than two seconds short of what the count can hold. */
  lemma RangeIsNearlyFull(s: Stamp)
    requires StampOk(s) && Seconds(s) >= 0 && Nanos(s).None?
    ensures (Seconds(s) + 2) * 1_000_000_000 > INT64_MAX
  {
    hide Seconds, FractionNanos;
  }

  /** The nanosecond count always fits. */
  lemma NanosFit(s: Stamp)
    requires StampOk(s) && Nanos(s).Some?
    ensures 0 <= Nanos(s).value <= INT64_MAX
  {
    hide FractionNanos, Seconds;
  }

  /** The date, the time and the separators, before any fraction. */
  predicate ClockShape(text: string) {
    && |text| >= 19
    && AllDigits(text[0..4]) && text[4] == '-' && AllDigits(text[5..7]) && text[7] == '-' && AllDigits(text[8..10])
    && (text[10] == 'T' || text[10] == 't')
    && AllDigits(text[11..13]) && text[13] == ':' && AllDigits(text[14..16]) && text[16] == ':'
        && AllDigits(text[17..19])
  }

  function ClockOf(text: string): Stamp
    requires ClockShape(text)
  {
    Stamp(Value(text[0..4]), Value(text[5..7]), Value(text[8..10]),
          Value(text[11..13]), Value(text[14..16]), Value(text[17..19]), None, text[10], 'Z')
  }

  /** The optional fraction after position 19, and where it ends. */
  function FractionAt(text: string): Option<Option<string>>
    requires |text| >= 19
  {
    if |text| == 19 || text[19] != '.' then Some(None)
    else
      var end := RunEnd(text, 20);
      if end == 20 then None else Some(Some(text[20..end]))
  }

  function Parse(text: string): Option<int> {
    if !ClockShape(text) || !FieldsOk(ClockOf(text)) || FractionAt(text).None? then None
    else
      var f := FractionAt(text).value;
      var end := 19 + |FractionText(f)|;
      if end + 1 != |text| || (text[end] != 'Z' && text[end] != 'z') then None
      else
        var s := ClockOf(text).(fraction := f, z := text[end]);
        Nanos(s)
  }

  lemma {:induction false} PaddedOfValue(s: string)
    requires AllDigits(s)
    ensures Padded(Value(s), |s|) == s
  {
    if s != [] {
      PaddedOfValue(s[..|s| - 1]);
      assert s == s[..|s| - 1] + [s[|s| - 1]];
    }
  }

  lemma {:induction false} ValueOfPadded(n: nat, k: nat)
    requires n < Pow10(k)
    ensures Value(Padded(n, k)) == n
  {
    hide Pow10, Value, Padded;
    if k == 0 {
      PowZero();
      NothingDropped(n);
    } else {
      NextPow(0, k);
      ValueOfPadded(n / 10, k - 1);
      LastOfPadded(n, k);
    }
  }

  /** Where the parts of a clock's text lie. */
  lemma ClockSlices(s: Stamp, tail: string)
    ensures var text := ClockText(s) + tail;
            && |text| == 19 + |tail| && text[19..] == tail
            && text[0..4] == Padded(s.year, 4) && text[4] == '-' && text[5..7] == Padded(s.month, 2) && text[7] == '-'
            && text[8..10] == Padded(s.day, 2) && text[10] == s.t && text[11..13] == Padded(s.hour, 2)
                && text[13] == ':'
            && text[14..16] == Padded(s.minute, 2) && text[16] == ':' && text[17..19] == Padded(s.second, 2)
  {
    hide Padded;
  }

  lemma SmallPowersOfTen()
    ensures Pow10(2) == 100 && Pow10(4) == 10000
  {
    assert Pow10(2) == 10 * (10 * Pow10(0));
    assert Pow10(4) == 10 * (10 * Pow10(2));
  }

  lemma ClockReadsBack(s: Stamp, tail: string)
    requires FieldsOk(s) && (s.t == 'T' || s.t == 't')
    ensures var text := ClockText(s) + tail;
            ClockShape(text) && ClockOf(text) == s.(fraction := None, z := 'Z')
  {
    hide Padded, Value, ClockText, Pow10;
    ClockSlices(s, tail);
    SmallPowersOfTen();
    ValueOfPadded(s.year, 4);
    ValueOfPadded(s.month, 2);
    ValueOfPadded(s.day, 2);
    ValueOfPadded(s.hour, 2);
    ValueOfPadded(s.minute, 2);
    ValueOfPadded(s.second, 2);
  }

  lemma FractionReadsBack(text: string, f: Option<string>, z: char)
    requires |text| >= 19 && text[19..] == FractionText(f) + [z] && !IsDigit(z) && z != '.'
    requires f.Some? ==> f.value != "" && AllDigits(f.value)
    ensures FractionAt(text) == Some(f) && 20 + |FractionText(f)| == |text| && text[19 + |FractionText(f)|] == z
  {
    hide RunEnd;
    var end := 19 + |FractionText(f)|;
    assert text[end] == text[19..][end - 19];
    assert text[19] == text[19..][0];
    if f.Some? {
      assert text[20..end] == text[19..][1..end - 19] == f.value;
      RunEndOf(text, 20, end);
    }
  }

  /** How a stamp is spelled. */
  lemma StampIsSpelled()
    ensures StampText(Stamp(2026, 1, 9, 8, 7, 6, Some("5"), 'T', 'Z')) == "2026-01-09T08:07:06.5Z"
  {
    hide Padded;
    FourPlaces();
    TwoPlaces();
  }

  lemma FourPlaces()
    ensures Padded(2026, 4) == "2026"
  {
    assert Padded(2, 1) == "2";
    assert Padded(20, 2) == "20";
    assert Padded(202, 3) == "202";
  }

  lemma TwoPlaces()
    ensures Padded(1, 2) == "01" && Padded(9, 2) == "09" && Padded(8, 2) == "08" && Padded(7, 2) == "07"
    ensures Padded(6, 2) == "06"
  {
    assert Padded(0, 1) == "0";
  }

  /** Every well-formed stamp is read as the instant it names, or refused when that is before the
      epoch or past the range of nanoseconds. */
  lemma ParseReadsStamps(s: Stamp)
    requires StampOk(s)
    ensures Parse(StampText(s)) == Nanos(s)
  {
    hide ClockShape, ClockText, FractionAt, Nanos, FractionText, ClockOf;
    var tail := FractionText(s.fraction) + [s.z];
    ClockSlices(s, tail);
    ClockReadsBack(s, tail);
    FractionReadsBack(StampText(s), s.fraction, s.z);
  }

  /** And nothing else is accepted. */
  lemma ParsedIsAStamp(text: string) returns (s: Stamp)
    requires Parse(text).Some?
    ensures StampOk(s) && text == StampText(s) && Parse(text) == Nanos(s)
  {
    hide Nanos, Value, FractionAt, Padded, AllDigits, FractionText;
    var f := FractionAt(text).value;
    var end := 19 + |FractionText(f)|;
    s := ClockOf(text).(fraction := f, z := text[end]);
    PaddedOfValue(text[0..4]);
    PaddedOfValue(text[5..7]);
    PaddedOfValue(text[8..10]);
    PaddedOfValue(text[11..13]);
    PaddedOfValue(text[14..16]);
    PaddedOfValue(text[17..19]);
    FractionLies(text, f);
    ClockLies(text);
    assert ClockText(s) == text[..19];
    ThreeParts(text, 19, end);
  }

  // ----- what a stamp is read as -----

  /** A second of the calendar. */
  datatype Clock = Clock(date: Date, hour: nat, minute: nat, second: nat)

  predicate IsClock(c: Clock) { IsDate(c.date) && c.hour <= 23 && c.minute <= 59 && c.second <= 59 }

  function Instant(c: Clock): int
    requires IsClock(c)
  {
    Days(c.date) * 86400 + SecondOfDay(c)
  }

  function SecondOfDay(c: Clock): nat { c.hour * 3600 + c.minute * 60 + c.second }

  function Written(s: Stamp): Clock { Clock(Date(s.year, s.month, s.day), s.hour, s.minute, s.second) }

  /** Day past the month's end: the next month.  Second 60: the next minute's first. */
  function Reading(s: Stamp): Clock {
    var date := RolledOver(s.year, s.month, s.day);
    if s.second < 60 then Clock(date, s.hour, s.minute, s.second)
    else if s.minute < 59 then Clock(date, s.hour, s.minute + 1, 0)
    else if s.hour < 23 then Clock(date, s.hour + 1, 0, 0)
    else Clock(Tomorrow(date), 0, 0, 0)
  }

  /** Every stamp the parser admits counts the seconds of exactly one clock reading. */
  lemma StampIsRead(s: Stamp, c: Clock)
    requires FieldsOk(s) && IsClock(c)
    ensures IsClock(Reading(s)) && Instant(Reading(s)) == Seconds(s)
    ensures Instant(c) == Seconds(s) <==> c == Reading(s)
  {
    hide DaysFromCivil, DaysInMonth;
    RollsOver(s.year, s.month, s.day);
    TomorrowIsOneMore(RolledOver(s.year, s.month, s.day));
    if c != Reading(s) { InstantsDiffer(c, Reading(s)); }
  }

  lemma InstantsDiffer(a: Clock, b: Clock)
    requires IsClock(a) && IsClock(b) && a != b
    ensures Instant(a) != Instant(b)
  {
    hide DaysFromCivil, DaysInMonth, SecondOfDay;
    SecondsOfDayDiffer(a, b);
    if Earlier(a.date, b.date) { DaysAreOrdered(a.date, b.date); }
    if Earlier(b.date, a.date) { DaysAreOrdered(b.date, a.date); }
  }

  lemma SecondsOfDayDiffer(a: Clock, b: Clock)
    requires IsClock(a) && IsClock(b)
    ensures SecondOfDay(a) < 86400 && SecondOfDay(b) < 86400
    ensures a.date == b.date && a != b ==> SecondOfDay(a) != SecondOfDay(b)
  {
    if SecondOfDay(a) == SecondOfDay(b) {
      Mixed(a.hour * 60 + a.minute, a.second, b.hour * 60 + b.minute, b.second);
      Mixed(a.hour, a.minute, b.hour, b.minute);
    }
  }

  lemma Mixed(a: nat, x: nat, b: nat, y: nat)
    requires x < 60 && y < 60 && a * 60 + x == b * 60 + y
    ensures a == b && x == y
  {
  }

  /** It is the one written exactly when the month has that day and the second is not the 60th. */
  lemma ReadAsWrittenIff(s: Stamp)
    requires FieldsOk(s)
    ensures Reading(s) == Written(s) <==> s.day <= DaysInMonth(s.year, s.month) && s.second < 60
    ensures IsClock(Written(s)) <==> s.day <= DaysInMonth(s.year, s.month) && s.second < 60
  {
  }

  function NanosOf(s: Stamp): nat
    requires StampOk(s)
  {
    if s.fraction.Some? then FractionNanos(s.fraction.value) else 0
  }

  /** Either case of both letters will do; a zone letter must end the text, and a point must be followed
      by a digit. */
  lemma LettersAre(s: Stamp, text: string)
    requires FieldsOk(s) && s.fraction.None?
    ensures StampOk(s) <==> s.t in ['T', 't'] && s.z in ['Z', 'z']
    ensures Parse(text).Some? ==> |text| >= 20 && text[|text| - 1] in ['Z', 'z'] && text[10] in ['T', 't']
    ensures |text| >= 20 && text[19] == '.' && (|text| == 20 || !('0' <= text[20] <= '9')) ==> Parse(text).None?
  {
    hide Nanos, Value;
  }

  /** Two accepted timestamps are the same instant exactly when they are read alike. */
  lemma SameInstantIff(s: Stamp, t: Stamp)
    requires StampOk(s) && StampOk(t) && Parse(StampText(s)).Some?
    ensures Parse(StampText(s)) == Parse(StampText(t)) <==> Reading(s) == Reading(t) && NanosOf(s) == NanosOf(t)
  {
    hide Parse, Reading, Seconds, Instant, StampText, FractionNanos;
    ParseReadsStamps(s);
    ParseReadsStamps(t);
    StampIsRead(s, EPOCH_CLOCK);
    StampIsRead(t, Reading(s));
  }

  const EPOCH_CLOCK: Clock := Clock(EPOCH, 0, 0, 0)

  /** The 31st of February is accepted, as the 3rd of March. */
  lemma ThirtyFirstOfFebruary()
    ensures var text := StampText(Stamp(2023, 2, 31, 0, 0, 0, None, 'T', 'Z'));
            Parse(text).Some? && Parse(text) == Parse(StampText(Stamp(2023, 3, 3, 0, 0, 0, None, 'T', 'Z')))
  {
    hide Parse, StampText, Nanos;
    var s := Stamp(2023, 2, 31, 0, 0, 0, None, 'T', 'Z');
    assert DaysFromCivil(2023, 2, 31) == 19419;
    InRange(s);
    ParseReadsStamps(s);
    SameInstantIff(s, Stamp(2023, 3, 3, 0, 0, 0, None, 'T', 'Z'));
  }

  /** A leap second is the first second of the next year. */
  lemma LeapSecondIsNextYear()
    ensures var text := StampText(Stamp(2016, 12, 31, 23, 59, 60, None, 'T', 'Z'));
            Parse(text).Some? && Parse(text) == Parse(StampText(Stamp(2017, 1, 1, 0, 0, 0, None, 'T', 'Z')))
  {
    hide Parse, StampText, Nanos;
    var s := Stamp(2016, 12, 31, 23, 59, 60, None, 'T', 'Z');
    assert DaysFromCivil(2016, 12, 31) == 17166;
    InRange(s);
    ParseReadsStamps(s);
    SameInstantIff(s, Stamp(2017, 1, 1, 0, 0, 0, None, 'T', 'Z'));
  }

  lemma InRange(s: Stamp)
    requires StampOk(s)
    ensures Nanos(s).Some? <==> 0 <= Seconds(s) <= MAX_SECONDS
  {
    hide FractionNanos;
  }

  lemma ThreeParts(text: string, i: nat, end: nat)
    requires i <= end && end + 1 == |text|
    ensures text == text[..i] + (text[i..end] + [text[end]])
  {
  }

  lemma FractionLies(text: string, f: Option<string>)
    requires |text| >= 19 && FractionAt(text) == Some(f)
    ensures 19 + |FractionText(f)| <= |text| && text[19..19 + |FractionText(f)|] == FractionText(f)
    ensures f.Some? ==> f.value != "" && AllDigits(f.value)
  {
    hide AllDigits;
    if f.Some? {
      var end := RunEnd(text, 20);
      assert text[19..end] == [text[19]] + text[20..end];
    }
  }

  lemma ClockLies(text: string)
    requires ClockShape(text)
    ensures text[..19] == text[0..4] + "-" + text[5..7] + "-" + text[8..10] + [text[10]]
                          + text[11..13] + ":" + text[14..16] + ":" + text[17..19]
  {
  }

  // ----- the parser's steps -----

  /** Two fields with a separator between them. */
  method TakeField(text: string, pos: nat, width: nat, separators: string) returns (value: Option<nat>)
    ensures value == if pos + width < |text| && text[pos + width] in separators then TakeDigits(text, pos, width)
        else None
  {
    value := TakeDigitsAt(text, pos, width);
    if value.None? || pos + width >= |text| || text[pos + width] !in separators {
      return None;
    }
  }

  method ParseRfc3339(text: string) returns (r: Option<int>)
    ensures r == Parse(text)
    ensures r.Some? ==> 0 <= r.value <= INT64_MAX
  {
    hide Value, AllDigits, Seconds, RunEnd, FractionNanos, FractionAt;
    var year := TakeField(text, 0, 4, "-");
    if year.None? {
      return None;
    }
    var month := TakeField(text, 5, 2, "-");
    if month.None? {
      return None;
    }
    var day := TakeField(text, 8, 2, "Tt");
    if day.None? {
      return None;
    }
    var hour := TakeField(text, 11, 2, ":");
    if hour.None? {
      return None;
    }
    var minute := TakeField(text, 14, 2, ":");
    if minute.None? {
      return None;
    }
    var second := TakeDigitsAt(text, 17, 2);
    if second.None? {
      return None;
    }
    var s := Stamp(year.value, month.value, day.value, hour.value, minute.value, second.value, None, text[10], 'Z');
    assert ClockShape(text) && s == ClockOf(text);
    if month.value < 1 || month.value > 12 || day.value < 1 || day.value > 31
       || hour.value > 23 || minute.value > 59 || second.value > 60 {
      return None;
    }
    YearFits(text);
    var fraction, nanos, pos := TakeFraction(text);
    if fraction.None? {
      return None;
    }
    if pos + 1 != |text| || (text[pos] != 'Z' && text[pos] != 'z') {
      return None;
    }
    s := s.(fraction := fraction.value, z := text[pos]);
    var seconds := Seconds(s);
    if seconds < 0 || seconds > MAX_SECONDS {
      return None;
    }
    NanosFit(s);
    r := Some(seconds * 1_000_000_000 + nanos);
  }

  lemma YearFits(text: string)
    requires ClockShape(text)
    ensures ClockOf(text).year < 10000
  {
    SmallPowersOfTen();
    ValueBound(text[0..4]);
  }

  /** The optional fraction: up to nine digits are read, the rest skipped. */
  method TakeFraction(text: string) returns (fraction: Option<Option<string>>, nanos: nat, pos: nat)
    requires |text| >= 19
    ensures fraction == FractionAt(text)
    ensures fraction.Some? ==>
              && (fraction.value.Some? ==> fraction.value.value != "" && AllDigits(fraction.value.value))
              && nanos == (if fraction.value.Some? then FractionNanos(fraction.value.value) else 0)
              && pos == 19 + |FractionText(fraction.value)|
  {
    hide RunEnd, Value, Pow10;
    pos, nanos := 19, 0;
    if |text| == 19 || text[19] != '.' {
      return Some(None), 0, 19;
    }
    pos := 20;
    var digits, scaled := 0, 0;
    ValueOfNone(text[20..20]);
    while pos < |text| && IsDigit(text[pos])
      invariant 20 <= pos <= |text| && digits == Min(pos - 20, 9)
      invariant AllDigits(text[20..pos]) && AllDigits(text[20..20 + digits])
      invariant scaled == Value(text[20..20 + digits])
    {
      assert text[20..pos + 1] == text[20..pos] + [text[pos]];
      if digits < 9 {
        ValueNext(text, 20, pos);
        scaled := scaled * 10 + DigitValue(text[pos]);
        digits := digits + 1;
      }
      pos := pos + 1;
    }
    RunEndOf(text, 20, pos);
    if digits == 0 {
      return None, 0, pos;
    }
    ghost var f := text[20..pos];
    assert f[..digits] == text[20..20 + digits];
    nanos := ScaleUp(scaled, digits);
    fraction := Some(Some(text[20..pos]));
  }

  method ScaleUp(value: nat, digits: nat) returns (scaled: nat)
    requires digits <= 9
    ensures scaled == value * Pow10(9 - digits)
  {
    hide Pow10;
    scaled := value;
    PowZero();
    for i := digits to 9
      invariant scaled == value * Pow10(i - digits)
    {
      NextTen(value, i - digits);
      scaled := scaled * 10;
    }
  }

  lemma NextTen(v: nat, k: nat)
    ensures v * Pow10(k) * 10 == v * Pow10(k + 1)
  {
  }
}
