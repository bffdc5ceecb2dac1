/** Kraken's book checksum: the digits of the ten best levels of each side, through CRC32. */
module Checksums {
  import opened CoreTypes
  import opened BookOrder
  import opened Decimal
  import opened Fixed
  import opened Crc
  import opened Sides
  import opened Depth
  import opened L2

  const CHECKSUM_DEPTH: nat := 10
  const MAX_DIGITS: nat := 20
  const MAX_PAYLOAD: nat := CHECKSUM_DEPTH * 2 * MAX_DIGITS * 2

  // ----- what the checksum is over -----

  function LevelDigits(l: Level): string { Digits(Magnitude(l.price)) + Digits(Magnitude(l.qty)) }

  function LevelsDigits(s: seq<Level>): string {
    if s == [] then "" else LevelsDigits(s[..|s| - 1]) + LevelDigits(s[|s| - 1])
  }

  /** Asks low to high, then bids high to low, at most ten levels of each. */
  ghost function Payload(bids: map<int, int>, asks: map<int, int>): string {
    LevelsDigits(FirstN(Ask, asks, CHECKSUM_DEPTH)) + LevelsDigits(FirstN(Bid, bids, CHECKSUM_DEPTH))
  }

  function Ascii(c: char): bv8 { if c as int < 256 then c as int as bv8 else 0 }

  function Bytes(s: string): seq<bv8> { seq(|s|, i requires 0 <= i < |s| => Ascii(s[i])) }

  ghost function Checksum(bids: map<int, int>, asks: map<int, int>): bv32 { Crc32Of(Bytes(Payload(bids, asks))) }

  /** A price or quantity as the venue spells it: point deleted, leading zeros stripped. */
  function WireDigits(m: nat, scale: nat): string { StripZeros(DeletePoint(Format(m, scale))) }

  function WireLevels(s: seq<Level>, priceScale: nat, qtyScale: nat): string
    requires NoNegatives(s)
  {
    if s == [] then ""
    else
      var l := s[|s| - 1];
      WireLevels(s[..|s| - 1], priceScale, qtyScale) + (WireDigits(l.price, priceScale) + WireDigits(l.qty, qtyScale))
  }

  predicate NoNegatives(s: seq<Level>) { forall i :: 0 <= i < |s| ==> s[i].price >= 0 && s[i].qty >= 0 }

  predicate HoldsNoZero(s: seq<Level>) { forall i :: 0 <= i < |s| ==> s[i].price != 0 && s[i].qty != 0 }

  /** The digits of the mantissas are the digits of the canonical wire tokens, at any scales, exactly
      when no price and no quantity is zero: a zero's own digit is one the wire text strips. */
  lemma {:induction false} PayloadIsTheWireText(s: seq<Level>, priceScale: nat, qtyScale: nat)
    requires NoNegatives(s)
    ensures LevelsDigits(s) == WireLevels(s, priceScale, qtyScale) <==> HoldsNoZero(s)
    ensures |WireLevels(s, priceScale, qtyScale)| <= |LevelsDigits(s)|
    ensures |WireLevels(s, priceScale, qtyScale)| == |LevelsDigits(s)| ==> HoldsNoZero(s)
  {
    hide WireDigits, Digits;
    if s != [] {
      var l := s[|s| - 1];
      PayloadIsTheWireText(s[..|s| - 1], priceScale, qtyScale);
      WireDigitsAre(l.price, priceScale);
      WireDigitsAre(l.qty, qtyScale);
      assert HoldsNoZero(s) <==> HoldsNoZero(s[..|s| - 1]) && l.price != 0 && l.qty != 0;
    }
  }

  lemma WireDigitsAre(m: nat, scale: nat)
    ensures WireDigits(m, scale) == if m > 0 then Digits(m) else ""
    ensures |Digits(m)| > 0
  {
    hide Format, DeletePoint, StripZeros, Digits;
    TokenIsMantissaDigits(m, scale);
  }

  /** Trimming to ten levels or more never changes the checksum. */
  lemma ChecksumIgnoresDepth(bids: map<int, int>, asks: map<int, int>, depth: nat)
    requires depth >= CHECKSUM_DEPTH
    ensures Checksum(TopN(Bid, bids, depth), TopN(Ask, asks, depth)) == Checksum(bids, asks)
  {
    hide TopN, InOrder, Bytes;
    FirstOfTop(Bid, bids, CHECKSUM_DEPTH, depth);
    FirstOfTop(Ask, asks, CHECKSUM_DEPTH, depth);
  }

  lemma FirstOfTop(side: Side, m: map<int, int>, n: nat, depth: nat)
    requires n <= depth
    ensures FirstN(side, TopN(side, m, depth), n) == FirstN(side, m, n)
  {
    hide TopN, InOrder;
    TopNIsPrefix(side, m, depth);
    InOrderLists(side, m);
  }

  /** Trimming to fewer can change it: one level of two has other digits. */
  lemma ShallowChecksumDiffers()
    ensures TopN(Ask, map[1 := 1, 2 := 1], 1) == map[1 := 1]
    ensures Checksum(map[], map[1 := 1]) != Checksum(map[], map[1 := 1, 2 := 1])
  {
    hide Crc32Of, InOrder, TopN, Checksum, Bytes;
    TwoListed();
    AskChecksum(map[1 := 1], [Level(1, 1)], "11");
    AskChecksum(map[1 := 1, 2 := 1], [Level(1, 1), Level(2, 1)], "1121");
    CrcsDiffer();
  }

  lemma TwoListed()
    ensures InOrder(Ask, map[1 := 1]) == [Level(1, 1)]
    ensures InOrder(Ask, map[1 := 1, 2 := 1]) == [Level(1, 1), Level(2, 1)]
    ensures TopN(Ask, map[1 := 1, 2 := 1], 1) == map[1 := 1]
  {
    hide InOrder;
    var m := map[1 := 1, 2 := 1];
    var two := [Level(1, 1), Level(2, 1)];
    assert two[0] in two && two[1] in two;
    ListingIsUnique(Ask, m, two);
    ListingIsUnique(Ask, map[1 := 1], [Level(1, 1)]);
    assert FirstN(Ask, m, 1) == [Level(1, 1)];
    assert FirstN(Ask, m, 1)[0].price == 1;
  }

  lemma AskChecksum(asks: map<int, int>, s: seq<Level>, text: string)
    requires InOrder(Ask, asks) == s && |s| <= CHECKSUM_DEPTH && LevelsDigits(s) == text
    ensures Checksum(map[], asks) == Crc32Of(Bytes(text))
  {
    hide Crc32Of, Bytes, LevelsDigits;
    assert FirstN(Bid, map[], CHECKSUM_DEPTH) == [];
    assert LevelsDigits([]) == "" by { NoDigits(); }
    assert FirstN(Ask, asks, CHECKSUM_DEPTH) == s;
    assert LevelsDigits(s) + "" == LevelsDigits(s);
    assert Payload(map[], asks) == LevelsDigits(s);
  }

  lemma NoDigits()
    ensures LevelsDigits([]) == ""
  {
  }

  lemma CrcsDiffer()
    ensures Crc32Of(Bytes("11")) != Crc32Of(Bytes("1121"))
  {
    assert Bytes("11") == [0x31, 0x31];
    assert Bytes("1121") == [0x31, 0x31] + [0x32, 0x31];
    hide Fold;
    FoldConcat(0xFFFF_FFFF, [0x31, 0x31], [0x32, 0x31]);
    FoldOnes();
    FoldTwoOne();
  }

  lemma FoldOnes()
    ensures Fold(0xFFFF_FFFF, [0x31, 0x31]) == 0x29A5_EA88
  {
    hide FoldByte;
    FoldTwo(0xFFFF_FFFF, 0x31, 0x31);
    assert FoldByte(0xFFFF_FFFF, 0x31) == 0x7C23_1048 by { FoldBits(0xFFFF_FFFF, 0x31); }
    assert FoldByte(0x7C23_1048, 0x31) == 0x29A5_EA88 by { FoldBits(0x7C23_1048, 0x31); }
  }

  lemma FoldTwoOne()
    ensures Fold(0x29A5_EA88, [0x32, 0x31]) == 0x0F2B_64CB
  {
    hide FoldByte;
    FoldTwo(0x29A5_EA88, 0x32, 0x31);
    assert FoldByte(0x29A5_EA88, 0x32) == 0x2B9D_FF78 by { FoldBits(0x29A5_EA88, 0x32); }
    assert FoldByte(0x2B9D_FF78, 0x31) == 0x0F2B_64CB by { FoldBits(0x2B9D_FF78, 0x31); }
  }

  /** Asks come first, best one first, then bids, best one first, each as price and quantity. */
  lemma PayloadIs(bids: map<int, int>, asks: map<int, int>, b: seq<Level>, a: seq<Level>)
    requires Lists(Bid, bids, b) && Lists(Ask, asks, a) && |a| == 2 && |b| == 2
    ensures a[0].price < a[1].price && b[0].price > b[1].price
    ensures Payload(bids, asks) ==
              (Digits(Magnitude(a[0].price)) + Digits(Magnitude(a[0].qty)))
              + (Digits(Magnitude(a[1].price)) + Digits(Magnitude(a[1].qty)))
              + ((Digits(Magnitude(b[0].price)) + Digits(Magnitude(b[0].qty)))
                 + (Digits(Magnitude(b[1].price)) + Digits(Magnitude(b[1].qty))))
  {
    hide InOrder, Digits;
    ListingIsUnique(Ask, asks, a);
    ListingIsUnique(Bid, bids, b);
    TwoLevels(a);
    TwoLevels(b);
    assert FirstN(Ask, asks, CHECKSUM_DEPTH) == a && FirstN(Bid, bids, CHECKSUM_DEPTH) == b;
  }

  lemma TwoLevels(s: seq<Level>)
    requires |s| == 2
    ensures LevelsDigits(s) == LevelDigits(s[0]) + LevelDigits(s[1])
  {
    hide LevelDigits;
    assert s[..1] == [s[0]] && [s[0]][..0] == [];
    assert LevelsDigits([s[0]]) == LevelDigits(s[0]);
  }

  /** Characters go in as their codes. */
  lemma KnownAnswer()
    ensures Crc32Of(Bytes("123456789")) == 0xCBF4_3926
  {
    hide Crc32Of;
    CheckValue();
    assert Bytes("123456789") == Crc.DIGITS;
  }

  /** No more than ten levels a side are in it, and every one of the ten is: beyond the tenth nothing
      matters, and each level adds at least two digits. */
  lemma TenOfEach(bids: map<int, int>, asks: map<int, int>)
    ensures Payload(bids, asks) == LevelsDigits(FirstN(Ask, asks, 10)) + LevelsDigits(FirstN(Bid, bids, 10))
    ensures |Payload(bids, asks)| >= 2 * Min(10, |asks|) + 2 * Min(10, |bids|)
  {
    hide InOrder;
    TwoDigitsEach(FirstN(Ask, asks, 10));
    TwoDigitsEach(FirstN(Bid, bids, 10));
  }

  lemma {:induction false} TwoDigitsEach(s: seq<Level>)
    ensures |LevelsDigits(s)| >= 2 * |s|
  {
    hide Digits;
    if s != [] { TwoDigitsEach(s[..|s| - 1]); }
  }

  // ----- the digits of one value -----

  lemma {:induction false} DigitAt(n: nat, j: nat)
    requires j < |Digits(n)|
    ensures Digits(n)[|Digits(n)| - 1 - j] == DigitChar(DropDigits(n, j) % 10)
  {
    if j > 0 { DigitAt(n / 10, j - 1); }
  }

  lemma DigitsFit(value: int64)
    ensures |Digits(Magnitude(value))| <= MAX_DIGITS
  {
    hide Digits;
    PowNineteen();
    DigitsLength(Magnitude(value), 19);
  }

  /** The decimal digits of |value|, least significant first, into scratch space. */
  method CollectDigits(mag: nat, tmp: array<char>) returns (n: nat)
    requires |Digits(mag)| <= tmp.Length
    modifies tmp
    ensures n == |Digits(mag)|
    ensures forall j :: 0 <= j < n ==> tmp[j] == Digits(mag)[n - 1 - j]
  {
    hide Digits, DigitChar, DropDigits;
    ghost var digits := Digits(mag);
    NothingDropped(mag);
    NextDigit(mag);
    DigitAt(mag, 0);
    tmp[0] := DigitChar(mag % 10);
    var rest := mag / 10;
    n := 1;
    DropOneMore(mag, 0);
    while rest != 0
      invariant 1 <= n && rest == DropDigits(mag, n)
      invariant |digits| == n + |Rest(rest)|
      invariant forall j :: 0 <= j < n ==> tmp[j] == digits[|digits| - 1 - j]
    {
      NextDigit(rest);
      DigitAt(mag, n);
      DropOneMore(mag, n);
      tmp[n] := DigitChar(rest % 10);
      rest := rest / 10;
      n := n + 1;
    }
  }

  /** Writes the digits of |value| at `at`; returns how many. */
  method WriteDigits(value: int64, buf: array<char>, at: nat) returns (n: nat)
    requires at + |Digits(Magnitude(value))| <= buf.Length
    modifies buf
    ensures n == |Digits(Magnitude(value))|
    ensures buf[at..at + n] == Digits(Magnitude(value))
    ensures buf[..at] == old(buf[..at])
  {
    hide Digits;
    var magnitude := UnsignedMagnitude(value);
    ghost var digits := Digits(magnitude);
    DigitsFit(value);
    var tmp := new char[MAX_DIGITS](_ => '0');
    n := CollectDigits(magnitude, tmp);
    ghost var before := buf[..at];
    for i := 0 to n
      invariant buf[..at] == before
      invariant buf[at..at + i] == digits[..i]
      invariant forall j :: 0 <= j < n ==> tmp[j] == digits[n - 1 - j]
    {
      assert tmp[n - 1 - i] == digits[i];
      buf[at + i] := tmp[n - 1 - i];
      assert buf[at..at + i + 1] == buf[at..at + i] + [digits[i]];
    }
    assert digits[..n] == digits;
  }

  // ----- the payload of a book -----

  lemma {:induction false} PayloadFits(s: seq<Level>)
    requires forall i :: 0 <= i < |s| ==> INT64_MIN <= s[i].price <= INT64_MAX && INT64_MIN <= s[i].qty <= INT64_MAX
    ensures |LevelsDigits(s)| <= 2 * MAX_DIGITS * |s|
  {
    hide Digits, Magnitude;
    if s != [] {
      PayloadFits(s[..|s| - 1]);
      DigitsFit(s[|s| - 1].price);
      DigitsFit(s[|s| - 1].qty);
    }
  }

  /** The price's digits, then the quantity's. */
  method WriteLevel(l: Level, buf: array<char>, at: nat) returns (n: nat)
    requires at + 2 * MAX_DIGITS <= buf.Length
    requires INT64_MIN <= l.price <= INT64_MAX && INT64_MIN <= l.qty <= INT64_MAX
    modifies buf
    ensures at <= n <= at + 2 * MAX_DIGITS
    ensures buf[..n] == old(buf[..at]) + LevelDigits(l)
  {
    hide Digits, Magnitude;
    DigitsFit(l.price);
    DigitsFit(l.qty);
    ghost var before := buf[..at];
    var p := WriteDigits(l.price, buf, at);
    ghost var priced := buf[..at + p];
    assert priced == before + Digits(Magnitude(l.price)) by { assert priced == buf[..at] + buf[at..at + p]; }
    var q := WriteDigits(l.qty, buf, at + p);
    n := at + p + q;
    assert buf[..n] == priced + Digits(Magnitude(l.qty)) by { assert buf[..n] == buf[..at + p] + buf[at + p..n]; }
  }

  /** The digits of some levels, written from `at` on. */
  method WriteLevels(s: seq<Level>, buf: array<char>, at: nat) returns (n: nat)
    requires at + 2 * MAX_DIGITS * |s| <= buf.Length
    requires forall i :: 0 <= i < |s| ==> INT64_MIN <= s[i].price <= INT64_MAX && INT64_MIN <= s[i].qty <= INT64_MAX
    modifies buf
    ensures at <= n <= at + 2 * MAX_DIGITS * |s|
    ensures buf[..n] == old(buf[..at]) + LevelsDigits(s)
  {
    hide LevelDigits, LevelsDigits;
    n := at;
    ghost var before := buf[..at];
    NoLevels(s[..0]);
    for i := 0 to |s|
      invariant at <= n <= at + 2 * MAX_DIGITS * i
      invariant buf[..n] == before + LevelsDigits(s[..i])
    {
      OneMoreLevel(s, i);
      n := WriteLevel(s[i], buf, n);
    }
    assert s[..|s|] == s;
  }

  lemma NoLevels(s: seq<Level>)
    requires s == []
    ensures LevelsDigits(s) == ""
  {
  }

  lemma OneMoreLevel(s: seq<Level>, i: nat)
    requires i < |s|
    ensures LevelsDigits(s[..i + 1]) == LevelsDigits(s[..i]) + LevelDigits(s[i])
  {
    hide LevelDigits;
    assert s[..i + 1][..i] == s[..i];
  }

  /** The ten best levels of one side, as the checksum's visitor takes them. */
  method TopTen(book: L2Book, s: Side) returns (seen: seq<Level>)
    requires book.Valid()
    ensures seen == FirstN(s, book.Levels(s), CHECKSUM_DEPTH) && |seen| <= CHECKSUM_DEPTH
    ensures forall i :: 0 <= i < |seen| ==> 0 <= seen[i].price <= INT64_MAX && 0 < seen[i].qty <= INT64_MAX
  {
    hide ArraySide.Consistent, ArraySide.Amortised, InOrder;
    var more := (v: seq<Level>) => |v| < CHECKSUM_DEPTH;
    seen := book.SideOf(s).ForEach(more);
    ghost var m := book.Levels(s);
    ShortVisit(InOrder(s, m), 0, CHECKSUM_DEPTH, more);
    InOrderLists(s, m);
    forall i | 0 <= i < |seen| ensures 0 <= seen[i].price <= INT64_MAX && 0 < seen[i].qty <= INT64_MAX {
      assert seen[i] in InOrder(s, m);
    }
  }

  /** The checksum payload of the book, into a buffer sized for any book at all. */
  method PayloadInto(book: L2Book, buf: array<char>) returns (n: nat)
    requires book.Valid() && buf.Length >= MAX_PAYLOAD && buf !in {book.bids.window as object, book.asks.window}
    modifies buf
    ensures n <= MAX_PAYLOAD
    ensures buf[..n] == Payload(book.Levels(Bid), book.Levels(Ask))
  {
    hide ArraySide.Consistent, ArraySide.Amortised, FirstN, LevelsDigits, Plausible;
    var asks := TopTen(book, Ask);
    var bids := TopTen(book, Bid);
    n := WriteLevels(asks, buf, 0);
    n := WriteLevels(bids, buf, n);
  }

  /** The checksum the verifier compares: buffered, then through the table-driven CRC in one pass. */
  method KrakenChecksum(book: L2Book, t: Crc32Table) returns (v: bv32)
    requires book.Valid() && t.Valid()
    ensures v == Checksum(book.Levels(Bid), book.Levels(Ask))
  {
    hide ArraySide.Consistent, ArraySide.Amortised, Payload, Crc32Of, Bytes, Crc32Table.Row;
    var buf := new char[MAX_PAYLOAD](_ => '0');
    var n := PayloadInto(book, buf);
    v := Compute(t, Bytes(buf[..n]));
  }
}
