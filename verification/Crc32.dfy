/** CRC-32 (IEEE, reflected, polynomial 0xEDB88320): the bit-by-bit definition, and the slice-by-8
    kernel proved equal to it. */
module Crc {
  const POLY: bv32 := 0xEDB8_8320

  /** One bit of the division. */
  function Step(c: bv32): bv32 {
    if c & 1 == 1 then POLY ^ (c >> 1) else c >> 1
  }

  function Steps(n: nat, c: bv32): bv32 {
    if n == 0 then c else Steps(n - 1, Step(c))
  }

  /** The definition: fold in a byte, then eight bits. */
  function FoldByte(c: bv32, b: bv8): bv32 {
    Steps(8, c ^ (b as bv32))
  }

  function Fold(c: bv32, data: seq<bv8>): bv32 {
    if data == [] then c else FoldByte(Fold(c, data[..|data| - 1]), data[|data| - 1])
  }

  function Crc32Of(data: seq<bv8>): bv32 {
    Fold(0xFFFF_FFFF, data) ^ 0xFFFF_FFFF
  }

  // ----- the bit step is linear over xor -----

  lemma XorHalves(a: bv32, b: bv32)
    ensures (a ^ b) >> 1 == (a >> 1) ^ (b >> 1)
    ensures (a ^ b) & 1 == (a & 1) ^ (b & 1)
    ensures a & 1 == 0 || a & 1 == 1
  {
  }

  lemma XorMoves(p: bv32, x: bv32, y: bv32)
    ensures p ^ (x ^ y) == (p ^ x) ^ y == x ^ (p ^ y)
    ensures (p ^ x) ^ (p ^ y) == x ^ y
  {
  }

  lemma StepLinearBits(a: bv32, b: bv32)
    ensures Step(a ^ b) == Step(a) ^ Step(b)
  {
    XorHalves(a, b);
    XorHalves(b, a);
    XorMoves(POLY, a >> 1, b >> 1);
  }

  /** Exclusive or, named so that proofs can treat it as a function. */
  function Xor(a: bv32, b: bv32): bv32 { a ^ b }

  lemma StepLinear(a: bv32, b: bv32)
    ensures Step(Xor(a, b)) == Xor(Step(a), Step(b))
  {
    hide Step;
    StepLinearBits(a, b);
  }

  lemma {:induction false} StepsLinear(n: nat, a: bv32, b: bv32)
    ensures Steps(n, Xor(a, b)) == Xor(Steps(n, a), Steps(n, b))
  {
    hide Step, Xor;
    if n > 0 {
      StepLinear(a, b);
      StepsLinear(n - 1, Step(a), Step(b));
    }
  }

  lemma {:induction false} StepsAdd(m: nat, n: nat, c: bv32)
    ensures Steps(m + n, c) == Steps(n, Steps(m, c))
  {
    if m > 0 { StepsAdd(m - 1, n, Step(c)); }
  }

  /** Eight steps over a zero byte just shift it out. */
  lemma ShiftOutByte(c: bv32)
    requires c & 0xFF == 0
    ensures Steps(8, c) == c >> 8
  {
    var c1, c2, c3, c4 := c >> 1, c >> 2, c >> 3, c >> 4;
    var c5, c6, c7, c8 := c >> 5, c >> 6, c >> 7, c >> 8;
    assert Step(c) == c1 && Step(c1) == c2 && Step(c2) == c3 && Step(c3) == c4;
    assert Step(c4) == c5 && Step(c5) == c6 && Step(c6) == c7 && Step(c7) == c8;
    assert Steps(8, c) == Steps(7, c1) == Steps(6, c2) == Steps(5, c3) == Steps(4, c4);
    assert Steps(4, c4) == Steps(3, c5) == Steps(2, c6) == Steps(1, c7) == Steps(0, c8);
  }

  /** One byte, bit by bit. */
  lemma FoldBits(c: bv32, b: bv8)
    ensures FoldByte(c, b) == Step(Step(Step(Step(Step(Step(Step(Step(c ^ (b as bv32)))))))))
  {
    hide Step;
    var c0 := c ^ (b as bv32);
    var c1 := Step(c0);
    var c2 := Step(c1);
    var c3 := Step(c2);
    var c4 := Step(c3);
    var c5 := Step(c4);
    var c6 := Step(c5);
    var c7 := Step(c6);
    assert Steps(8, c0) == Steps(7, c1) == Steps(6, c2) == Steps(5, c3) == Steps(4, c4);
    assert Steps(4, c4) == Steps(3, c5) == Steps(2, c6) == Steps(1, c7) == Steps(0, Step(c7));
  }

  lemma FoldTwo(c: bv32, a: bv8, b: bv8)
    ensures Fold(c, [a, b]) == FoldByte(FoldByte(c, a), b)
  {
    hide FoldByte;
    assert [a, b][..1] == [a] && [a][..0] == [];
    assert Fold(c, [a]) == FoldByte(Fold(c, []), a);
  }

  /** The characters 1 to 9. */
  const DIGITS: seq<bv8> := [0x31, 0x32, 0x33, 0x34, 0x35, 0x36, 0x37, 0x38, 0x39]

  /** The check value by which CRC-32/ISO-HDLC is known. */
  lemma CheckValue()
    ensures Crc32Of(DIGITS) == 0xCBF4_3926
  {
    hide FoldByte, Fold;
    FoldedDigits();
    FoldStart(DIGITS);
    FoldOneMore(DIGITS, 0, 0xFFFF_FFFF, 0x7C23_1048);
    FoldOneMore(DIGITS, 1, 0x7C23_1048, 0xB0AC_BB32);
    FoldOneMore(DIGITS, 2, 0xB0AC_BB32, 0x77B7_9C2D);
    FoldOneMore(DIGITS, 3, 0x77B7_9C2D, 0x641C_1F5C);
    FoldOneMore(DIGITS, 4, 0x641C_1F5C, 0x340A_C5E3);
    FoldOneMore(DIGITS, 5, 0x340A_C5E3, 0xF68D_2C9E);
    FoldOneMore(DIGITS, 6, 0xF68D_2C9E, 0xAFFC_9660);
    FoldOneMore(DIGITS, 7, 0xAFFC_9660, 0x651F_2550);
    FoldOneMore(DIGITS, 8, 0x651F_2550, 0x340B_C6D9);
    assert DIGITS[..9] == DIGITS;
  }

  lemma FoldStart(data: seq<bv8>)
    ensures Fold(0xFFFF_FFFF, data[..0]) == 0xFFFF_FFFF
  {
  }

  lemma FoldOneMore(data: seq<bv8>, i: nat, c: bv32, d: bv32)
    requires i < |data| && Fold(0xFFFF_FFFF, data[..i]) == c && FoldByte(c, data[i]) == d
    ensures Fold(0xFFFF_FFFF, data[..i + 1]) == d
  {
    hide FoldByte;
    assert data[..i + 1][..i] == data[..i];
  }

  lemma FoldedDigits()
    ensures FoldByte(0xFFFF_FFFF, 0x31) == 0x7C23_1048
    ensures FoldByte(0x7C23_1048, 0x32) == 0xB0AC_BB32
    ensures FoldByte(0xB0AC_BB32, 0x33) == 0x77B7_9C2D
    ensures FoldByte(0x77B7_9C2D, 0x34) == 0x641C_1F5C
    ensures FoldByte(0x641C_1F5C, 0x35) == 0x340A_C5E3
    ensures FoldByte(0x340A_C5E3, 0x36) == 0xF68D_2C9E
    ensures FoldByte(0xF68D_2C9E, 0x37) == 0xAFFC_9660
    ensures FoldByte(0xAFFC_9660, 0x38) == 0x651F_2550
    ensures FoldByte(0x651F_2550, 0x39) == 0x340B_C6D9
  {
    hide FoldByte;
    assert FoldByte(0xFFFF_FFFF, 0x31) == 0x7C23_1048 by { FoldBits(0xFFFF_FFFF, 0x31); }
    assert FoldByte(0x7C23_1048, 0x32) == 0xB0AC_BB32 by { FoldBits(0x7C23_1048, 0x32); }
    assert FoldByte(0xB0AC_BB32, 0x33) == 0x77B7_9C2D by { FoldBits(0xB0AC_BB32, 0x33); }
    assert FoldByte(0x77B7_9C2D, 0x34) == 0x641C_1F5C by { FoldBits(0x77B7_9C2D, 0x34); }
    assert FoldByte(0x641C_1F5C, 0x35) == 0x340A_C5E3 by { FoldBits(0x641C_1F5C, 0x35); }
    assert FoldByte(0x340A_C5E3, 0x36) == 0xF68D_2C9E by { FoldBits(0x340A_C5E3, 0x36); }
    assert FoldByte(0xF68D_2C9E, 0x37) == 0xAFFC_9660 by { FoldBits(0xF68D_2C9E, 0x37); }
    assert FoldByte(0xAFFC_9660, 0x38) == 0x651F_2550 by { FoldBits(0xAFFC_9660, 0x38); }
    assert FoldByte(0x651F_2550, 0x39) == 0x340B_C6D9 by { FoldBits(0x651F_2550, 0x39); }
  }

  // ----- words as lanes; named so that proofs about Steps need not look inside -----

  function Up8(x: bv32): bv32 { x << 8 }
  function Up16(x: bv32): bv32 { x << 16 }
  function Up24(x: bv32): bv32 { x << 24 }
  function Down8(x: bv32): bv32 { x >> 8 }
  function Lane0(w: bv32): bv32 { w & 0xFF }
  function Lane1(w: bv32): bv32 { (w >> 8) & 0xFF }
  function Lane2(w: bv32): bv32 { (w >> 16) & 0xFF }
  function Lane3(w: bv32): bv32 { w >> 24 }
  function Byte(b: bv8): bv32 { b as bv32 }

  lemma UpFacts(x: bv32)
    requires x <= 0xFF
    ensures Up8(x) & 0xFF == 0 && Down8(Up8(x)) == x
    ensures Up16(x) & 0xFF == 0 && Down8(Up16(x)) == Up8(x)
    ensures Up24(x) & 0xFF == 0 && Down8(Up24(x)) == Up16(x)
  {
  }

  lemma SplitLanes(w: bv32)
    ensures w == Xor(Xor(Xor(Lane0(w), Up8(Lane1(w))), Up16(Lane2(w))), Up24(Lane3(w)))
    ensures Lane0(w) <= 0xFF && Lane1(w) <= 0xFF && Lane2(w) <= 0xFF && Lane3(w) <= 0xFF
  {
  }

  lemma ByteFits(b: bv8)
    ensures Byte(b) <= 0xFF
  {
  }

  /** A little-endian 32-bit load. */
  function Load(b0: bv8, b1: bv8, b2: bv8, b3: bv8): bv32 {
    (b0 as bv32) | ((b1 as bv32) << 8) | ((b2 as bv32) << 16) | ((b3 as bv32) << 24)
  }

  lemma LoadIsXor(c: bv32, b0: bv8, b1: bv8, b2: bv8, b3: bv8)
    ensures Xor(c, Load(b0, b1, b2, b3)) ==
            Xor(Xor(Xor(Xor(c, Byte(b0)), Up8(Byte(b1))), Up16(Byte(b2))), Up24(Byte(b3)))
  {
    hide Xor, Load, Up8, Up16, Up24, Byte;
    LanesAreDisjoint(b0, b1, b2, b3);
    XorRegroup(c, Byte(b0), Up8(Byte(b1)), Up16(Byte(b2)), Up24(Byte(b3)));
  }

  lemma LanesAreDisjoint(b0: bv8, b1: bv8, b2: bv8, b3: bv8)
    ensures Load(b0, b1, b2, b3) == Xor(Xor(Xor(Byte(b0), Up8(Byte(b1))), Up16(Byte(b2))), Up24(Byte(b3)))
  {
    ByteFits(b0); ByteFits(b1); ByteFits(b2); ByteFits(b3);
    LanesOr(b0 as bv32, b1 as bv32, b2 as bv32, b3 as bv32);
  }

  lemma LanesOr(x0: bv32, x1: bv32, x2: bv32, x3: bv32)
    requires x0 <= 0xFF && x1 <= 0xFF && x2 <= 0xFF && x3 <= 0xFF
    ensures x0 | (x1 << 8) | (x2 << 16) | (x3 << 24) == ((x0 ^ (x1 << 8)) ^ (x2 << 16)) ^ (x3 << 24)
  {
  }

  lemma XorRegroup(c: bv32, x0: bv32, x1: bv32, x2: bv32, x3: bv32)
    ensures Xor(c, Xor(Xor(Xor(x0, x1), x2), x3)) == Xor(Xor(Xor(Xor(c, x0), x1), x2), x3)
  {
    hide Xor;
    XorAssociates(c, Xor(Xor(x0, x1), x2), x3);
    XorAssociates(c, Xor(x0, x1), x2);
    XorAssociates(c, x0, x1);
  }

  lemma XorAssociates(a: bv32, b: bv32, c: bv32)
    ensures Xor(a, Xor(b, c)) == Xor(Xor(a, b), c)
  {
  }

  // ----- slicing: a byte sitting k bytes up is reached after k byte steps -----

  lemma ShiftOutByteNamed(c: bv32)
    requires c & 0xFF == 0
    ensures Steps(8, c) == Down8(c)
  {
    hide Steps;
    ShiftOutByte(c);
  }

  lemma Wait(x: bv32)
    requires x <= 0xFF
    ensures Steps(8, Up8(x)) == x && Steps(16, Up16(x)) == x && Steps(24, Up24(x)) == x
  {
    hide Steps, Step, Up8, Up16, Up24, Down8;
    UpFacts(x);
    ShiftOutByteNamed(Up8(x));
    ShiftOutByteNamed(Up16(x));
    ShiftOutByteNamed(Up24(x));
    StepsAdd(8, 8, Up16(x));
    StepsAdd(8, 16, Up24(x));
  }

  /** Folding in bytes that would only be reached later. */
  lemma FoldAhead(k: nat, c: bv32, x: bv32, waiting: bv32)
    requires Steps(k, waiting) == x
    ensures Xor(Steps(k, c), x) == Steps(k, Xor(c, waiting))
  {
    hide Xor;
    StepsLinear(k, c, waiting);
  }

  lemma FoldByteNamed(c: bv32, b: bv8)
    ensures FoldByte(c, b) == Steps(8, Xor(c, Byte(b)))
  {
    hide Steps;
  }

  /** Four bytes at once. */
  lemma FoldFour(c: bv32, b0: bv8, b1: bv8, b2: bv8, b3: bv8)
    ensures FoldByte(FoldByte(FoldByte(FoldByte(c, b0), b1), b2), b3) == Steps(32, Xor(c, Load(b0, b1, b2, b3)))
  {
    hide Steps, Step, Load, Xor, Up8, Up16, Up24, Byte, FoldByte;
    LoadIsXor(c, b0, b1, b2, b3);
    ByteFits(b1); ByteFits(b2); ByteFits(b3);
    Wait(Byte(b1)); Wait(Byte(b2)); Wait(Byte(b3));
    var c1 := Xor(c, Byte(b0));
    FoldByteNamed(c, b0);
    var c2 := Xor(c1, Up8(Byte(b1)));
    FoldByteNamed(Steps(8, c1), b1);
    FoldAhead(8, c1, Byte(b1), Up8(Byte(b1)));
    StepsAdd(8, 8, c2);
    var c3 := Xor(c2, Up16(Byte(b2)));
    FoldByteNamed(Steps(16, c2), b2);
    FoldAhead(16, c2, Byte(b2), Up16(Byte(b2)));
    StepsAdd(16, 8, c3);
    FoldByteNamed(Steps(24, c3), b3);
    FoldAhead(24, c3, Byte(b3), Up24(Byte(b3)));
    StepsAdd(24, 8, Xor(c3, Up24(Byte(b3))));
  }

  // ----- the tables -----

  /** Table t holds what byte i becomes after t + 1 byte steps: table t is table 0 advanced by t zero bytes. */
  function TableEntry(t: nat, i: bv32): bv32 {
    Steps(8 * (t + 1), i)
  }

  function HighPart(c: bv32): bv32 { c & 0xFFFF_FF00 }

  lemma SplitLowByte(c: bv32)
    ensures c == Xor(Lane0(c), HighPart(c))
    ensures HighPart(c) & 0xFF == 0 && Down8(HighPart(c)) == Down8(c)
  {
  }

  /** One byte step through table 0. */
  lemma ByteStepByTable(c: bv32)
    ensures Steps(8, c) == Xor(TableEntry(0, Lane0(c)), Down8(c))
  {
    hide Steps, Step, Xor, Lane0, HighPart, Down8;
    SplitLowByte(c);
    StepsLinear(8, Lane0(c), HighPart(c));
    ShiftOutByteNamed(HighPart(c));
  }

  lemma NextTable(t: nat, i: bv32)
    ensures TableEntry(t + 1, i) == Xor(TableEntry(0, Lane0(TableEntry(t, i))), Down8(TableEntry(t, i)))
  {
    hide Steps, Step, Xor, Lane0, Down8;
    StepsAdd(8 * (t + 1), 8, i);
    ByteStepByTable(TableEntry(t, i));
  }

  /** The four lookups a word's lanes make in tables k + 3 down to k. */
  function FourLookups(k: nat, w: bv32): bv32 {
    Xor(Xor(Xor(TableEntry(k + 3, Lane0(w)), TableEntry(k + 2, Lane1(w))), TableEntry(k + 1, Lane2(w))),
        TableEntry(k, Lane3(w)))
  }

  lemma Lanes(k: nat, w: bv32)
    ensures Steps(8 * (k + 4), w) == FourLookups(k, w)
  {
    hide Steps, Step, Xor, Lane0, Lane1, Lane2, Lane3, Up8, Up16, Up24;
    var x0, x1, x2, x3 := Lane0(w), Lane1(w), Lane2(w), Lane3(w);
    SplitLanes(w);
    Wait(x1); Wait(x2); Wait(x3);
    var n := 8 * (k + 4);
    StepsLinear(n, Xor(Xor(x0, Up8(x1)), Up16(x2)), Up24(x3));
    StepsLinear(n, Xor(x0, Up8(x1)), Up16(x2));
    StepsLinear(n, x0, Up8(x1));
    StepsAdd(8, 8 * (k + 3), Up8(x1));
    StepsAdd(16, 8 * (k + 2), Up16(x2));
    StepsAdd(24, 8 * (k + 1), Up24(x3));
  }

  /** One slice-by-8 round: two words, eight independent lookups. */
  lemma EightLookups(one: bv32, hi: bv32)
    ensures Steps(32, Xor(Steps(32, one), hi)) == Xor(FourLookups(4, one), FourLookups(0, hi))
  {
    hide Steps, Step, Xor, FourLookups;
    Lanes(4, one);
    Lanes(0, hi);
    StepsAdd(32, 32, one);
    StepsLinear(32, Steps(32, one), hi);
  }

  // ----- splitting the input -----

  lemma {:induction false} FoldConcat(c: bv32, a: seq<bv8>, b: seq<bv8>)
    ensures Fold(c, a + b) == Fold(Fold(c, a), b)
  {
    hide FoldByte;
    if b == [] {
      assert a + b == a;
    } else {
      var n := |b| - 1;
      assert (a + b)[..|a| + n] == a + b[..n];
      FoldConcat(c, a, b[..n]);
    }
  }

  lemma FoldFourOf(c: bv32, d: seq<bv8>)
    requires |d| == 4
    ensures Fold(c, d) == Steps(32, Xor(c, Load(d[0], d[1], d[2], d[3])))
  {
    hide Steps, Load, FoldByte, Xor;
    FoldFour(c, d[0], d[1], d[2], d[3]);
    assert d[..3][..2] == d[..2] && d[..2][..1] == d[..1] && d[..1][..0] == [];
    assert Fold(c, d[..1]) == FoldByte(c, d[0]);
    assert Fold(c, d[..2]) == FoldByte(Fold(c, d[..1]), d[1]);
    assert Fold(c, d[..3]) == FoldByte(Fold(c, d[..2]), d[2]);
  }

  lemma FoldEight(c: bv32, d: seq<bv8>)
    requires |d| == 8
    ensures var one := Xor(c, Load(d[0], d[1], d[2], d[3]));
            Fold(c, d) == Xor(FourLookups(4, one), FourLookups(0, Load(d[4], d[5], d[6], d[7])))
  {
    hide Steps, Load, Xor, Fold, FourLookups;
    var one, hi := Xor(c, Load(d[0], d[1], d[2], d[3])), Load(d[4], d[5], d[6], d[7]);
    assert d == d[..4] + d[4..];
    FoldConcat(c, d[..4], d[4..]);
    FoldFourOf(c, d[..4]);
    FoldFourOf(Fold(c, d[..4]), d[4..]);
    EightLookups(one, hi);
  }

  // ----- the imperative kernel -----

  function Index(i: bv32): (k: nat)
    requires i <= 0xFF
    ensures k < 256
  {
    i as int
  }

  lemma IndexIsInjective(i: bv32, j: bv32)
    requires i <= 0xFF && j <= 0xFF && Index(i) == Index(j)
    ensures i == j
  {
  }

  /** The eight lookup tables. */
  class Crc32Table {
    const entries: array2<bv32>

    /** Row t is right for the bytes below `n`. */
    ghost predicate Row(t: nat, n: bv32)
      requires entries.Length0 == 8 && entries.Length1 == 256 && t < 8 && n <= 256
      reads entries
    {
      forall i: bv32 {:trigger Index(i)} :: i < n ==> entries[t, Index(i)] == TableEntry(t, i)
    }

    ghost predicate Valid()
      reads entries
    {
      entries.Length0 == 8 && entries.Length1 == 256 && forall t :: 0 <= t < 8 ==> Row(t, 256)
    }

    lemma Entry(t: nat, i: bv32)
      requires Valid() && t < 8 && i <= 0xFF
      ensures entries[t, Index(i)] == TableEntry(t, i)
    {
      assert Row(t, 256);
    }

    constructor ()
      ensures Valid() && fresh(entries)
    {
      entries := new bv32[8, 256];
      new;
      FillFirst();
      var t := 1;
      while t < 8
        invariant 1 <= t <= 8
        invariant forall u :: 0 <= u < t ==> Row(u, 256)
      {
        label before:
        FillNext(t);
        forall u | 0 <= u < t ensures Row(u, 256) {
          assert old@before(Row(u, 256));
          forall i: bv32 {:trigger Index(i)} | i < 256 ensures entries[u, Index(i)] == TableEntry(u, i) {
            assert old@before(entries[u, Index(i)]) == TableEntry(u, i);
          }
        }
        t := t + 1;
      }
    }

    /** Table 0: eight bit steps of each byte. */
    method FillFirst()
      requires entries.Length0 == 8 && entries.Length1 == 256
      modifies entries
      ensures Row(0, 256)
    {
      hide TableEntry;
      var i: bv32 := 0;
      while i < 256
        invariant i <= 256 && Row(0, i)
        decreases 256 - i
      {
        var c := EightSteps(i);
        OtherIndices(i);
        entries[0, Index(i)] := c;
        i := i + 1;
      }
    }

    /** Table t from table t - 1 and table 0. */
    method FillNext(t: nat)
      requires entries.Length0 == 8 && entries.Length1 == 256 && 1 <= t < 8
      requires Row(0, 256) && Row(t - 1, 256)
      modifies entries
      ensures Row(t, 256)
      ensures forall u, k :: 0 <= u < 8 && u != t && 0 <= k < 256 ==> entries[u, k] == old(entries[u, k])
    {
      hide TableEntry, Xor, Lane0, Down8, Index;
      var i: bv32 := 0;
      while i < 256
        invariant i <= 256 && Row(t, i)
        invariant forall u, k :: 0 <= u < 8 && u != t && 0 <= k < 256 ==> entries[u, k] == old(entries[u, k])
        decreases 256 - i
      {
        var prev := entries[t - 1, Index(i)];
        NextTable(t - 1, i);
        Lane0Fits(prev);
        OtherIndices(i);
        entries[t, Index(i)] := Xor(entries[0, Index(Lane0(prev))], Down8(prev));
        i := i + 1;
      }
    }
  }

  lemma OtherIndices(i: bv32)
    requires i <= 0xFF
    ensures forall j: bv32 {:trigger Index(j)} :: j < i ==> Index(j) != Index(i)
  {
    forall j: bv32 {:trigger Index(j)} | j < i ensures Index(j) != Index(i) {
      if Index(j) == Index(i) { IndexIsInjective(j, i); }
    }
  }

  lemma Lane0Fits(w: bv32)
    ensures Lane0(w) <= 0xFF
  {
  }

  /** The inner loop of the table constructor. */
  method EightSteps(i: bv32) returns (c: bv32)
    ensures c == TableEntry(0, i)
  {
    hide Step;
    c := i;
    var k := 0;
    while k < 8
      invariant 0 <= k <= 8
      invariant Steps(8 - k, c) == Steps(8, i)
    {
      c := Step(c);
      k := k + 1;
    }
  }

  /** Streaming CRC-32. */
  class Crc32 {
    const table: Crc32Table
    var state: bv32

    constructor (table: Crc32Table)
      ensures this.table == table && state == 0xFFFF_FFFF
    {
      this.table := table;
      state := 0xFFFF_FFFF;
    }

    method Update(data: seq<bv8>)
      requires table.Valid()
      modifies this
      ensures state == Fold(old(state), data)
    {
      hide Fold, FourLookups, TableEntry;
      var c := state;
      var pos := 0;
      FoldNothing(c, data[..0]);
      while |data| - pos >= 8
        invariant 0 <= pos <= |data|
        invariant c == Fold(old(state), data[..pos])
      {
        c := SliceRound(table, c, data[pos..pos + 8]);
        FoldConcat(old(state), data[..pos], data[pos..pos + 8]);
        assert data[..pos] + data[pos..pos + 8] == data[..pos + 8];
        pos := pos + 8;
      }
      while pos < |data|
        invariant 0 <= pos <= |data|
        invariant c == Fold(old(state), data[..pos])
      {
        c := ByteRound(table, c, data[pos]);
        FoldConcat(old(state), data[..pos], [data[pos]]);
        assert data[..pos] + [data[pos]] == data[..pos + 1];
        pos := pos + 1;
      }
      assert data[..pos] == data;
      state := c;
    }

    method Value() returns (v: bv32)
      ensures v == state ^ 0xFFFF_FFFF
    {
      v := state ^ 0xFFFF_FFFF;
    }

    method Reset()
      modifies this
      ensures state == 0xFFFF_FFFF
    {
      state := 0xFFFF_FFFF;
    }
  }

  lemma FoldNothing(c: bv32, data: seq<bv8>)
    requires data == []
    ensures Fold(c, data) == c
  {
  }

  /** Eight bytes through eight tables. */
  method SliceRound(t: Crc32Table, c: bv32, d: seq<bv8>) returns (r: bv32)
    requires t.Valid() && |d| == 8
    ensures r == Fold(c, d)
  {
    hide Fold, TableEntry, Lane0, Lane1, Lane2, Lane3, Xor, Load;
    var one := Xor(c, Load(d[0], d[1], d[2], d[3]));
    var hi := Load(d[4], d[5], d[6], d[7]);
    FoldEight(c, d);
    SplitLanes(one);
    SplitLanes(hi);
    t.Entry(7, Lane0(one)); t.Entry(6, Lane1(one)); t.Entry(5, Lane2(one)); t.Entry(4, Lane3(one));
    t.Entry(3, Lane0(hi)); t.Entry(2, Lane1(hi)); t.Entry(1, Lane2(hi)); t.Entry(0, Lane3(hi));
    r := Xor(Xor(Xor(Xor(t.entries[7, Index(Lane0(one))], t.entries[6, Index(Lane1(one))]),
                         t.entries[5, Index(Lane2(one))]), t.entries[4, Index(Lane3(one))]),
             Xor(Xor(Xor(t.entries[3, Index(Lane0(hi))], t.entries[2, Index(Lane1(hi))]),
                     t.entries[1, Index(Lane2(hi))]), t.entries[0, Index(Lane3(hi))]));
  }

  /** The bytewise tail. */
  method ByteRound(t: Crc32Table, c: bv32, b: bv8) returns (r: bv32)
    requires t.Valid()
    ensures r == Fold(c, [b])
  {
    hide TableEntry, Lane0, Xor, Down8, Steps, Byte;
    var x := Xor(c, Byte(b));
    Lane0Fits(x);
    t.Entry(0, Lane0(x));
    ByteStepByTable(x);
    FoldByteNamed(c, b);
    assert [b][..0] == [];
    LowByteOnly(c, b);
    r := Xor(t.entries[0, Index(Lane0(x))], Down8(c));
  }

  lemma LowByteOnly(c: bv32, b: bv8)
    ensures Down8(Xor(c, Byte(b))) == Down8(c)
  {
  }

  /** CRC-32 of a byte string. */
  method Compute(t: Crc32Table, data: seq<bv8>) returns (v: bv32)
    requires t.Valid()
    ensures v == Crc32Of(data)
  {
    hide Fold;
    var crc := new Crc32(t);
    crc.Update(data);
    v := crc.Value();
  }
}
