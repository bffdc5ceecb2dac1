/** Log-linear buckets: powers of two, each divided linearly. */
module Buckets {
  import opened CoreTypes
  import opened Decimal
  import opened Bits

  // ----- shifts -----

  function Shl(x: nat, k: nat): nat { if k == 0 then x else 2 * Shl(x, k - 1) }

  function Shr(x: nat, k: nat): nat { if k == 0 then x else Shr(x / 2, k - 1) }

  /** The `k` lowest bits. */
  function Low(x: nat, k: nat): nat { if k == 0 then 0 else x % 2 + 2 * Low(x / 2, k - 1) }

  lemma {:induction false} ShiftSplit(x: nat, k: nat)
    ensures x == Shl(Shr(x, k), k) + Low(x, k) && Low(x, k) < Pow2(k)
  {
    if k > 0 { ShiftSplit(x / 2, k - 1); }
  }

  lemma {:induction false} ShiftUnique(x: nat, k: nat, q: nat, r: nat)
    requires x == Shl(q, k) + r && r < Pow2(k)
    ensures Shr(x, k) == q && Low(x, k) == r
  {
    if k > 0 { ShiftUnique(x / 2, k - 1, q, r / 2); }
  }

  lemma {:induction false} ShlAdd(x: nat, y: nat, k: nat)
    ensures Shl(x + y, k) == Shl(x, k) + Shl(y, k)
  {
    if k > 0 { ShlAdd(x, y, k - 1); }
  }

  lemma {:induction false} ShlOne(k: nat)
    ensures Shl(1, k) == Pow2(k)
  {
    if k > 0 { ShlOne(k - 1); }
  }

  lemma ShlNext(x: nat, k: nat)
    ensures Shl(x + 1, k) == Shl(x, k) + Pow2(k)
  {
    ShlAdd(x, 1, k);
    ShlOne(k);
  }

  lemma ShlMonotone(x: nat, y: nat, k: nat)
    requires x <= y
    ensures Shl(x, k) <= Shl(y, k)
  {
    ShlAdd(x, y - x, k);
  }

  lemma {:induction false} ShlPow(a: nat, k: nat)
    ensures Shl(Pow2(a), k) == Pow2(a + k)
  {
    if k > 0 { ShlPow(a, k - 1); }
  }

  lemma {:induction false} ShlIsProduct(x: nat, k: nat)
    ensures Shl(x, k) == x * Pow2(k)
  {
    if k > 0 {
      ShlIsProduct(x, k - 1);
      Doubled(x, Pow2(k - 1));
    }
  }

  /** Bounds on a value are bounds on its shift. */
  lemma ShrBetween(v: nat, k: nat, lo: nat, hi: nat)
    requires Shl(lo, k) <= v < Shl(hi, k)
    ensures lo <= Shr(v, k) < hi
  {
    hide Shl, Shr, Low;
    var q := Shr(v, k);
    ShiftSplit(v, k);
    ShlNext(q, k);
    if q < lo { ShlMonotone(q + 1, lo, k); }
    if hi <= q { ShlMonotone(hi, q, k); }
  }

  lemma ShrMonotone(v: nat, w: nat, k: nat)
    requires v <= w
    ensures Shr(v, k) <= Shr(w, k)
  {
    hide Shl, Shr, Low;
    ShiftSplit(v, k);
    ShiftSplit(w, k);
    ShlNext(Shr(w, k), k);
    if Shr(v, k) > Shr(w, k) { ShlMonotone(Shr(w, k) + 1, Shr(v, k), k); }
  }

  lemma {:induction false} BitLengthBounds(v: nat)
    ensures v < Pow2(BitLength(v))
    ensures v > 0 ==> BitLength(v) > 0 && Pow2(BitLength(v) - 1) <= v
  {
    if v > 0 { BitLengthBounds(v / 2); }
  }

  lemma {:induction false} BitLengthMonotone(v: nat, w: nat)
    requires v <= w
    ensures BitLength(v) <= BitLength(w)
  {
    if w > 0 { BitLengthMonotone(v / 2, w / 2); }
  }

  /** Or-ing in a mask of `m` ones makes the length at least `m`, and changes no longer one. */
  lemma {:induction false} OrMask(v: nat, m: nat)
    ensures BitLength(Or(v, Pow2(m) - 1)) == Max(BitLength(v), m)
  {
    hide Or, BitLength, Pow2;
    if m == 0 {
      OrZero(v);
      assert Pow2(0) == 1 by { PowZero(); }
    } else {
      OrMask(v / 2, m - 1);
      OrOdd(v, Pow2(m - 1) - 1);
      PowDoubles(m);
      OddLength(Or(v / 2, Pow2(m - 1) - 1));
      LengthStep(v);
    }
  }

  lemma PowZero()
    ensures Pow2(0) == 1
  {
  }

  lemma PowDoubles(m: nat)
    requires m > 0
    ensures Pow2(m) == 2 * Pow2(m - 1)
  {
  }

  lemma OddLength(x: nat)
    ensures BitLength(2 * x + 1) == 1 + BitLength(x)
  {
  }

  lemma LengthStep(v: nat)
    ensures BitLength(v) == if v == 0 then 0 else 1 + BitLength(v / 2)
  {
  }

  lemma OrOdd(v: nat, n: nat)
    ensures Or(v, 2 * n + 1) == 2 * Or(v / 2, n) + 1
  {
  }

  lemma {:induction false} OrZero(v: nat)
    ensures Or(v, 0) == v
  {
    if v > 0 { OrZero(v / 2); }
  }

  // ----- the layout -----

  /** Sub-bucket bits, number of power-of-two buckets, and the largest value kept apart. */
  type positive = k: nat | k > 0 witness 1

  datatype Layout = Layout(magnitude: positive, buckets: nat, highest: nat)

  predicate LayoutOk(l: Layout) {
    && l.magnitude <= 18 && 1 <= l.buckets <= 64
    && 2 <= l.highest <= 0x4000_0000_0000_0000 && l.highest < Pow2(l.magnitude + l.buckets - 1)
  }

  function Half(l: Layout): nat
  {
    Pow2(l.magnitude - 1)
  }

  function Slots(l: Layout): nat
  {
    Shl(l.buckets + 1, l.magnitude - 1)
  }

  function BucketIndex(l: Layout, v: nat): nat {
    OrMask(v, l.magnitude);
    BitLength(Or(v, Pow2(l.magnitude) - 1)) - l.magnitude
  }

  function SubBucketIndex(v: nat, bucket: nat): nat { Shr(v, bucket) }

  /** The slot of a value; the offset is an unsigned difference that may wrap below zero. */
  function IndexFor(l: Layout, v: nat): nat
  {
    var bucket := BucketIndex(l, v);
    var base := Shl(bucket + 1, l.magnitude - 1);
    var offset := (SubBucketIndex(v, bucket) - Half(l)) % U64_MODULUS;
    (base + offset) % U64_MODULUS
  }

  function ValueAtIndex(l: Layout, i: nat): nat
  {
    var bucket := Shr(i, l.magnitude - 1) - 1;
    var sub := Low(i, l.magnitude - 1) + Half(l);
    if bucket < 0 then sub - Half(l) else Shl(sub, bucket)
  }

  function LowestEquivalent(l: Layout, v: nat): nat {
    Shl(SubBucketIndex(v, BucketIndex(l, v)), BucketIndex(l, v))
  }

  function HighestEquivalent(l: Layout, v: nat): int {
    LowestEquivalent(l, v) + Pow2(BucketIndex(l, v)) - 1
  }

  lemma BucketIs(l: Layout, v: nat)
    ensures BucketIndex(l, v) == Max(BitLength(v), l.magnitude) - l.magnitude
  {
    OrMask(v, l.magnitude);
  }

  /** The values of bucket `b`: all the small ones, or those of its own bit length. */
  lemma BucketRange(l: Layout, v: nat)
    ensures var b := BucketIndex(l, v);
            v < Pow2(l.magnitude + b) && (b > 0 ==> Pow2(l.magnitude + b - 1) <= v)
  {
    hide BucketIndex, Pow2;
    BucketIs(l, v);
    BitLengthBounds(v);
    if BitLength(v) < l.magnitude { PowMonotone(BitLength(v), l.magnitude); }
  }

  /** Which values a bucket holds settles the bucket. */
  lemma BucketByRange(l: Layout, v: nat, b: nat)
    requires v < Pow2(l.magnitude + b) && (b > 0 ==> Pow2(l.magnitude + b - 1) <= v)
    ensures BucketIndex(l, v) == b
  {
    hide BucketIndex, Pow2;
    var c := BucketIndex(l, v);
    BucketRange(l, v);
    if c < b { PowMonotone(l.magnitude + c, l.magnitude + b - 1); }
    if b < c { PowMonotone(l.magnitude + b, l.magnitude + c - 1); }
  }

  /** Where a value lies in its bucket.  Only bucket 0 uses the lower half. */
  lemma Place(l: Layout, v: nat)
    ensures var b := BucketIndex(l, v);
            var sub := SubBucketIndex(v, b);
            && sub < Pow2(l.magnitude) && (b > 0 ==> sub >= Half(l))
            && Shl(sub, b) <= v < Shl(sub, b) + Pow2(b)
  {
    hide BucketIndex, Pow2, Shl, Shr, Low;
    var b := BucketIndex(l, v);
    BucketRange(l, v);
    ShiftSplit(v, b);
    ShlPow(l.magnitude, b);
    ShlPow(l.magnitude - 1, b);
    Nothing(b);
    ShrBetween(v, b, if b > 0 then Half(l) else 0, Pow2(l.magnitude));
  }

  lemma {:induction false} Nothing(k: nat)
    ensures Shl(0, k) == 0
  {
    if k > 0 { Nothing(k - 1); }
  }

  lemma Halves(l: Layout)
    ensures Pow2(l.magnitude) == 2 * Half(l)
  {
  }

  /** The slot numbers as plain sums: the wrapping arithmetic never loses anything. */
  lemma IndexIs(l: Layout, v: nat)
    requires LayoutOk(l) && v <= l.highest
    ensures BucketIndex(l, v) < l.buckets
    ensures IndexFor(l, v) == Shl(BucketIndex(l, v), l.magnitude - 1) + SubBucketIndex(v, BucketIndex(l, v)) < Slots(l)
  {
    hide BucketIndex, Pow2, Shl, SubBucketIndex;
    var b, m := BucketIndex(l, v), l.magnitude - 1;
    Place(l, v);
    Halves(l);
    BucketRange(l, v);
    if b >= l.buckets { PowMonotone(l.magnitude + l.buckets - 1, l.magnitude + b - 1); }
    ShlNext(b, m);
    ShlNext(l.buckets, m);
    ShlMonotone(b + 1, l.buckets, m);
    SlotsAreFew(l);
    Unwrapped(Shl(b + 1, m), SubBucketIndex(v, b), Half(l));
  }

  lemma Unwrapped(base: nat, sub: nat, half: nat)
    requires half <= base && base + sub < U64_MODULUS
    ensures (base + (sub - half) % U64_MODULUS) % U64_MODULUS == base + sub - half
  {
    if sub < half {
      assert (sub - half) % U64_MODULUS == sub - half + U64_MODULUS;
    }
  }

  lemma SlotsAreFew(l: Layout)
    requires LayoutOk(l)
    ensures Slots(l) + Half(l) < 0x1_0000_0000 && Half(l) <= Slots(l)
  {
    hide Pow2, Shl;
    var m := l.magnitude - 1;
    ShlMonotone(l.buckets + 1, 128, m);
    ShlOne(m);
    ShlMonotone(1, l.buckets + 1, m);
    SmallPowers();
    ShlPow(7, m);
    PowMonotone(m, 17);
    PowMonotone(7 + m, 24);
  }

  lemma SmallPowers()
    ensures Pow2(7) == 128 && Pow2(17) == 0x2_0000 && Pow2(24) == 0x100_0000
  {
    assert Pow2(4) == 16;
    assert Pow2(7) == 128;
    assert Pow2(10) == 1024;
    assert Pow2(14) == 0x4000;
    assert Pow2(17) == 0x2_0000;
    assert Pow2(20) == 0x10_0000;
  }

  /** No larger value ever lands in an earlier slot. */
  lemma IndexMonotone(l: Layout, v: nat, w: nat)
    requires LayoutOk(l) && v <= w <= l.highest
    ensures IndexFor(l, v) <= IndexFor(l, w)
  {
    hide IndexFor, BucketIndex, Pow2, Shl, Shr;
    var b, c, m := BucketIndex(l, v), BucketIndex(l, w), l.magnitude - 1;
    IndexIs(l, v);
    IndexIs(l, w);
    Place(l, v);
    Place(l, w);
    Halves(l);
    BucketMonotone(l, v, w);
    if b == c {
      ShrMonotone(v, w, b);
    } else {
      ShlNext(b, m);
      ShlMonotone(b + 1, c, m);
    }
  }

  lemma BucketMonotone(l: Layout, v: nat, w: nat)
    requires v <= w
    ensures BucketIndex(l, v) <= BucketIndex(l, w)
  {
    hide BucketIndex, BitLength;
    BucketIs(l, v);
    BucketIs(l, w);
    BitLengthMonotone(v, w);
  }

  /** A slot's own value is the smallest that lands in it. */
  lemma ValueAtIndexInverts(l: Layout, v: nat)
    requires LayoutOk(l) && v <= l.highest
    ensures ValueAtIndex(l, IndexFor(l, v)) == LowestEquivalent(l, v)
    ensures LowestEquivalent(l, v) <= v <= HighestEquivalent(l, v)
  {
    hide IndexFor, BucketIndex, Pow2, Shl, Shr, Low, SubBucketIndex;
    var b, m := BucketIndex(l, v), l.magnitude - 1;
    var sub := SubBucketIndex(v, b);
    IndexIs(l, v);
    Place(l, v);
    Halves(l);
    if sub < Half(l) {
      Nothing(m);
      ShiftUnique(IndexFor(l, v), m, 0, sub);
      UnitBucket(sub);
    } else {
      ShlNext(b, m);
      ShiftUnique(IndexFor(l, v), m, b + 1, sub - Half(l));
    }
  }

  lemma UnitBucket(sub: nat)
    ensures Shl(sub, 0) == sub && Pow2(0) == 1
  {
  }

  /** Everything from a slot's lowest value to its highest lands in it, and has the same range. */
  lemma InRange(l: Layout, v: nat, w: nat)
    requires LayoutOk(l) && v <= l.highest && w <= l.highest
    requires LowestEquivalent(l, v) <= w <= HighestEquivalent(l, v)
    ensures IndexFor(l, w) == IndexFor(l, v)
    ensures LowestEquivalent(l, w) == LowestEquivalent(l, v) && HighestEquivalent(l, w) == HighestEquivalent(l, v)
  {
    hide IndexFor, BucketIndex, Pow2, Shl, Shr, Low;
    var b := BucketIndex(l, v);
    var sub := SubBucketIndex(v, b);
    Place(l, v);
    ShiftUnique(w, b, sub, w - Shl(sub, b));
    ShlNext(sub, b);
    ShlMonotone(sub + 1, Pow2(l.magnitude), b);
    ShlPow(l.magnitude, b);
    if b > 0 {
      ShlMonotone(Half(l), sub, b);
      ShlPow(l.magnitude - 1, b);
    }
    BucketByRange(l, w, b);
    IndexIs(l, v);
    IndexIs(l, w);
  }

  /** Two values share a slot exactly when the one lies in the other's range. */
  lemma SlotIsRange(l: Layout, v: nat, w: nat)
    requires LayoutOk(l) && v <= l.highest && w <= l.highest
    ensures IndexFor(l, v) == IndexFor(l, w) <==> LowestEquivalent(l, v) <= w <= HighestEquivalent(l, v)
  {
    hide IndexFor, BucketIndex, Pow2, Shl, Shr, SubBucketIndex, HighestEquivalent, LowestEquivalent;
    ValueAtIndexInverts(l, v);
    ValueAtIndexInverts(l, w);
    if LowestEquivalent(l, v) <= w <= HighestEquivalent(l, v) {
      InRange(l, v, w);
    } else if IndexFor(l, v) == IndexFor(l, w) {
      SameLowest(l, v, w);
    }
  }

  /** Values with one lowest value have one highest. */
  lemma SameLowest(l: Layout, v: nat, w: nat)
    requires LayoutOk(l) && v <= l.highest && w <= l.highest && IndexFor(l, v) == IndexFor(l, w)
    ensures HighestEquivalent(l, w) == HighestEquivalent(l, v)
  {
    hide IndexFor, BucketIndex, Pow2, Shl, Shr, SubBucketIndex;
    ValueAtIndexInverts(l, v);
    ValueAtIndexInverts(l, w);
    var low := LowestEquivalent(l, v);
    LowestInRange(l, v);
    InRange(l, v, low);
    InRange(l, w, low);
  }

  lemma LowestInRange(l: Layout, v: nat)
    ensures LowestEquivalent(l, v) <= HighestEquivalent(l, v)
  {
    hide BucketIndex, LowestEquivalent;
  }

  /** The value a slot reports covers exactly its range. */
  lemma ReportedRange(l: Layout, v: nat)
    requires LayoutOk(l) && v <= l.highest
    ensures HighestEquivalent(l, ValueAtIndex(l, IndexFor(l, v))) == HighestEquivalent(l, v)
  {
    hide IndexFor, HighestEquivalent, LowestEquivalent, ValueAtIndex;
    ValueAtIndexInverts(l, v);
    LowestInRange(l, v);
    InRange(l, v, LowestEquivalent(l, v));
  }

  /** Precision: with at least twice 10^figures sub-buckets, a slot is narrower than one part in
      10^figures of any positive value in it, and values below the first bucket are exact. */
  lemma Precise(l: Layout, v: nat, figures: nat)
    requires LayoutOk(l) && v <= l.highest && Pow2(l.magnitude) >= 2 * Pow10(figures)
    ensures v > 0 ==> (HighestEquivalent(l, v) - v) * Pow10(figures) < v
    ensures v < Pow2(l.magnitude) ==> HighestEquivalent(l, v) == v
  {
    hide IndexFor, BucketIndex, Pow2, Shl, SubBucketIndex, Pow10;
    var b := BucketIndex(l, v);
    var sub, ten := SubBucketIndex(v, b), Pow10(figures);
    Place(l, v);
    Halves(l);
    BucketRange(l, v);
    if b == 0 {
      UnitBucket(sub);
    } else {
      PowMonotone(l.magnitude, l.magnitude + b - 1);
      ShlMonotone(Half(l), sub, b);
      ShlIsProduct(Half(l), b);
      SmallGap(HighestEquivalent(l, v) - v, ten, Half(l), Pow2(b), v);
    }
  }

  lemma SmallGap(gap: nat, ten: nat, half: nat, width: nat, v: nat)
    requires gap < width && 0 < ten <= half && half * width <= v
    ensures gap * ten < v
  {
    AtMost(gap, width - 1, ten);
    AtMost(ten, half, width);
    assert (width - 1) * ten == ten * width - ten;
  }

  lemma AtMost(a: nat, b: nat, h: nat)
    requires a <= b
    ensures a * h <= b * h
  {
  }
}
