/** Values behind ArraySide: the direct-address window, the sorted spill list, and the map they spell. */
module PriceWindow {
  import opened CoreTypes
  import opened BookOrder

  /** MapSide::apply: quantities are absolute and zero removes the level. */
  function ApplyLevel(m: map<int, int>, price: int, qty: int): map<int, int> {
    if qty == 0 then m - {price} else m[price := qty]
  }

  // ----- the window -----

  /** Occupied slots in [lo, hi). */
  ghost function Occupied(w: seq<int>, lo: int, hi: int): nat
    requires 0 <= lo && hi <= |w|
    decreases hi - lo
  {
    if hi <= lo then 0 else Occupied(w, lo, hi - 1) + if w[hi - 1] != 0 then 1 else 0
  }

  lemma {:induction false} OccupiedSplit(w: seq<int>, lo: int, mid: int, hi: int)
    requires 0 <= lo <= mid <= hi <= |w|
    ensures Occupied(w, lo, hi) == Occupied(w, lo, mid) + Occupied(w, mid, hi)
    decreases hi - mid
  {
    if mid < hi { OccupiedSplit(w, lo, mid, hi - 1); }
  }

  lemma {:induction false} OccupiedZero(w: seq<int>, lo: int, hi: int)
    requires 0 <= lo && hi <= |w|
    ensures Occupied(w, lo, hi) == 0 <==> forall i :: lo <= i < hi ==> w[i] == 0
    decreases hi - lo
  {
    if lo < hi { OccupiedZero(w, lo, hi - 1); }
  }

  lemma {:induction false} OccupiedUpdate(w: seq<int>, i: nat, q: int, lo: int, hi: int)
    requires i < |w| && 0 <= lo && hi <= |w|
    ensures Occupied(w[i := q], lo, hi) ==
            Occupied(w, lo, hi) + (if lo <= i < hi then (if q != 0 then 1 else 0) - (if w[i] != 0 then 1 else 0) else 0)
    decreases hi - lo
  {
    if lo < hi { OccupiedUpdate(w, i, q, lo, hi - 1); }
  }

  /** Slots run upward in price, so the better one is the lower on asks and the higher on bids. */
  predicate BetterIndex(side: Side, candidate: int, incumbent: int) {
    if side.Ask? then candidate < incumbent else candidate > incumbent
  }

  /** Every occupied slot is at `i` or on the far side of it. */
  ghost predicate NoneBetter(side: Side, w: seq<int>, i: int) {
    forall j :: 0 <= j < |w| && w[j] != 0 ==> !BetterIndex(side, j, i)
  }

  /** The counted, hinted and watermarked window. */
  ghost predicate WindowOk(side: Side, w: seq<int>, count: nat, best: nat, lo: nat, hi: nat) {
    && count == Occupied(w, 0, |w|)
    && (count > 0 ==> best < |w| && w[best] != 0 && NoneBetter(side, w, best))
    && (lo <= hi ==> hi < |w|)
    && (forall i :: 0 <= i < |w| && w[i] != 0 ==> lo <= i <= hi)
  }

  // ----- the spill list -----

  ghost predicate Ascending(o: seq<Level>) {
    forall i, j :: 0 <= i < j < |o| ==> o[i].price < o[j].price
  }

  /** The quantity spilled at `p`, zero if none. */
  ghost function Lookup(o: seq<Level>, p: int): int {
    if o == [] then 0
    else if o[|o| - 1].price == p then o[|o| - 1].qty
    else Lookup(o[..|o| - 1], p)
  }

  lemma {:induction false} LookupAt(o: seq<Level>, i: nat)
    requires Ascending(o) && i < |o|
    ensures Lookup(o, o[i].price) == o[i].qty
  {
    if i < |o| - 1 { LookupAt(o[..|o| - 1], i); }
  }

  lemma {:induction false} LookupNone(o: seq<Level>, p: int)
    requires forall i :: 0 <= i < |o| ==> o[i].price != p
    ensures Lookup(o, p) == 0
  {
    if o != [] { LookupNone(o[..|o| - 1], p); }
  }

  /** Listed prices carry nonzero quantities and lie outside [base, base + n). */
  ghost predicate SpillOk(o: seq<Level>, base: int, n: nat) {
    && Ascending(o)
    && (forall i :: 0 <= i < |o| ==> o[i].qty != 0 && !(base <= o[i].price < base + n))
  }

  // ----- the map they spell -----

  ghost function QtyAt(w: seq<int>, base: int, o: seq<Level>, p: int): int {
    if base <= p < base + |w| then w[p - base] else Lookup(o, p)
  }

  ghost predicate AgreeAt(m: map<int, int>, w: seq<int>, base: int, o: seq<Level>, p: int) {
    if p in m then m[p] == QtyAt(w, base, o, p) && m[p] != 0 else QtyAt(w, base, o, p) == 0
  }

  ghost predicate Agree(m: map<int, int>, w: seq<int>, base: int, o: seq<Level>) {
    forall p :: AgreeAt(m, w, base, o, p)
  }

  lemma AgreeAfterStore(m: map<int, int>, w: seq<int>, base: int, o: seq<Level>, i: nat, q: int)
    requires Agree(m, w, base, o) && i < |w|
    ensures Agree(ApplyLevel(m, base + i, q), w[i := q], base, o)
  {
    var m', w' := ApplyLevel(m, base + i, q), w[i := q];
    forall p: int ensures AgreeAt(m', w', base, o, p) {
      assert AgreeAt(m, w, base, o, p);
    }
  }

  lemma AgreeAfterSpill(m: map<int, int>, w: seq<int>, base: int, o: seq<Level>, o': seq<Level>, price: int, q: int)
    requires Agree(m, w, base, o) && !(base <= price < base + |w|)
    requires forall p :: Lookup(o', p) == if p == price then q else Lookup(o, p)
    ensures Agree(ApplyLevel(m, price, q), w, base, o')
  {
    var m' := ApplyLevel(m, price, q);
    forall p: int ensures AgreeAt(m', w, base, o', p) {
      assert AgreeAt(m, w, base, o, p);
    }
  }

  function InsertAt(o: seq<Level>, k: nat, l: Level): seq<Level>
    requires k <= |o|
  { o[..k] + [l] + o[k..] }

  function EraseAt(o: seq<Level>, k: nat): seq<Level>
    requires k < |o|
  { o[..k] + o[k + 1..] }

  /** `k` is where `price` lives in `o`, or where it would be inserted. */
  ghost predicate LowerBound(o: seq<Level>, price: int, k: nat) {
    && k <= |o|
    && (forall i :: 0 <= i < k ==> o[i].price < price)
    && (forall i :: k <= i < |o| ==> o[i].price >= price)
  }

  lemma LookupByListing(o: seq<Level>, p: int)
    requires Ascending(o)
    ensures (exists i :: 0 <= i < |o| && o[i].price == p && Lookup(o, p) == o[i].qty)
         || ((forall i :: 0 <= i < |o| ==> o[i].price != p) && Lookup(o, p) == 0)
  {
    if i :| 0 <= i < |o| && o[i].price == p {
      LookupAt(o, i);
    } else {
      LookupNone(o, p);
    }
  }

  lemma InsertKeepsAscending(o: seq<Level>, k: nat, l: Level)
    requires Ascending(o) && LowerBound(o, l.price, k) && (k < |o| ==> o[k].price != l.price)
    ensures Ascending(InsertAt(o, k, l)) && |InsertAt(o, k, l)| == |o| + 1
  {
  }

  lemma InsertedAt(o: seq<Level>, k: nat, l: Level, i: nat)
    requires k <= |o| && i <= |o| && |InsertAt(o, k, l)| == |o| + 1
    ensures InsertAt(o, k, l)[i] == if i < k then o[i] else if i == k then l else o[i - 1]
  {
  }

  lemma LookupInsert(o: seq<Level>, k: nat, l: Level, p: int)
    requires Ascending(o) && LowerBound(o, l.price, k) && (k < |o| ==> o[k].price != l.price)
    ensures Ascending(InsertAt(o, k, l))
    ensures Lookup(InsertAt(o, k, l), p) == if p == l.price then l.qty else Lookup(o, p)
  {
    hide Lookup, InsertAt, Ascending;
    var n := InsertAt(o, k, l);
    InsertKeepsAscending(o, k, l);
    if p == l.price {
      InsertedAt(o, k, l, k);
      LookupAt(n, k);
    } else if i :| 0 <= i < |o| && o[i].price == p {
      InsertedAt(o, k, l, if i < k then i else i + 1);
      LookupAt(o, i);
      LookupAt(n, if i < k then i else i + 1);
    } else {
      LookupNone(o, p);
      forall i | 0 <= i < |n| ensures n[i].price != p { InsertedAt(o, k, l, i); }
      LookupNone(n, p);
    }
  }

  lemma LookupReplace(o: seq<Level>, k: nat, q: int, p: int)
    requires Ascending(o) && k < |o|
    ensures Ascending(o[k := o[k].(qty := q)])
    ensures Lookup(o[k := o[k].(qty := q)], p) == if p == o[k].price then q else Lookup(o, p)
  {
    var n := o[k := o[k].(qty := q)];
    LookupByListing(o, p);
    LookupByListing(n, p);
    if i :| 0 <= i < |o| && o[i].price == p && Lookup(o, p) == o[i].qty {
      LookupAt(n, i);
    } else {
      assert forall i :: 0 <= i < |n| ==> n[i].price == o[i].price;
    }
  }

  lemma EraseKeepsAscending(o: seq<Level>, k: nat)
    requires Ascending(o) && k < |o|
    ensures Ascending(EraseAt(o, k))
    ensures forall i :: 0 <= i < |o| - 1 ==> EraseAt(o, k)[i] == o[if i < k then i else i + 1]
  {
  }

  lemma LookupErase(o: seq<Level>, k: nat, p: int)
    requires Ascending(o) && k < |o|
    ensures Ascending(EraseAt(o, k))
    ensures Lookup(EraseAt(o, k), p) == if p == o[k].price then 0 else Lookup(o, p)
  {
    EraseKeepsAscending(o, k);
    var n := EraseAt(o, k);
    LookupByListing(o, p);
    LookupByListing(n, p);
    if p == o[k].price {
      assert forall i :: 0 <= i < |n| ==> n[i].price != p;
    } else if i :| 0 <= i < |o| && o[i].price == p && Lookup(o, p) == o[i].qty {
      assert n[if i < k then i else i - 1] == o[i];
      LookupAt(n, if i < k then i else i - 1);
    } else {
      assert forall i :: 0 <= i < |n| ==> n[i].price != p;
    }
  }

  // ----- the touch of the map they spell -----

  /** The spilled level nearest the touch: ascending storage puts it first for asks, last for bids. */
  function SpillTouch(side: Side, o: seq<Level>): Level
    requires o != []
  {
    if side.Ask? then o[0] else o[|o| - 1]
  }

  lemma WindowIsTouch(side: Side, m: map<int, int>, w: seq<int>, base: int, o: seq<Level>, i: nat)
    requires Agree(m, w, base, o) && SpillOk(o, base, |w|)
    requires i < |w| && w[i] != 0 && NoneBetter(side, w, i)
    requires o == [] || Precedes(side, base + i, SpillTouch(side, o).price)
    ensures IsTouch(side, m.Keys, base + i) && m[base + i] == w[i]
  {
    assert AgreeAt(m, w, base, o, base + i);
    forall q | q in m.Keys && q != base + i ensures Precedes(side, base + i, q) {
      assert AgreeAt(m, w, base, o, q);
      LookupByListing(o, q);
    }
  }

  lemma SpillIsTouch(side: Side, m: map<int, int>, w: seq<int>, base: int, o: seq<Level>, i: nat)
    requires Agree(m, w, base, o) && SpillOk(o, base, |w|) && o != []
    requires if i < |w| then NoneBetter(side, w, i) && Precedes(side, SpillTouch(side, o).price, base + i)
             else forall j :: 0 <= j < |w| ==> w[j] == 0
    ensures IsTouch(side, m.Keys, SpillTouch(side, o).price)
    ensures m[SpillTouch(side, o).price] == SpillTouch(side, o).qty
  {
    var t := SpillTouch(side, o);
    LookupAt(o, if side.Ask? then 0 else |o| - 1);
    assert AgreeAt(m, w, base, o, t.price);
    forall q | q in m.Keys && q != t.price ensures Precedes(side, t.price, q) {
      assert AgreeAt(m, w, base, o, q);
      LookupByListing(o, q);
    }
  }

  function PopTouch(side: Side, o: seq<Level>): seq<Level>
    requires o != []
  {
    if side.Ask? then o[1..] else o[..|o| - 1]
  }

  lemma LookupPop(side: Side, o: seq<Level>, p: int)
    requires Ascending(o) && o != []
    ensures Lookup(PopTouch(side, o), p) == if p == SpillTouch(side, o).price then 0 else Lookup(o, p)
  {
    var k := if side.Ask? then 0 else |o| - 1;
    assert EraseAt(o, k) == PopTouch(side, o);
    LookupErase(o, k, p);
  }

  lemma PopKeepsSpillOk(side: Side, o: seq<Level>, base: int, n: nat)
    requires SpillOk(o, base, n) && o != []
    ensures SpillOk(PopTouch(side, o), base, n)
  {
  }

  /** The spill list without the `taken` levels nearest the touch. */
  function UntakenSpill(side: Side, o: seq<Level>, taken: nat): seq<Level>
    requires taken <= |o|
  {
    if side.Ask? then o[taken..] else o[..|o| - taken]
  }

  lemma UntakenSpillStep(side: Side, o: seq<Level>, taken: nat)
    requires taken <= |o|
    ensures |UntakenSpill(side, o, taken)| == |o| - taken
    ensures taken < |o| ==>
              && SpillTouch(side, UntakenSpill(side, o, taken)) == (if side.Ask? then o[taken] else o[|o| - 1 - taken])
              && PopTouch(side, UntakenSpill(side, o, taken)) == UntakenSpill(side, o, taken + 1)
  {
  }

  // ----- one store, one removal -----

  /** The watermarks after writing slot `i`. */
  function Marked(lo: nat, hi: nat, i: nat): (nat, nat) {
    if lo > hi then (i, i) else (if i < lo then i else lo, if i > hi then i else hi)
  }

  lemma StoreFacts(side: Side, w: seq<int>, count: nat, best: nat, lo: nat, hi: nat, i: nat, q: int)
    requires WindowOk(side, w, count, best, lo, hi) && i < |w| && q != 0
    ensures var count' := if w[i] == 0 then count + 1 else count;
            var best' := if w[i] == 0 && (count == 0 || BetterIndex(side, i, best)) then i else best;
            WindowOk(side, w[i := q], count', best', Marked(lo, hi, i).0, Marked(lo, hi, i).1)
  {
    OccupiedUpdate(w, i, q, 0, |w|);
    OccupiedZero(w, 0, |w|);
  }

  /** The window just after slot `i` was emptied: all is well unless `i` was the hint. */
  ghost predicate JustEmptied(side: Side, w: seq<int>, count: nat, best: nat, lo: nat, hi: nat, i: nat) {
    && i < |w| && w[i] == 0
    && count == Occupied(w, 0, |w|)
    && (count > 0 ==> best < |w| && NoneBetter(side, w, best) && (i != best ==> w[best] != 0))
    && (lo <= hi ==> hi < |w|)
    && (forall j :: 0 <= j < |w| && w[j] != 0 ==> lo <= j <= hi)
  }

  lemma RemoveFacts(side: Side, w: seq<int>, count: nat, best: nat, lo: nat, hi: nat, i: nat)
    requires WindowOk(side, w, count, best, lo, hi) && i < |w| && w[i] != 0
    ensures count > 0 && JustEmptied(side, w[i := 0], count - 1, best, lo, hi, i)
  {
    OccupiedUpdate(w, i, 0, 0, |w|);
    OccupiedZero(w, 0, |w|);
  }

  lemma SizeAfterStore(m: map<int, int>, w: seq<int>, base: int, o: seq<Level>, i: nat, q: int)
    requires Agree(m, w, base, o) && i < |w|
    ensures |ApplyLevel(m, base + i, q)| ==
            |m| + (if q != 0 then 1 else 0) - (if w[i] != 0 then 1 else 0)
  {
    SizeAfterApply(m, base + i, q);
    assert AgreeAt(m, w, base, o, base + i);
  }

  lemma SizeAfterApply(m: map<int, int>, p: int, q: int)
    ensures |ApplyLevel(m, p, q)| == |m| + (if q != 0 then 1 else 0) - (if p in m then 1 else 0)
  {
    assert ApplyLevel(m, p, q).Keys == if q == 0 then m.Keys - {p} else m.Keys + {p};
    assert |ApplyLevel(m, p, q).Keys| == |ApplyLevel(m, p, q)| && |m.Keys| == |m|;
  }

  /** Outside the window, the binary search answers whether the map has the level. */
  lemma SpillMember(m: map<int, int>, w: seq<int>, base: int, o: seq<Level>, k: nat, p: int)
    requires Agree(m, w, base, o) && SpillOk(o, base, |w|) && LowerBound(o, p, k)
    requires !(base <= p < base + |w|)
    ensures p in m <==> k < |o| && o[k].price == p
    ensures p !in m ==> Lookup(o, p) == 0
  {
    assert AgreeAt(m, w, base, o, p);
    LookupByListing(o, p);
  }

  lemma SpillSetFacts(m: map<int, int>, w: seq<int>, base: int, o: seq<Level>, k: nat, p: int, q: int)
    requires Agree(m, w, base, o) && SpillOk(o, base, |w|) && LowerBound(o, p, k)
    requires q != 0 && !(base <= p < base + |w|)
    ensures var there := k < |o| && o[k].price == p;
            var o' := if there then o[k := Level(p, q)] else InsertAt(o, k, Level(p, q));
            && there == (p in m)
            && SpillOk(o', base, |w|) && Agree(ApplyLevel(m, p, q), w, base, o')
            && |ApplyLevel(m, p, q)| == |m| + if there then 0 else 1
  {
    hide Lookup, Agree;
    var there := k < |o| && o[k].price == p;
    var o' := if there then o[k := Level(p, q)] else InsertAt(o, k, Level(p, q));
    SpillMember(m, w, base, o, k, p);
    forall x ensures Lookup(o', x) == if x == p then q else Lookup(o, x) {
      if there { LookupReplace(o, k, q, x); } else { LookupInsert(o, k, Level(p, q), x); }
    }
    AgreeAfterSpill(m, w, base, o, o', p, q);
    SizeAfterApply(m, p, q);
    SpillStaysOk(o, base, |w|, k, p, q);
  }

  lemma SpillStaysOk(o: seq<Level>, base: int, n: nat, k: nat, p: int, q: int)
    requires SpillOk(o, base, n) && LowerBound(o, p, k) && q != 0 && !(base <= p < base + n)
    ensures SpillOk(if k < |o| && o[k].price == p then o[k := Level(p, q)] else InsertAt(o, k, Level(p, q)), base, n)
  {
  }

  lemma SpillEraseFacts(m: map<int, int>, w: seq<int>, base: int, o: seq<Level>, k: nat, p: int)
    requires Agree(m, w, base, o) && SpillOk(o, base, |w|) && LowerBound(o, p, k)
    requires !(base <= p < base + |w|)
    ensures var there := k < |o| && o[k].price == p;
            var o' := if there then EraseAt(o, k) else o;
            && SpillOk(o', base, |w|) && Agree(ApplyLevel(m, p, 0), w, base, o')
            && |ApplyLevel(m, p, 0)| == |m| - if there then 1 else 0
  {
    hide Lookup, Agree;
    var there := k < |o| && o[k].price == p;
    var o' := if there then EraseAt(o, k) else o;
    SpillMember(m, w, base, o, k, p);
    forall x ensures Lookup(o', x) == if x == p then 0 else Lookup(o, x) {
      if there { LookupErase(o, k, x); }
    }
    if there { EraseKeepsAscending(o, k); }
    AgreeAfterSpill(m, w, base, o, o', p, 0);
    SizeAfterApply(m, p, 0);
  }
}
