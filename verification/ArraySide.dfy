/** The two side containers.  MapSide is the reference; ArraySide stores the levels in a window that
    follows the book plus a sorted spill list, and is proved to be the same map. */
module Sides {
  import opened CoreTypes
  import opened BookOrder
  import opened PriceWindow

  /** Price levels in an ordered map: the reference container. */
  class MapSide {
    const side: Side
    var levels: map<int, int>

    constructor (side: Side)
      ensures this.side == side && levels == map[]
    {
      this.side := side;
      levels := map[];
    }

    method Apply(price: int64, qty: int64)
      modifies this
      ensures levels == ApplyLevel(old(levels), price, qty)
    {
      if qty == 0 { levels := levels - {price}; } else { levels := levels[price := qty]; }
    }

    method Best() returns (best: Option<Level>)
      ensures best == var all := InOrder(side, levels); if all == [] then None else Some(all[0])
    {
      if levels == map[] { return None; }
      var p := Touch(side, levels.Keys);
      best := Some(Level(p, levels[p]));
    }

    method ForEach(more: seq<Level> -> bool) returns (seen: seq<Level>)
      ensures seen == Visited(InOrder(side, levels), more)
    {
      seen := Walk(InOrder(side, levels), more);
    }
  }

  const OVERFLOW_REBUILD_THRESHOLD: nat := 64
  const NO_DIRTY: nat := 0xFFFF_FFFF_FFFF_FFFF

  /** The whole window [base, base + slots) lies inside the int64 range. */
  predicate BaseOk(base: int, slots: nat) {
    INT64_MIN <= base <= INT64_MAX && (slots > 0 ==> base + slots - 1 <= INT64_MAX)
  }

  /** Centre the window on `touch`, clamped so that it never leaves the int64 range. */
  function AnchorFor(slots: nat, touch: int): (base: int)
    requires slots <= INT64_MAX && INT64_MIN <= touch <= INT64_MAX
    ensures BaseOk(base, slots)
    ensures slots > 0 ==> base <= touch < base + slots
  {
    var half := slots / 2;
    var span := if slots == 0 then 0 else slots - 1;
    var highest := INT64_MAX - span;
    if touch < INT64_MIN + half then INT64_MIN
    else if touch - half > highest then highest
    else touch - half
  }

  /** The window reaches as far below the touch as above, but for an odd slot, unless one end of the
      int64 range is in the way; then it lies against that end. */
  lemma AnchorIsCentred(slots: nat, touch: int)
    requires 0 < slots <= INT64_MAX && INT64_MIN <= touch <= INT64_MAX
    ensures var base := AnchorFor(slots, touch);
            var below, above := touch - base, base + slots - 1 - touch;
            if touch - slots / 2 < INT64_MIN then base == INT64_MIN
            else if touch - slots / 2 + slots - 1 > INT64_MAX then base + slots - 1 == INT64_MAX
            else 0 <= below - above <= 1
  {
  }

  /** Window membership by one unsigned subtraction, which wraps modulo 2^64.  Confining the window
      to the int64 range is what makes the wrapped comparison exact. */
  function WindowIndex(base: int, slots: nat, ticks: int): (index: Option<nat>)
    requires BaseOk(base, slots) && INT64_MIN <= ticks <= INT64_MAX
    ensures index == if base <= ticks < base + slots then Some(ticks - base) else None
  {
    var offset := (ticks - base) % U64_MODULUS;
    if offset >= slots then None else Some(offset)
  }

  function Reversed(o: seq<Level>): (r: seq<Level>)
    ensures |r| == |o|
  {
    if o == [] then [] else [o[|o| - 1]] + Reversed(o[..|o| - 1])
  }

  lemma ReversedAppend(o: seq<Level>, l: Level)
    ensures Reversed(o + [l]) == [l] + Reversed(o)
  {
    assert (o + [l])[..|o|] == o;
  }

  /** The spill list in ascending order, given it in book order. */
  function AscendingForm(side: Side, o: seq<Level>): seq<Level> {
    if side.Ask? then o else Reversed(o)
  }

  lemma AgreeEmpty(w: seq<int>, base: int)
    requires forall i :: 0 <= i < |w| ==> w[i] == 0
    ensures Agree(map[], w, base, [])
  {
    var empty: map<int, int> := map[];
    forall p: int ensures AgreeAt(empty, w, base, [], p) {
    }
  }

  lemma EmptyWindowOk(side: Side, w: seq<int>, best: nat)
    requires forall i :: 0 <= i < |w| ==> w[i] == 0
    ensures WindowOk(side, w, 0, best, NO_DIRTY, 0)
  {
    OccupiedZero(w, 0, |w|);
  }

  /** Everything about the fields but the rebuild accounting. */
  ghost predicate Spelled(side: Side, slots: nat, w: seq<int>, overflow: seq<Level>, base: int, count: nat,
                          best: nat, lo: nat, hi: nat, anchored: bool, levels: map<int, int>) {
    && |w| == slots <= INT64_MAX && BaseOk(base, slots)
    && WindowOk(side, w, count, best, lo, hi)
    && SpillOk(overflow, base, slots)
    && Agree(levels, w, base, overflow)
    && |levels| == count + |overflow|
    && (forall p :: p in levels ==> INT64_MIN <= p <= INT64_MAX)
    && (!anchored ==> count == 0 && overflow == [])
  }

  // ----- refilling after a rebuild -----

  /** The first `k` levels of `s`, as a map. */
  ghost function PrefixMap(s: seq<Level>, k: nat): map<int, int>
    requires k <= |s|
  {
    if k == 0 then map[] else PrefixMap(s, k - 1)[s[k - 1].price := s[k - 1].qty]
  }

  lemma {:induction false} PrefixMapOfListing(side: Side, m: map<int, int>, s: seq<Level>, k: nat)
    requires Lists(side, m, s) && k <= |s|
    ensures forall p :: p in PrefixMap(s, k) ==> p in m && m[p] == PrefixMap(s, k)[p]
    ensures forall i :: 0 <= i < k ==> s[i].price in PrefixMap(s, k)
    ensures k < |s| ==> forall p :: p in PrefixMap(s, k) ==> Precedes(side, p, s[k].price)
  {
    if k > 0 {
      PrefixMapOfListing(side, m, s, k - 1);
      assert s[k - 1] in s;
    }
  }

  lemma WholeListing(side: Side, m: map<int, int>, s: seq<Level>)
    requires Lists(side, m, s)
    ensures PrefixMap(s, |s|) == m
  {
    var all := PrefixMap(s, |s|);
    PrefixMapOfListing(side, m, s, |s|);
    forall p: int ensures p in all <==> p in m {
      if p in m {
        assert Level(p, m[p]) in s;
        var i :| 0 <= i < |s| && s[i] == Level(p, m[p]);
        assert s[i].price in all;
      }
    }
    assert all.Keys == m.Keys;
    assert forall p :: p in m ==> all[p] == m[p];
  }

  lemma RefillWindow(side: Side, slots: nat, w: seq<int>, o: seq<Level>, base: int, count: nat, best: nat,
                     lo: nat, hi: nat, done: map<int, int>, l: Level)
    requires Spelled(side, slots, w, o, base, count, best, lo, hi, true, done)
    requires INT64_MIN <= l.price <= INT64_MAX && l.qty != 0 && base <= l.price < base + slots
    requires forall p :: p in done ==> Precedes(side, p, l.price)
    ensures var i := l.price - base;
            Spelled(side, slots, w[i := l.qty], o, base, count + 1, if count == 0 then i else best,
                    Marked(lo, hi, i).0, Marked(lo, hi, i).1, true, done[l.price := l.qty])
  {
    hide Agree, SpillOk, Occupied;
    var i := l.price - base;
    SlotFree(done, w, base, o, i);
    if count > 0 { SlotTaken(done, w, base, o, best); }
    StoreFacts(side, w, count, best, lo, hi, i, l.qty);
    AgreeAfterStore(done, w, base, o, i, l.qty);
    SizeAfterStore(done, w, base, o, i, l.qty);
  }

  lemma SlotFree(m: map<int, int>, w: seq<int>, base: int, o: seq<Level>, i: nat)
    requires Agree(m, w, base, o) && i < |w|
    ensures w[i] == 0 <==> base + i !in m
  {
    assert AgreeAt(m, w, base, o, base + i);
  }

  lemma SlotTaken(m: map<int, int>, w: seq<int>, base: int, o: seq<Level>, i: nat)
    requires Agree(m, w, base, o) && i < |w| && w[i] != 0
    ensures base + i in m
  {
    SlotFree(m, w, base, o, i);
  }

  lemma RefillSpill(side: Side, slots: nat, w: seq<int>, o: seq<Level>, base: int, count: nat, best: nat,
                    lo: nat, hi: nat, done: map<int, int>, l: Level)
    requires Spelled(side, slots, w, AscendingForm(side, o), base, count, best, lo, hi, true, done)
    requires INT64_MIN <= l.price <= INT64_MAX && l.qty != 0 && !(base <= l.price < base + slots)
    requires forall p :: p in done ==> Precedes(side, p, l.price)
    ensures Spelled(side, slots, w, AscendingForm(side, o + [l]), base, count, best, lo, hi, true,
                    done[l.price := l.qty])
  {
    hide Agree, WindowOk, Lookup, Ascending, AscendingForm, InsertAt, SpillOk;
    var asc := AscendingForm(side, o);
    var k := if side.Ask? then |asc| else 0;
    BackOfSpill(side, done, w, base, asc, l);
    SpillSetFacts(done, w, base, asc, k, l.price, l.qty);
    AscendingFormAppend(side, o, l);
  }

  lemma BackOfSpill(side: Side, done: map<int, int>, w: seq<int>, base: int, asc: seq<Level>, l: Level)
    requires Agree(done, w, base, asc) && SpillOk(asc, base, |w|)
    requires forall p :: p in done ==> Precedes(side, p, l.price)
    ensures LowerBound(asc, l.price, if side.Ask? then |asc| else 0)
    ensures side.Bid? && asc != [] ==> asc[0].price != l.price
  {
    forall i | 0 <= i < |asc| ensures Precedes(side, asc[i].price, l.price) {
      SpilledIsListed(done, w, base, asc, i);
    }
  }

  lemma AscendingFormAppend(side: Side, o: seq<Level>, l: Level)
    ensures AscendingForm(side, o + [l]) ==
            InsertAt(AscendingForm(side, o), if side.Ask? then |AscendingForm(side, o)| else 0, l)
    ensures |AscendingForm(side, o + [l])| == |AscendingForm(side, o)| + 1
  {
    var asc := AscendingForm(side, o);
    if side.Ask? {
      assert asc[..|asc|] == asc && asc[|asc|..] == [];
    } else {
      ReversedAppend(o, l);
      assert asc[..0] == [] && asc[0..] == asc;
    }
  }

  lemma SpilledIsListed(m: map<int, int>, w: seq<int>, base: int, o: seq<Level>, i: nat)
    requires Agree(m, w, base, o) && SpillOk(o, base, |w|) && i < |o|
    ensures o[i].price in m
  {
    assert AgreeAt(m, w, base, o, o[i].price);
    LookupAt(o, i);
  }

  lemma NextOfPrefix(side: Side, m: map<int, int>, s: seq<Level>, k: nat)
    requires Lists(side, m, s) && k < |s|
    ensures forall p :: p in PrefixMap(s, k) ==> Precedes(side, p, s[k].price)
    ensures PrefixMap(s, k + 1) == PrefixMap(s, k)[s[k].price := s[k].qty]
  {
    PrefixMapOfListing(side, m, s, k);
  }

  lemma EmptySpelled(side: Side, slots: nat, w: seq<int>, base: int, best: nat)
    requires |w| == slots <= INT64_MAX && BaseOk(base, slots) && forall i :: 0 <= i < |w| ==> w[i] == 0
    ensures Spelled(side, slots, w, AscendingForm(side, []), base, 0, best, NO_DIRTY, 0, true, PrefixMap([], 0))
    ensures forall s :: PrefixMap(s, 0) == PrefixMap([], 0)
  {
    AgreeEmpty(w, base);
    EmptyWindowOk(side, w, best);
  }

  lemma SpelledWindow(side: Side, slots: nat, w: seq<int>, overflow: seq<Level>, base: int, count: nat, best: nat,
                      lo: nat, hi: nat, levels: map<int, int>)
    requires Spelled(side, slots, w, overflow, base, count, best, lo, hi, true, levels)
    ensures |w| == slots && WindowOk(side, w, count, best, lo, hi)
  {
  }

  lemma StillBest(side: Side, w: seq<int>, count: nat, best: nat, lo: nat, hi: nat, i: nat)
    requires JustEmptied(side, w, count, best, lo, hi, i) && i != best
    ensures WindowOk(side, w, count, best, lo, hi)
  {
  }

  /** Zeroing a slot, with count and hint put right, takes its level out of the map. */
  lemma EmptiedSpells(side: Side, slots: nat, w: seq<int>, overflow: seq<Level>, base: int, count: nat, best: nat,
                      lo: nat, hi: nat, levels: map<int, int>, i: nat, count': nat, best': nat)
    requires Spelled(side, slots, w, overflow, base, count, best, lo, hi, true, levels) && i < slots
    requires WindowOk(side, w[i := 0], count', best', lo, hi)
    requires count' == count - (if w[i] != 0 then 1 else 0)
    ensures Spelled(side, slots, w[i := 0], overflow, base, count', best', lo, hi, true,
                    ApplyLevel(levels, base + i, 0))
  {
    hide Agree, SpillOk, WindowOk;
    AgreeAfterStore(levels, w, base, overflow, i, 0);
    SizeAfterStore(levels, w, base, overflow, i, 0);
  }

  class ArraySide {
    const side: Side
    const slots: nat
    const window: array<int>
    var overflow: seq<Level>
    var scratch: seq<Level>
    var base: int
    var windowCount: nat
    var bestIndex: nat
    var dirtyLo: nat
    var dirtyHi: nat
    var overflowFloor: nat
    var rebuildCount: nat
    var degraded: bool
    var anchored: bool

    /** The map this side spells. */
    ghost var levels: map<int, int>
    /** Applies so far that put a new level outside the window. */
    ghost var spills: nat

    ghost predicate Consistent()
      reads this, window
    {
      Spelled(side, slots, window[..], overflow, base, windowCount, bestIndex, dirtyLo, dirtyHi, anchored, levels)
    }

    /** Between applies the spill list is within one threshold of the floor the last rebuild left,
        and every rebuild has been paid for by 65 new spilled levels. */
    ghost predicate Amortised()
      reads this
    {
      && overflowFloor <= |overflow| <= overflowFloor + OVERFLOW_REBUILD_THRESHOLD
      && 65 * rebuildCount + (|overflow| - overflowFloor) <= spills
      && (degraded ==> overflow != [])
    }

    ghost predicate Valid()
      reads this, window
    {
      Consistent() && Amortised()
    }

    constructor (side: Side, slots: nat)
      requires slots <= INT64_MAX
      ensures Valid() && levels == map[] && spills == 0 && rebuildCount == 0
      ensures this.side == side && this.slots == slots && fresh(window)
    {
      this.side := side;
      this.slots := slots;
      window := new int[slots](_ => 0);
      overflow, scratch := [], [];
      base, windowCount, bestIndex := 0, 0, 0;
      dirtyLo, dirtyHi := NO_DIRTY, 0;
      overflowFloor, rebuildCount, degraded, anchored := 0, 0, false, false;
      levels, spills := map[], 0;
      new;
      AgreeEmpty(window[..], 0);
      EmptyWindowOk(side, window[..], 0);
    }

    method Size() returns (n: nat)
      requires Valid()
      ensures n == |levels|
    {
      n := windowCount + |overflow|;
    }

    function PriceAt(index: nat): (price: int)
      requires index < slots && BaseOk(base, slots)
      reads this
      ensures price == base + index
    {
      var wrapped := (base % U64_MODULUS + index) % U64_MODULUS;
      if wrapped > INT64_MAX then wrapped - U64_MODULUS else wrapped
    }

    method Best() returns (best: Option<Level>)
      requires Valid()
      ensures best == var all := InOrder(side, levels); if all == [] then None else Some(all[0])
    {
      hide InOrder;
      EmptyListing();
      if !(anchored && windowCount > 0) {
        if overflow == [] {
          return None;
        }
        OccupiedZero(window[..], 0, slots);
        SpillIsTouch(side, levels, window[..], base, overflow, slots);
        InOrderStep(side, levels, SpillTouch(side, overflow).price);
        return Some(SpillTouch(side, overflow));
      }
      var winPrice, winQty := PriceAt(bestIndex), window[bestIndex];
      if overflow == [] || Precedes(side, winPrice, SpillTouch(side, overflow).price) {
        WindowIsTouch(side, levels, window[..], base, overflow, bestIndex);
        InOrderStep(side, levels, winPrice);
        return Some(Level(winPrice, winQty));
      }
      SpillIsTouch(side, levels, window[..], base, overflow, bestIndex);
      InOrderStep(side, levels, SpillTouch(side, overflow).price);
      return Some(SpillTouch(side, overflow));
    }

    lemma EmptyListing()
      ensures InOrder(side, levels) == [] <==> |levels| == 0
    {
    }

    /** `rest` is the window with every slot the scan has passed on its way to `start` read as empty. */
    ghost predicate Passed(w: seq<int>, start: int, rest: seq<int>) {
      && |w| == |rest| == slots
      && (if side.Ask? then 0 <= start else -1 <= start < slots)
      && forall j :: 0 <= j < slots ==> rest[j] == if BetterIndex(side, j, start) then 0 else w[j]
    }

    /** The scan stands on the best unread slot, or at -1 when none is left. */
    ghost predicate Standing(w: seq<int>, i: int, rest: seq<int>) {
      if i == -1 then |rest| == slots && forall j :: 0 <= j < slots ==> rest[j] == 0
      else 0 <= i < slots && Passed(w, i, rest) && rest[i] != 0
    }

    /** Skip to the next occupied slot from `start` on, or to -1.  The count of unread levels lets an
        empty tail go unscanned. */
    method SeekOccupied(start: int, emitted: nat, ghost rest: seq<int>) returns (i: int)
      requires window.Length == slots == |rest| && Passed(window[..], start, rest)
      requires emitted + Occupied(rest, 0, slots) == windowCount
      ensures Standing(window[..], i, rest)
    {
      OccupiedZero(rest, 0, slots);
      if emitted >= windowCount {
        return -1;
      }
      i := start;
      while 0 <= i < slots && window[i] == 0
        invariant Passed(window[..], i, rest)
        decreases if side.Ask? then slots - i else i + 1
      {
        i := if side.Ask? then i + 1 else i - 1;
      }
      if i < 0 || i >= slots {
        i := -1;
      }
    }

    function SpilledLevel(taken: nat): Level
      requires taken < |overflow|
      reads this
    {
      if side.Ask? then overflow[taken] else overflow[|overflow| - 1 - taken]
    }

    /** Which cursor of the merge moves. */
    predicate TakesWindow(winIndex: int, taken: nat)
      requires taken <= |overflow| && winIndex < slots && BaseOk(base, slots)
      reads this
      ensures TakesWindow(winIndex, taken) ==> 0 <= winIndex
      ensures !TakesWindow(winIndex, taken) && 0 <= winIndex ==> taken < |overflow|
    {
      0 <= winIndex &&
      (taken == |overflow| || Precedes(side, PriceAt(winIndex), SpilledLevel(taken).price))
    }

    /** Read the level under the window cursor and move the cursor on. */
    method ReadWindow(winIndex: nat, taken: nat, emitted: nat, ghost all: seq<Level>, ghost seen: seq<Level>,
                      ghost rest: map<int, int>, ghost restW: seq<int>, ghost restO: seq<Level>)
      returns (l: Level, next: int, ghost rest': map<int, int>, ghost restW': seq<int>)
      requires window.Length == slots && Standing(window[..], winIndex, restW) && Unread(all, seen, rest, restW, restO)
      requires BaseOk(base, slots) && taken <= |overflow| && restO == UntakenSpill(side, overflow, taken)
      requires winIndex < slots == |restW| && TakesWindow(winIndex, taken)
      requires emitted - 1 + Occupied(restW, 0, slots) == windowCount
      ensures -1 <= next < slots && Standing(window[..], next, restW') && |restW'| == slots
      ensures Unread(all, seen + [l], rest', restW', restO)
      ensures emitted + Occupied(restW', 0, slots) == windowCount
      ensures |seen| < |all| && all[..|seen| + 1] == seen + [l]
      ensures |rest'| < |rest|
    {
      hide InOrder, Occupied, Passed, Unread, UntakenSpill, TakesWindow, BaseOk, PriceAt;
      l := Level(PriceAt(winIndex), window[winIndex]);
      TakeFromWindow(all, seen, rest, restW, restO, winIndex, taken);
      rest', restW' := rest - {l.price}, restW[winIndex := 0];
      next := SeekOccupied(if side.Ask? then winIndex + 1 else winIndex - 1, emitted, restW');
    }

    /** Read the next spilled level. */
    method ReadSpill(winIndex: int, taken: nat, ghost all: seq<Level>, ghost seen: seq<Level>,
                     ghost rest: map<int, int>, ghost restW: seq<int>, ghost restO: seq<Level>)
      returns (l: Level, ghost rest': map<int, int>, ghost restO': seq<Level>)
      requires window.Length == slots && Standing(window[..], winIndex, restW) && Unread(all, seen, rest, restW, restO)
      requires BaseOk(base, slots) && taken < |overflow| && restO == UntakenSpill(side, overflow, taken)
      requires -1 <= winIndex < slots && !TakesWindow(winIndex, taken)
      ensures restO' == UntakenSpill(side, overflow, taken + 1)
      ensures Unread(all, seen + [l], rest', restW, restO')
      ensures |seen| < |all| && all[..|seen| + 1] == seen + [l]
      ensures |rest'| < |rest|
    {
      hide Standing, Unread, UntakenSpill, TakesWindow, PopTouch, SpillTouch, SpilledLevel;
      l := SpilledLevel(taken);
      TakeFromSpill(all, seen, rest, restW, restO, winIndex, taken);
      rest', restO' := rest - {l.price}, PopTouch(side, restO);
    }

    /** Visits both containers as one list: at each step whichever of the two next levels is nearer the touch. */
    method ForEach(more: seq<Level> -> bool) returns (seen: seq<Level>)
      requires Consistent()
      ensures seen == Visited(InOrder(side, levels), more)
    {
      hide InOrder, Occupied, Visited, VisitedFrom, Standing, Passed, Spelled, Unread, UntakenSpill, TakesWindow,
          PopTouch, SpilledLevel, BaseOk, SpillTouch, PriceAt;
      // What is left to read: window slots, spill list, and the map they spell.
      ghost var restW, restO, rest := window[..], overflow, levels;
      ghost var all := InOrder(side, levels);
      seen := [];
      var taken, emitted := 0, 0;
      StartReading(all, more);
      var winIndex := -1;
      if anchored && windowCount > 0 {
        winIndex := SeekOccupied(bestIndex, 0, restW);
      }
      while winIndex >= 0 || taken < |overflow|
        invariant 0 <= taken <= |overflow| && -1 <= winIndex < slots
        invariant restO == UntakenSpill(side, overflow, taken)
        invariant Standing(window[..], winIndex, restW) && |restW| == slots
        invariant emitted + Occupied(restW, 0, slots) == windowCount
        invariant Unread(all, seen, rest, restW, restO)
        invariant |seen| <= |all| && Visited(all, more) == VisitedFrom(all, |seen|, more)
        decreases |rest|
      {
        var l;
        if TakesWindow(winIndex, taken) {
          emitted := emitted + 1;
          l, winIndex, rest, restW := ReadWindow(winIndex, taken, emitted, all, seen, rest, restW, restO);
        } else {
          l, rest, restO := ReadSpill(winIndex, taken, all, seen, rest, restW, restO);
          taken := taken + 1;
        }
        VisitStep(all, |seen|, more);
        seen := seen + [l];
        if !more(seen) {
          return;
        }
      }
      UntakenSpillStep(side, overflow, taken);
      ReadAll(all, seen, rest, restW, restO, more);
    }

    /** Of the listing `all`, `seen` has been read and `rest` is still spelled by the unread parts. */
    ghost predicate Unread(all: seq<Level>, seen: seq<Level>, rest: map<int, int>, restW: seq<int>, restO: seq<Level>)
      reads this
    {
      && |restW| == slots
      && Agree(rest, restW, base, restO) && SpillOk(restO, base, slots)
      && |rest| == Occupied(restW, 0, slots) + |restO|
      && all == seen + InOrder(side, rest)
    }

    lemma StartReading(all: seq<Level>, more: seq<Level> -> bool)
      requires Consistent() && all == InOrder(side, levels)
      ensures Unread(all, [], levels, window[..], overflow)
      ensures Visited(all, more) == VisitedFrom(all, 0, more)
      ensures windowCount > 0 ==> Passed(window[..], bestIndex, window[..])
      ensures windowCount == 0 ==> Standing(window[..], -1, window[..])
      ensures Occupied(window[..], 0, slots) == windowCount
      ensures BaseOk(base, slots) && window.Length == slots && (windowCount > 0 ==> anchored)
      ensures overflow == UntakenSpill(side, overflow, 0)
    {
      OccupiedZero(window[..], 0, slots);
    }

    lemma PassOne(w: seq<int>, i: nat, restW: seq<int>)
      requires Standing(w, i, restW)
      ensures i < slots && restW[i] == w[i] != 0 && |restW| == slots && NoneBetter(side, restW, i)
      ensures Passed(w, if side.Ask? then i + 1 else i - 1, restW[i := 0])
    {
    }

    lemma TakeFromWindow(all: seq<Level>, seen: seq<Level>, rest: map<int, int>, restW: seq<int>, restO: seq<Level>,
        i: nat, taken: nat)
      requires window.Length == slots && Standing(window[..], i, restW) && Unread(all, seen, rest, restW, restO)
      requires BaseOk(base, slots) && taken <= |overflow| && restO == UntakenSpill(side, overflow, taken)
      requires i < slots && TakesWindow(i, taken)
      ensures base + i in rest && restW[i] == window[i]
      ensures Unread(all, seen + [Level(base + i, window[i])], rest - {base + i}, restW[i := 0], restO)
      ensures Occupied(restW[i := 0], 0, slots) == Occupied(restW, 0, slots) - 1
      ensures Passed(window[..], if side.Ask? then i + 1 else i - 1, restW[i := 0])
      ensures |seen| < |all| && all[..|seen| + 1] == seen + [Level(base + i, window[i])]
      ensures |rest - {base + i}| < |rest|
    {
      hide InOrder, Occupied, Passed, Standing, NoneBetter, Unread;
      PassOne(window[..], i, restW);
      UntakenSpillStep(side, overflow, taken);
      ReadFromWindow(all, seen, rest, restW, restO, i);
    }

    /** The window's next level, when it comes before the spilled ones, is the listing's next. */
    lemma ReadFromWindow(all: seq<Level>, seen: seq<Level>, rest: map<int, int>, restW: seq<int>, restO: seq<Level>,
        i: nat)
      requires Unread(all, seen, rest, restW, restO) && i < slots == |restW|
      requires restW[i] != 0 && NoneBetter(side, restW, i)
      requires restO == [] || Precedes(side, base + i, SpillTouch(side, restO).price)
      ensures base + i in rest
      ensures Unread(all, seen + [Level(base + i, restW[i])], rest - {base + i}, restW[i := 0], restO)
      ensures Occupied(restW[i := 0], 0, slots) == Occupied(restW, 0, slots) - 1
      ensures |seen| < |all| && all[..|seen| + 1] == seen + [Level(base + i, restW[i])]
      ensures |rest - {base + i}| < |rest|
    {
      hide Agree, InOrder, Occupied, NoneBetter, Lookup, AgreeAt, IsTouch, SpillOk;
      WindowIsTouch(side, rest, restW, base, restO, i);
      AgreeAfterStore(rest, restW, base, restO, i, 0);
      OccupiedUpdate(restW, i, 0, 0, slots);
      AdvanceListing(all, seen, rest, Level(base + i, restW[i]));
      OneLess(side, rest, base + i);
    }

    lemma OneLess(side: Side, m: map<int, int>, p: int)
      requires IsTouch(side, m.Keys, p)
      ensures p in m && |m - {p}| == |m| - 1 && ApplyLevel(m, p, 0) == m - {p}
    {
      assert (m - {p}).Keys == m.Keys - {p};
    }

    lemma TakeFromSpill(all: seq<Level>, seen: seq<Level>, rest: map<int, int>, restW: seq<int>, restO: seq<Level>,
        i: int, taken: nat)
      requires window.Length == slots && Standing(window[..], i, restW) && Unread(all, seen, rest, restW, restO)
      requires BaseOk(base, slots) && taken < |overflow| && restO == UntakenSpill(side, overflow, taken)
      requires -1 <= i < slots && !TakesWindow(i, taken)
      ensures restO != [] && SpillTouch(side, restO) == SpilledLevel(taken)
      ensures PopTouch(side, restO) == UntakenSpill(side, overflow, taken + 1)
      ensures SpillTouch(side, restO).price in rest
      ensures Unread(all, seen + [SpillTouch(side, restO)], rest - {SpillTouch(side, restO).price}, restW,
          PopTouch(side, restO))
      ensures |seen| < |all| && all[..|seen| + 1] == seen + [SpillTouch(side, restO)]
      ensures |rest - {SpillTouch(side, restO).price}| < |rest|
    {
      hide InOrder, Occupied;
      UntakenSpillStep(side, overflow, taken);
      var t, o := SpillTouch(side, restO), PopTouch(side, restO);
      assert i != -1 ==> NoneBetter(side, restW, i);
      SpillIsTouch(side, rest, restW, base, restO, if i == -1 then slots else i);
      forall p ensures Lookup(o, p) == if p == t.price then 0 else Lookup(restO, p) {
        LookupPop(side, restO, p);
      }
      AgreeAfterSpill(rest, restW, base, restO, o, t.price, 0);
      PopKeepsSpillOk(side, restO, base, slots);
      assert (rest - {t.price}).Keys == rest.Keys - {t.price};
      AdvanceListing(all, seen, rest, t);
    }

    lemma ReadAll(all: seq<Level>, seen: seq<Level>, rest: map<int, int>, restW: seq<int>, restO: seq<Level>,
                  more: seq<Level> -> bool)
      requires Unread(all, seen, rest, restW, restO) && Standing(window[..], -1, restW) && restO == []
      requires Visited(all, more) == VisitedFrom(all, |seen|, more)
      ensures seen == Visited(all, more)
    {
      OccupiedZero(restW, 0, slots);
      assert all == seen;
    }

    lemma AdvanceListing(all: seq<Level>, seen: seq<Level>, rest: map<int, int>, l: Level)
      requires all == seen + InOrder(side, rest)
      requires IsTouch(side, rest.Keys, l.price) && rest[l.price] == l.qty
      ensures all == seen + [l] + InOrder(side, rest - {l.price})
      ensures |seen| < |all| && all[..|seen| + 1] == seen + [l]
    {
      InOrderStep(side, rest, l.price);
    }

    // ----- the window -----

    /** Widen the written-slot watermarks. */
    method MarkDirty(index: nat)
      modifies `dirtyLo, `dirtyHi
      ensures (dirtyLo, dirtyHi) == Marked(old(dirtyLo), old(dirtyHi), index)
    {
      if dirtyLo > dirtyHi {
        dirtyLo, dirtyHi := index, index;
        return;
      }
      if index < dirtyLo {
        dirtyLo := index;
      }
      if index > dirtyHi {
        dirtyHi := index;
      }
    }

    method ClearWindowSlots()
      requires window.Length == slots && WindowOk(side, window[..], windowCount, bestIndex, dirtyLo, dirtyHi)
      modifies `dirtyLo, `dirtyHi, window
      ensures forall i :: 0 <= i < slots ==> window[i] == 0
      ensures dirtyLo == NO_DIRTY && dirtyHi == 0
    {
      if dirtyLo <= dirtyHi {
        var lo, hi := dirtyLo, dirtyHi;
        ghost var w := window[..];
        var i := lo;
        while i <= hi
          invariant lo <= i <= hi + 1 <= slots
          invariant forall j :: 0 <= j < slots ==> window[j] == if lo <= j < i then 0 else w[j]
        {
          window[i] := 0;
          i := i + 1;
        }
      }
      dirtyLo, dirtyHi := NO_DIRTY, 0;
    }

    /** Restores the hint once its slot is empty, by scanning away from the touch. */
    method AdvanceBestAfterRemoval()
      requires window.Length == slots
      requires JustEmptied(side, window[..], windowCount, bestIndex, dirtyLo, dirtyHi, bestIndex)
      modifies `bestIndex
      ensures WindowOk(side, window[..], windowCount, bestIndex, dirtyLo, dirtyHi)
    {
      if windowCount == 0 {
        bestIndex := 0;
        return;
      }
      var step := if side.Ask? then 1 else -1;
      var i := bestIndex + step;
      while 0 <= i < slots && window[i] == 0
        invariant -1 <= i <= slots && NoneBetter(side, window[..], i)
        decreases if side.Ask? then slots - i else i + 1
      {
        i := i + step;
      }
      // Nothing left in that direction would mean an empty window: the hint was the extreme slot.
      bestIndex := if 0 <= i < slots then i else 0;
      OccupiedZero(window[..], 0, slots);
    }

    method StoreInWindow(index: nat, qty: int)
      requires Consistent() && anchored && index < slots && qty != 0
      modifies `windowCount, `bestIndex, `dirtyLo, `dirtyHi, `levels, window
      ensures Consistent()
      ensures levels == ApplyLevel(old(levels), base + index, qty)
    {
      hide Agree, SpillOk, Occupied;
      StoreFacts(side, window[..], windowCount, bestIndex, dirtyLo, dirtyHi, index, qty);
      AgreeAfterStore(levels, window[..], base, overflow, index, qty);
      SizeAfterStore(levels, window[..], base, overflow, index, qty);
      if window[index] == 0 {
        if windowCount == 0 || BetterIndex(side, index, bestIndex) {
          bestIndex := index;
        }
        windowCount := windowCount + 1;
      }
      ghost var w := window[..];
      window[index] := qty;
      MarkDirty(index);
      assert window[..] == w[index := qty];
      levels := ApplyLevel(levels, base + index, qty);
    }

    method RemoveFromWindow(index: nat)
      requires Consistent() && anchored && index < slots
      modifies `windowCount, `bestIndex, `levels, window
      ensures Consistent()
      ensures levels == ApplyLevel(old(levels), base + index, 0)
    {
      hide Spelled, ApplyLevel, JustEmptied, WindowOk;
      ghost var w, count, best := window[..], windowCount, bestIndex;
      SpelledWindow(side, slots, w, overflow, base, count, best, dirtyLo, dirtyHi, levels);
      if window[index] != 0 {
        RemoveFacts(side, w, windowCount, bestIndex, dirtyLo, dirtyHi, index);
        window[index] := 0;
        windowCount := windowCount - 1;
        assert window[..] == w[index := 0];
        if index == bestIndex {
          AdvanceBestAfterRemoval();
        } else {
          StillBest(side, window[..], windowCount, bestIndex, dirtyLo, dirtyHi, index);
        }
      } else {
        assert w[index := 0] == w;
      }
      EmptiedSpells(side, slots, w, overflow, base, count, best, dirtyLo, dirtyHi, levels, index, windowCount,
          bestIndex);
      levels := ApplyLevel(levels, base + index, 0);
    }

    // ----- the spill list -----

    /** Binary search for the first spilled level at or after `ticks`. */
    method OverflowLowerBound(ticks: int) returns (k: nat)
      requires Ascending(overflow)
      ensures LowerBound(overflow, ticks, k)
    {
      var lo, hi := 0, |overflow|;
      while lo < hi
        invariant 0 <= lo <= hi <= |overflow|
        invariant forall i :: 0 <= i < lo ==> overflow[i].price < ticks
        invariant forall i :: hi <= i < |overflow| ==> overflow[i].price >= ticks
      {
        var mid := lo + (hi - lo) / 2;
        if overflow[mid].price < ticks { lo := mid + 1; } else { hi := mid; }
      }
      k := lo;
    }

    /** Returns whether the level is new to the side. */
    method OverflowSet(ticks: int, units: int) returns (ghost isNew: bool)
      requires Consistent() && anchored && units != 0 && INT64_MIN <= ticks <= INT64_MAX
      requires !(base <= ticks < base + slots)
      modifies `overflow, `levels
      ensures Consistent()
      ensures levels == ApplyLevel(old(levels), ticks, units)
      ensures isNew <==> ticks !in old(levels)
      ensures |overflow| == |old(overflow)| + if isNew then 1 else 0
    {
      hide Agree, WindowOk, Lookup;
      var k := OverflowLowerBound(ticks);
      SpillSetFacts(levels, window[..], base, overflow, k, ticks, units);
      if k < |overflow| && overflow[k].price == ticks {
        overflow := overflow[k := Level(ticks, units)];
        isNew := false;
      } else {
        overflow := InsertAt(overflow, k, Level(ticks, units));
        isNew := true;
      }
      levels := ApplyLevel(levels, ticks, units);
    }

    method OverflowErase(ticks: int)
      requires Consistent() && INT64_MIN <= ticks <= INT64_MAX
      requires !(base <= ticks < base + slots)
      modifies `overflow, `levels
      ensures Consistent()
      ensures levels == ApplyLevel(old(levels), ticks, 0)
      ensures |overflow| <= |old(overflow)|
    {
      hide Agree, WindowOk, Lookup;
      var k := OverflowLowerBound(ticks);
      SpillEraseFacts(levels, window[..], base, overflow, k, ticks);
      if k < |overflow| && overflow[k].price == ticks {
        overflow := EraseAt(overflow, k);
      }
      levels := ApplyLevel(levels, ticks, 0);
    }

    // ----- rebuild, apply, clear -----

    /** The whole side as one listing in `scratch`, while the old base still tells slots from prices. */
    method Collect()
      requires Consistent()
      modifies `scratch
      ensures Consistent()
      ensures Lists(side, levels, scratch) && |scratch| == |levels|
      ensures forall i :: 0 <= i < |scratch| ==> INT64_MIN <= scratch[i].price <= INT64_MAX && scratch[i].qty != 0
    {
      hide Spelled, Lists;
      scratch := ForEach((s: seq<Level>) => true);
      ScratchIsListing(scratch);
    }

    /** Lays the same levels out again from a base chosen for the present touch. */
    method RebuildAroundTouch()
      requires Consistent() && anchored
      modifies this`overflow, this`scratch, this`base, this`windowCount, this`bestIndex, this`dirtyLo, this`dirtyHi,
               this`overflowFloor, this`rebuildCount, this`degraded, window
      ensures Consistent() && anchored
      ensures rebuildCount == old(rebuildCount) + 1
      ensures levels != map[] ==> overflowFloor == |overflow|
      ensures levels != map[] ==> (degraded <==> overflow != [] && |overflow| >= |old(overflow)|)
      ensures levels != map[] ==> base == AnchorFor(slots, InOrder(side, levels)[0].price)
    {
      hide Spelled, Lists, WindowOk, PrefixMap, AnchorFor, BaseOk, Reversed, InOrder;
      rebuildCount := rebuildCount + 1;
      var before := |overflow|;
      Collect();
      ConsistentFacts();
      if scratch == [] {
        return;
      }
      Reanchor(scratch[0].price);
      WholeListing(side, levels, scratch);
      ListingIsUnique(side, levels, scratch);
      if side.Bid? {
        overflow := Reversed(overflow);
      }
      overflowFloor := |overflow|;
      degraded := |overflow| > 0 && |overflow| >= before;
    }

    lemma ScratchIsListing(s: seq<Level>)
      requires Consistent() && s == Visited(InOrder(side, levels), (s: seq<Level>) => true)
      ensures Lists(side, levels, s) && |s| == |levels|
      ensures forall i :: 0 <= i < |s| ==> INT64_MIN <= s[i].price <= INT64_MAX && s[i].qty != 0
    {
      VisitAll(InOrder(side, levels), 0, (s: seq<Level>) => true);
      InOrderLists(side, levels);
      forall i | 0 <= i < |s| ensures INT64_MIN <= s[i].price <= INT64_MAX && s[i].qty != 0 {
        assert s[i] in s;
        assert AgreeAt(levels, window[..], base, overflow, s[i].price);
      }
    }

    /** Empty the window, centre it on `touch` and put the collected levels back. */
    method Reanchor(touch: int64)
      requires window.Length == slots <= INT64_MAX
      requires WindowOk(side, window[..], windowCount, bestIndex, dirtyLo, dirtyHi)
      requires Lists(side, levels, scratch)
      requires forall i :: 0 <= i < |scratch| ==> INT64_MIN <= scratch[i].price <= INT64_MAX && scratch[i].qty != 0
      modifies this`overflow, this`base, this`windowCount, this`bestIndex, this`dirtyLo, this`dirtyHi, window
      ensures Spelled(side, slots, window[..], AscendingForm(side, overflow), base, windowCount, bestIndex,
                      dirtyLo, dirtyHi, true, PrefixMap(scratch, |scratch|))
      ensures base == AnchorFor(slots, touch)
    {
      hide Spelled, Lists, WindowOk, PrefixMap, AnchorFor, BaseOk, AscendingForm;
      ClearWindowSlots();
      overflow, windowCount, bestIndex := [], 0, 0;
      base := AnchorFor(slots, touch);
      Refill();
    }

    /** The loop of the rebuild: every collected level goes where it now belongs. */
    method Refill()
      requires window.Length == slots <= INT64_MAX && BaseOk(base, slots)
      requires forall i :: 0 <= i < slots ==> window[i] == 0
      requires overflow == [] && windowCount == 0 && dirtyLo == NO_DIRTY && dirtyHi == 0
      requires Lists(side, levels, scratch)
      requires forall i :: 0 <= i < |scratch| ==> INT64_MIN <= scratch[i].price <= INT64_MAX && scratch[i].qty != 0
      modifies this`overflow, this`windowCount, this`bestIndex, this`dirtyLo, this`dirtyHi, window
      ensures Spelled(side, slots, window[..], AscendingForm(side, overflow), base, windowCount, bestIndex,
                      dirtyLo, dirtyHi, true, PrefixMap(scratch, |scratch|))
    {
      hide Spelled, PrefixMap, Lists;
      EmptySpelled(side, slots, window[..], base, bestIndex);
      var k := 0;
      while k < |scratch|
        invariant 0 <= k <= |scratch|
        invariant Spelled(side, slots, window[..], AscendingForm(side, overflow), base, windowCount, bestIndex,
                          dirtyLo, dirtyHi, true, PrefixMap(scratch, k))
      {
        var lvl := scratch[k];
        ghost var w := window[..];
        NextOfPrefix(side, levels, scratch, k);
        var index := WindowIndex(base, slots, lvl.price);
        if index.Some? {
          RefillWindow(side, slots, w, AscendingForm(side, overflow), base, windowCount, bestIndex,
                       dirtyLo, dirtyHi, PrefixMap(scratch, k), lvl);
          if windowCount == 0 {
            bestIndex := index.value;
          }
          window[index.value] := lvl.qty;
          assert window[..] == w[index.value := lvl.qty];
          MarkDirty(index.value);
          windowCount := windowCount + 1;
        } else {
          RefillSpill(side, slots, w, overflow, base, windowCount, bestIndex, dirtyLo, dirtyHi,
                      PrefixMap(scratch, k), lvl);
          overflow := overflow + [lvl];
        }
        k := k + 1;
      }
    }

    /** Set an absolute quantity; zero removes the level. */
    method Apply(price: int64, qty: int64)
      requires Valid()
      modifies this, window
      ensures Valid()
      ensures levels == ApplyLevel(old(levels), price, qty)
      ensures var b := if old(anchored) then old(base) else AnchorFor(slots, price);
              spills == old(spills) + if qty != 0 && !(b <= price < b + slots) && price !in old(levels) then 1 else 0
    {
      hide Spelled, ApplyLevel;
      ConsistentFacts();
      if !anchored {
        UnanchoredIsEmpty();
        if qty == 0 {
          assert ApplyLevel(levels, price, 0) == levels by { NothingToRemove(price); }
          return;
        }
        MoveBase(AnchorFor(slots, price));
        base := AnchorFor(slots, price);
        anchored := true;
      }
      ApplyAnchored(price, qty);
    }

    lemma NothingToRemove(price: int)
      requires levels == map[]
      ensures ApplyLevel(levels, price, 0) == levels
    {
    }

    /** Window or spill list, once the window has its place. */
    method ApplyAnchored(price: int64, qty: int64)
      requires Valid() && anchored
      modifies this, window
      ensures Valid()
      ensures levels == ApplyLevel(old(levels), price, qty)
      ensures spills == old(spills) +
              if qty != 0 && !(old(base) <= price < old(base) + slots) && price !in old(levels) then 1 else 0
    {
      hide Spelled, WindowOk, ApplyLevel;
      ConsistentFacts();
      var index := WindowIndex(base, slots, price);
      if index.Some? {
        if qty == 0 { RemoveFromWindow(index.value); } else { StoreInWindow(index.value, qty); }
        return;
      }
      if qty == 0 { EraseSpilled(price); } else { Spill(price, qty); }
    }

    /** Removes a price outside the window; the floor never stays above what is spilled. */
    method EraseSpilled(price: int64)
      requires Valid() && !(base <= price < base + slots)
      modifies `overflow, `levels, `overflowFloor, `degraded
      ensures Valid()
      ensures levels == ApplyLevel(old(levels), price, 0)
    {
      hide Spelled;
      OverflowErase(price);
      if |overflow| < overflowFloor {
        overflowFloor := |overflow|;
      }
      if overflow == [] {
        degraded := false;
      }
    }

    /** A level outside the window; a full threshold of new ones since the last rebuild pays for the next. */
    method Spill(price: int64, qty: int64)
      requires Valid() && anchored && qty != 0 && !(base <= price < base + slots)
      modifies this, window
      ensures Valid()
      ensures levels == ApplyLevel(old(levels), price, qty)
      ensures spills == old(spills) + if price !in old(levels) then 1 else 0
    {
      hide Spelled;
      ghost var isNew := OverflowSet(price, qty);
      spills := spills + if isNew then 1 else 0;
      assert price in levels;
      if |overflow| > overflowFloor + OVERFLOW_REBUILD_THRESHOLD {
        RebuildAroundTouch();
      }
    }

    lemma UnanchoredIsEmpty()
      requires Consistent() && !anchored
      ensures levels == map[] && windowCount == 0 && overflow == []
    {
    }

    lemma ConsistentFacts()
      requires Consistent()
      ensures BaseOk(base, slots) && window.Length == slots <= INT64_MAX
      ensures WindowOk(side, window[..], windowCount, bestIndex, dirtyLo, dirtyHi)
    {
    }

    /** The window of an empty side may move anywhere. */
    lemma MoveBase(newBase: int)
      requires Consistent() && !anchored && BaseOk(newBase, slots)
      ensures Spelled(side, slots, window[..], overflow, newBase, windowCount, bestIndex, dirtyLo, dirtyHi, true,
          levels)
    {
      OccupiedZero(window[..], 0, slots);
      AgreeEmpty(window[..], newBase);
    }

    method Clear()
      requires Valid()
      modifies this, window
      ensures Valid()
      ensures levels == map[]
      ensures rebuildCount == old(rebuildCount) && spills == old(spills)
    {
      ClearWindowSlots();
      overflow, scratch := [], [];
      windowCount, bestIndex, base := 0, 0, 0;
      anchored, degraded := false, false;
      overflowFloor := 0;
      levels := map[];
      AgreeEmpty(window[..], 0);
      EmptyWindowOk(side, window[..], 0);
    }

    /** In every run, 65 rebuilds' worth of new spilled levels pay for each rebuild. */
    lemma RebuildsArePaidFor()
      requires Valid()
      ensures 65 * rebuildCount <= spills
    {
    }
  }
}
