/** The two-sided book over array sides. */
module L2 {
  import opened CoreTypes
  import opened BookOrder
  import opened PriceWindow
  import opened Sides
  import opened Depth

  /** What a book may hold: no negative price, and only positive quantities. */
  ghost predicate Plausible(m: map<int, int>) {
    forall p :: p in m ==> 0 <= p <= INT64_MAX && 0 < m[p] <= INT64_MAX
  }

  class L2Book {
    const bids: ArraySide
    const asks: ArraySide
    /** When the book last changed; its feed sets it. */
    var lastUpdate: int

    ghost function Repr(): set<object> {
      {this, bids, asks, bids.window, asks.window}
    }

    ghost predicate Valid()
      reads Repr()
    {
      && bids.side == Bid && asks.side == Ask
      && bids != asks && bids.window != asks.window
      && bids.Valid() && asks.Valid()
      && Plausible(bids.levels) && Plausible(asks.levels)
    }

    constructor (slots: nat)
      requires slots <= INT64_MAX
      ensures Valid() && fresh(Repr())
      ensures bids.levels == map[] && asks.levels == map[] && lastUpdate == 0
    {
      bids := new ArraySide(Bid, slots);
      asks := new ArraySide(Ask, slots);
      lastUpdate := 0;
    }

    function SideOf(s: Side): ArraySide { if s.Bid? then bids else asks }

    ghost function Levels(s: Side): map<int, int>
      reads Repr()
    {
      SideOf(s).levels
    }

    /** One absolute price-level update; a negative price or quantity is refused and changes nothing. */
    method Apply(s: Side, price: int64, qty: int64) returns (ok: bool)
      requires Valid()
      modifies Repr()
      ensures Valid()
      ensures ok <==> price >= 0 && qty >= 0
      ensures Levels(s) == if ok then ApplyLevel(old(Levels(s)), price, qty) else old(Levels(s))
      ensures forall t :: t != s ==> Levels(t) == old(Levels(t))
      ensures lastUpdate == old(lastUpdate)
    {
      if price < 0 || qty < 0 {
        return false;
      }
      SideOf(s).Apply(price, qty);
      return true;
    }

    method Clear()
      requires Valid()
      modifies Repr()
      ensures Valid()
      ensures forall s :: Levels(s) == map[]
      ensures lastUpdate == old(lastUpdate)
    {
      bids.Clear();
      asks.Clear();
    }

    method SetLastUpdate(ts: int)
      requires Valid()
      modifies this`lastUpdate
      ensures Valid() && lastUpdate == ts
      ensures forall s :: Levels(s) == old(Levels(s))
    {
      lastUpdate := ts;
    }

    method Best(s: Side) returns (best: Option<Level>)
      requires Valid()
      ensures best == var all := InOrder(s, Levels(s)); if all == [] then None else Some(all[0])
    {
      best := SideOf(s).Best();
    }

    /** Drop the levels beyond the `maxLevels` nearest the touch; zero does nothing.  Doomed prices are
        batched 64 at a time, and the loop repeats until a pass names none. */
    method Trim(s: Side, maxLevels: nat) returns (removed: nat)
      requires Valid()
      modifies Repr()
      ensures Valid()
      ensures Levels(s) == if maxLevels == 0 then old(Levels(s)) else TopN(s, old(Levels(s)), maxLevels)
      ensures removed == |old(Levels(s))| - |Levels(s)|
      ensures forall t :: t != s ==> Levels(t) == old(Levels(t))
      ensures lastUpdate == old(lastUpdate)
    {
      if maxLevels == 0 {
        return 0;
      }
      hide ArraySide.Consistent, ArraySide.Amortised, Plausible, TopN;
      TopIsPlausible(s, Levels(s), maxLevels);
      removed := TrimSide(SideOf(s), maxLevels);
    }

    /** The top `n` levels in book order: at least one level is read even when `n` is zero. */
    method Top(s: Side, n: nat) returns (out: seq<Level>)
      requires Valid()
      ensures out == InOrder(s, Levels(s))[..Min(Max(n, 1), |Levels(s)|)]
    {
      hide ArraySide.Consistent, ArraySide.Amortised;
      out := SideOf(s).ForEach((v: seq<Level>) => |v| < n);
      ShortVisit(InOrder(s, Levels(s)), 0, n, (v: seq<Level>) => |v| < n);
    }
  }

  lemma TopIsPlausible(side: Side, m: map<int, int>, n: nat)
    requires Plausible(m)
    ensures Plausible(TopN(side, m, n))
  {
  }

  ghost function PricesOf(s: seq<Level>): set<int> {
    set i | 0 <= i < |s| :: s[i].price
  }

  lemma {:induction false} VisitedLength(all: seq<Level>, from: nat, keep: nat, batch: nat, more: seq<Level> -> bool)
    requires from <= |all| && batch > 0 && from < keep + batch
    requires forall v: seq<Level> :: more(v) <==> |v| <= keep || |v| - keep < batch
    ensures VisitedFrom(all, from, more) == all[..Min(|all|, keep + batch)]
    decreases |all| - from
  {
    if from < |all| {
      if more(all[..from + 1]) { VisitedLength(all, from + 1, keep, batch, more); }
    } else {
      assert all[..|all|] == all;
    }
  }

  lemma {:induction false} ShortVisit(all: seq<Level>, from: nat, n: nat, more: seq<Level> -> bool)
    requires from <= |all| && from < Max(n, 1)
    requires forall v: seq<Level> :: more(v) <==> |v| < n
    ensures VisitedFrom(all, from, more) == all[..Min(Max(n, 1), |all|)]
    decreases |all| - from
  {
    if from < |all| {
      if more(all[..from + 1]) { ShortVisit(all, from + 1, n, more); }
    } else {
      assert all[..|all|] == all;
    }
  }

  lemma NothingToTrim(side: Side, m: map<int, int>, n: nat)
    requires |m| <= n
    ensures TopN(side, m, n) == m
  {
    TopNIsTop(side, m, n);
    SubmapSize(TopN(side, m, n), m);
    assert forall p :: p in m ==> p in TopN(side, m, n);
  }

  lemma PastTheTop(side: Side, m: map<int, int>, n: nat, k: nat)
    requires n <= k < |m|
    ensures InOrder(side, m)[k].price in m && InOrder(side, m)[k].price !in TopN(side, m, n)
    ensures forall j :: 0 <= j < k ==> InOrder(side, m)[j].price != InOrder(side, m)[k].price
  {
    var all := InOrder(side, m);
    InOrderLists(side, m);
    assert all[k] in all;
  }

  /** The levels past the first `n` are not in the top `n`, and removing them removes just that many. */
  lemma DoomedFacts(side: Side, m: map<int, int>, n: nat, doomed: seq<Level>)
    requires n + |doomed| <= |m| && doomed == InOrder(side, m)[n..n + |doomed|]
    ensures PricesOf(doomed) !! TopN(side, m, n).Keys
    ensures TopN(side, m - PricesOf(doomed), n) == TopN(side, m, n)
    ensures forall i :: 0 <= i < |doomed| ==> doomed[i].price in m
    ensures |m - PricesOf(doomed)| == |m| - |doomed|
  {
    hide TopN, InBookOrder, HasLevels, InOrder;
    forall i | 0 <= i < |doomed|
      ensures doomed[i].price in m && doomed[i].price !in TopN(side, m, n)
      ensures forall j :: 0 <= j < i ==> doomed[j].price != doomed[i].price
    {
      PastTheTop(side, m, n, n + i);
    }
    TopNKeepsThrough(side, m, n, PricesOf(doomed));
    RemovedSize(m, doomed);
  }

  lemma {:induction false} PricesSize(s: seq<Level>)
    requires forall i, j :: 0 <= i < j < |s| ==> s[i].price != s[j].price
    ensures |PricesOf(s)| == |s|
  {
    if s == [] {
      assert PricesOf(s) == {};
    } else {
      var n := |s| - 1;
      PricesSize(s[..n]);
      PricesAppend(s[..n], s[n]);
      assert s[..n] + [s[n]] == s;
      assert s[n].price !in PricesOf(s[..n]);
    }
  }

  lemma PricesAppend(s: seq<Level>, l: Level)
    ensures PricesOf(s + [l]) == PricesOf(s) + {l.price}
  {
    var t := s + [l];
    assert forall i :: 0 <= i < |t| ==> t[i] == if i < |s| then s[i] else l;
    forall p | p in PricesOf(s) + {l.price} ensures p in PricesOf(t) {
      if p == l.price {
        assert t[|s|].price == p;
      } else {
        var i :| 0 <= i < |s| && s[i].price == p;
        assert t[i].price == p;
      }
    }
  }

  lemma RemovedSize(m: map<int, int>, s: seq<Level>)
    requires forall i :: 0 <= i < |s| ==> s[i].price in m
    requires forall i, j :: 0 <= i < j < |s| ==> s[i].price != s[j].price
    ensures |m - PricesOf(s)| == |m| - |s|
  {
    PricesSize(s);
    var gone := PricesOf(s);
    assert forall p :: p in gone ==> p in m.Keys;
    assert m.Keys == gone + (m.Keys - gone);
    assert |m.Keys| == |gone| + |m.Keys - gone|;
    assert (m - gone).Keys == m.Keys - gone;
  }

  /** The trim loop on one side. */
  method TrimSide(side: ArraySide, maxLevels: nat) returns (removed: nat)
    requires side.Valid() && maxLevels > 0
    modifies side, side.window
    ensures side.Valid()
    ensures side.levels == TopN(side.side, old(side.levels), maxLevels)
    ensures removed == |old(side.levels)| - |side.levels|
  {
    hide ArraySide.Consistent, ArraySide.Amortised, TopN, InOrder, VisitedFrom;
    removed := 0;
    var batch := 64;
    var more := (v: seq<Level>) => |v| <= maxLevels || |v| - maxLevels < batch;
    while true
      invariant side.Valid()
      invariant TopN(side.side, side.levels, maxLevels) == TopN(side.side, old(side.levels), maxLevels)
      invariant removed + |side.levels| == |old(side.levels)|
      decreases |side.levels|
    {
      var seen := side.ForEach(more);
      VisitedLength(InOrder(side.side, side.levels), 0, maxLevels, batch, more);
      if |seen| <= maxLevels {
        NothingToTrim(side.side, side.levels, maxLevels);
        return;
      }
      RemoveBatch(side, maxLevels, seen[maxLevels..]);
      removed := removed + |seen| - maxLevels;
    }
  }

  /** Apply a zero to each doomed price. */
  method RemoveBatch(side: ArraySide, maxLevels: nat, doomed: seq<Level>)
    requires side.Valid()
    requires maxLevels + |doomed| <= |side.levels|
    requires doomed == InOrder(side.side, side.levels)[maxLevels..maxLevels + |doomed|]
    modifies side, side.window
    ensures side.Valid()
    ensures TopN(side.side, side.levels, maxLevels) == TopN(side.side, old(side.levels), maxLevels)
    ensures |side.levels| == |old(side.levels)| - |doomed|
  {
    hide ArraySide.Valid, TopN, InOrder, PricesOf;
    ghost var before := side.levels;
    DoomedFacts(side.side, before, maxLevels, doomed);
    LevelPrices(side);
    var i := 0;
    NoPrices(doomed[..0]);
    while i < |doomed|
      invariant 0 <= i <= |doomed|
      invariant side.Valid()
      invariant side.levels == before - PricesOf(doomed[..i])
    {
      assert doomed[..i + 1] == doomed[..i] + [doomed[i]];
      PricesAppend(doomed[..i], doomed[i]);
      side.Apply(doomed[i].price, 0);
      i := i + 1;
    }
    assert doomed[..i] == doomed;
  }

  lemma NoPrices(s: seq<Level>)
    requires s == []
    ensures PricesOf(s) == {}
  {
  }

  lemma LevelPrices(side: ArraySide)
    requires side.Valid()
    ensures forall p :: p in side.levels ==> INT64_MIN <= p <= INT64_MAX
  {
  }
}
