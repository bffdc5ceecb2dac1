/** What a trade against the book costs: exact walks, rounded against the taker. */
module Execution {
  import opened CoreTypes
  import opened BookOrder
  import opened Decimal
  import opened Checked
  import opened Sides
  import opened L2

  const ONE_HUNDRED_PERCENT: int := 1_000_000

  datatype Status = Ok | EmptyBook | Overflow | LimitExcludedAll | InvalidRequest

  datatype Fill = Fill(qty: int, vwap: int, limitPrice: int, levels: nat, exhausted: bool, slippage: int,
      status: Status)

  function Failed(status: Status, exhausted: bool): Fill { Fill(0, 0, 0, 0, exhausted, 0, status) }

  // ----- what a walk means -----

  /** Levels as a book lists them: in book order, no negative price, positive quantities. */
  ghost predicate Walkable(side: Side, ls: seq<Level>) {
    InBookOrder(side, ls) && forall i :: 0 <= i < |ls| ==> LevelOk(ls[i])
  }

  predicate LevelOk(l: Level) { 0 <= l.price <= INT64_MAX && 0 < l.qty <= INT64_MAX }

  function Depth(ls: seq<Level>): int {
    if ls == [] then 0 else ls[0].qty + Depth(ls[1..])
  }

  function Notional(ls: seq<Level>): int {
    if ls == [] then 0 else ls[0].price * ls[0].qty + Notional(ls[1..])
  }

  /** The price of taking `w` from the touch on, or all there is. */
  function Cost(ls: seq<Level>, w: int): int {
    if ls == [] || w <= 0 then 0
    else
      var take := Min(ls[0].qty, w);
      ls[0].price * take + Cost(ls[1..], w - take)
  }

  /** How many levels that reaches. */
  function Used(ls: seq<Level>, w: int): (n: nat)
    ensures n <= |ls| && (n > 0 <==> ls != [] && w > 0)
  {
    if ls == [] || w <= 0 then 0 else 1 + Used(ls[1..], w - Min(ls[0].qty, w))
  }

  /** Asks count up and bids count down, so that a larger signed amount is always worse for the taker. */
  function Signed(side: Side, x: int): int { if side.Ask? then x else -x }

  /** The average price of `qty` at a total of `notional`, rounded against the taker. */
  function Vwap(notional: int, qty: int, side: Side): (v: int)
    requires qty > 0
    ensures Signed(side, v) * qty - qty < Signed(side, notional) <= Signed(side, v) * qty
  {
    if side.Ask? then CeilDiv(notional, qty)
    else
      var q := FloorDiv(notional, qty);
      Negations(q, qty);
      q
  }

  /** The price `slippage` away from the touch on the taker's side, rounded toward the touch. */
  function PriceLimit(touch: int64, side: Side, slippage: int64): Option<int> {
    match CheckedMulSigned(touch, slippage)
    case None => None
    case Some(product) =>
      var offset := TruncDiv(product, ONE_HUNDRED_PERCENT);
      if offset < INT64_MIN || offset > INT64_MAX then None
      else if side.Ask? then CheckedAddSigned(touch, offset)
      else if offset == INT64_MIN then None
      else CheckedAddSigned(touch, -offset)
  }

  /** Distance of `moved` from `reference`; zero when it cannot be expressed. */
  function BpsBetween(reference: int64, moved: int64): int {
    if reference == 0 then 0
    else
      var delta := if moved > reference then moved - reference else reference - moved;
      if delta > INT64_MAX then 0
      else
        match CheckedMulSigned(delta, ONE_HUNDRED_PERCENT)
        case None => 0
        case Some(scaled) => TruncDiv(scaled, reference)
  }

  /** The trade for `wanted`, as the venue would fill it. */
  function Trade(ls: seq<Level>, side: Side, wanted: int): Fill
    requires forall i :: 0 <= i < |ls| ==> LevelOk(ls[i])
  {
    if wanted <= 0 then Failed(InvalidRequest, false)
    else if ls == [] then Failed(EmptyBook, true)
    else if Cost(ls, wanted) > INT64_MAX then Failed(Overflow, false)
    else
      DepthPositive(ls);
      Filled(ls, side, Min(wanted, Depth(ls)), Cost(ls, wanted), Used(ls, wanted), wanted > Depth(ls))
  }

  /** A fill of `qty` that cost `notional` over the first `levels` levels. */
  function Filled(ls: seq<Level>, side: Side, qty: int, notional: int, levels: nat, exhausted: bool): Fill
    requires 0 < levels <= |ls| && qty > 0 && INT64_MIN <= ls[0].price <= INT64_MAX
  {
    var v := Vwap(notional, qty, side);
    var slippage := if INT64_MIN <= v <= INT64_MAX then BpsBetween(ls[0].price, v) else 0;
    Fill(qty, v, ls[levels - 1].price, levels, exhausted, slippage, Ok)
  }

  predicate Within(side: Side, price: int, limit: int) { Signed(side, price) <= Signed(side, limit) }

  /** How many levels from the touch lie within the limit. */
  function WithinCount(ls: seq<Level>, side: Side, limit: int): (k: nat)
    ensures k <= |ls|
  {
    if ls != [] && Within(side, ls[0].price, limit) then 1 + WithinCount(ls[1..], side, limit) else 0
  }

  /** Everything within `slippage` of the touch. */
  function Executable(ls: seq<Level>, side: Side, slippage: int64): Fill
    requires forall i :: 0 <= i < |ls| ==> LevelOk(ls[i])
  {
    if slippage < 0 then Failed(InvalidRequest, false)
    else if ls == [] then Failed(EmptyBook, true)
    else
      assert LevelOk(ls[0]);
      match PriceLimit(ls[0].price, side, slippage)
      case None => Failed(Overflow, false)
      case Some(limit) =>
        var k := WithinCount(ls, side, limit);
        if Notional(ls[..k]) > INT64_MAX || Depth(ls[..k]) > INT64_MAX then Failed(Overflow, false)
        else if k == 0 then Failed(LimitExcludedAll, false)
        else
          DepthPositive(ls[..k]);
          Filled(ls, side, Depth(ls[..k]), Notional(ls[..k]), k, k == |ls|)
  }

  // ----- sums -----

  lemma {:induction false} DepthPositive(ls: seq<Level>)
    requires forall i :: 0 <= i < |ls| ==> LevelOk(ls[i])
    ensures Depth(ls) >= |ls|
  {
    if ls != [] { DepthPositive(ls[1..]); }
  }

  lemma {:induction false} SumsConcat(a: seq<Level>, b: seq<Level>)
    ensures Depth(a + b) == Depth(a) + Depth(b) && Notional(a + b) == Notional(a) + Notional(b)
  {
    if a == [] {
      assert a + b == b;
    } else {
      assert (a + b)[1..] == a[1..] + b;
      SumsConcat(a[1..], b);
    }
  }

  /** Taking at least everything costs everything. */
  lemma {:induction false} CostOfAll(ls: seq<Level>, w: int)
    requires (forall i :: 0 <= i < |ls| ==> LevelOk(ls[i])) && w >= Depth(ls)
    ensures Cost(ls, w) == Notional(ls) && Used(ls, w) == |ls|
  {
    if ls != [] {
      DepthPositive(ls[1..]);
      CostOfAll(ls[1..], w - ls[0].qty);
    }
  }

  /** Taking exactly the first levels costs just those, and reaches no further. */
  lemma {:induction false} CostOfPrefix(a: seq<Level>, b: seq<Level>)
    requires forall i :: 0 <= i < |a| ==> LevelOk(a[i])
    ensures Cost(a + b, Depth(a)) == Notional(a) && Used(a + b, Depth(a)) == |a|
  {
    if a == [] {
      assert a + b == b;
    } else {
      assert (a + b)[1..] == a[1..] + b;
      DepthPositive(a[1..]);
      CostOfPrefix(a[1..], b);
    }
  }

  lemma Walk1(side: Side, ls: seq<Level>)
    requires Walkable(side, ls) && ls != []
    ensures Walkable(side, ls[1..]) && LevelOk(ls[0])
    ensures forall i :: 0 < i < |ls| ==> Signed(side, ls[0].price) < Signed(side, ls[i].price)
  {
  }

  function SignedCost(side: Side, ls: seq<Level>, w: int): int { Signed(side, Cost(ls, w)) }

  lemma CostStep(side: Side, ls: seq<Level>, w: int)
    requires ls != [] && w > 0
    ensures var take := Min(ls[0].qty, w);
            SignedCost(side, ls, w) == Signed(side, ls[0].price) * take + SignedCost(side, ls[1..], w - take)
  {
    Negations(ls[0].price, Min(ls[0].qty, w));
  }

  /** No unit is cheaper than the touch. */
  lemma {:induction false} CostAtLeast(side: Side, ls: seq<Level>, w: int, p: int)
    requires Walkable(side, ls) && 0 <= w <= Depth(ls)
    requires ls != [] ==> p <= Signed(side, ls[0].price)
    ensures SignedCost(side, ls, w) >= w * p
  {
    if w > 0 {
      var take := Min(ls[0].qty, w);
      var s := Signed(side, ls[0].price);
      Walk1(side, ls);
      CostStep(side, ls, w);
      DepthPositive(ls[1..]);
      CostAtLeast(side, ls[1..], w - take, p);
      Dearer(take, p, s);
      Distribute(take, w - take, p);
    }
  }

  lemma Dearer(n: nat, p: int, q: int)
    requires p <= q
    ensures n * p <= q * n
  {
    assert n * (q - p) >= 0;
    assert n * (q - p) == n * q - n * p;
  }

  lemma Distribute(a: int, b: int, p: int)
    ensures (a + b) * p == a * p + b * p
  {
  }

  function LastPrice(side: Side, ls: seq<Level>, w: int): int
    requires ls != [] && w > 0
  {
    Signed(side, ls[Used(ls, w) - 1].price)
  }

  lemma LastPriceStep(side: Side, ls: seq<Level>, w: int)
    requires Walkable(side, ls) && ls != [] && 0 < w <= Depth(ls)
    ensures w <= ls[0].qty ==> LastPrice(side, ls, w) == Signed(side, ls[0].price)
    ensures w > ls[0].qty ==>
              && ls[1..] != [] && 0 < w - ls[0].qty <= Depth(ls[1..])
              && LastPrice(side, ls, w) == LastPrice(side, ls[1..], w - ls[0].qty) > Signed(side, ls[0].price)
  {
  }

  /** No unit taken is dearer than the worst price touched. */
  lemma {:induction false} CostAtMost(side: Side, ls: seq<Level>, w: int)
    requires Walkable(side, ls) && ls != [] && 0 < w <= Depth(ls)
    ensures SignedCost(side, ls, w) <= w * LastPrice(side, ls, w)
    ensures Signed(side, ls[0].price) <= LastPrice(side, ls, w)
  {
    var take := Min(ls[0].qty, w);
    var s, last := Signed(side, ls[0].price), LastPrice(side, ls, w);
    CostStep(side, ls, w);
    LastPriceStep(side, ls, w);
    if w > ls[0].qty {
      Walk1(side, ls);
      CostAtMost(side, ls[1..], w - take);
      Dearer(take, s, last);
      Distribute(take, w - take, last);
    } else {
      NothingMore(side, ls[1..]);
    }
  }

  lemma NothingMore(side: Side, ls: seq<Level>)
    ensures SignedCost(side, ls, 0) == 0
  {
  }

  /** Each further unit costs at least the worst price touched so far. */
  lemma {:induction false} MarginalCost(side: Side, ls: seq<Level>, w: int, d: nat)
    requires Walkable(side, ls) && ls != [] && 0 < w && w + d <= Depth(ls)
    ensures SignedCost(side, ls, w + d) >= SignedCost(side, ls, w) + d * LastPrice(side, ls, w)
  {
    hide Cost, SignedCost, Walkable;
    var q, s := ls[0].qty, Signed(side, ls[0].price);
    CostStep(side, ls, w);
    CostStep(side, ls, w + d);
    LastPriceStep(side, ls, w);
    Walk1(side, ls);
    if w > q {
      MarginalCost(side, ls[1..], w - q, d);
    } else {
      WithinTouch(side, ls, w, d);
    }
  }

  /** The same while the touch itself is not used up. */
  lemma WithinTouch(side: Side, ls: seq<Level>, w: int, d: nat)
    requires Walkable(side, ls) && ls != [] && 0 < w <= ls[0].qty && w + d <= Depth(ls)
    ensures SignedCost(side, ls, w + d) >= SignedCost(side, ls, w) + d * Signed(side, ls[0].price)
  {
    hide Cost, SignedCost;
    var q, s := ls[0].qty, Signed(side, ls[0].price);
    var more := Min(q, w + d) - w;
    CostStep(side, ls, w);
    CostStep(side, ls, w + d);
    NothingMore(side, ls[1..]);
    Walk1(side, ls);
    DepthPositive(ls[1..]);
    CostAtLeast(side, ls[1..], d - more, s);
    Distribute(w, more, s);
    Distribute(more, d - more, s);
  }

  // ----- the main results -----

  /** Rounding against the taker, and no further: the average lies between the touch and the worst
      price touched, is never better than the exact one, and one tick better would be. */
  lemma VwapIsTightAndBetween(side: Side, ls: seq<Level>, wanted: int)
    requires Walkable(side, ls) && Trade(ls, side, wanted).status.Ok?
    ensures var r := Trade(ls, side, wanted);
            var exact := SignedCost(side, ls, r.qty);
            && Signed(side, ls[0].price) <= Signed(side, r.vwap) <= Signed(side, r.limitPrice)
            && (Signed(side, r.vwap) - 1) * r.qty < exact <= Signed(side, r.vwap) * r.qty
  {
    hide Vwap, Cost, Used, Depth;
    var r := Trade(ls, side, wanted);
    SameFill(ls, wanted);
    DepthPositive(ls);
    CostAtMost(side, ls, r.qty);
    CostAtLeast(side, ls, r.qty, Signed(side, ls[0].price));
    var v := Signed(side, r.vwap);
    VwapTight(side, Cost(ls, wanted), r.qty);
    RatioAtLeast(v, r.qty, Signed(side, ls[0].price));
    RatioAtMost(v, r.qty, LastPrice(side, ls, r.qty));
  }

  lemma VwapTight(side: Side, notional: int, qty: int)
    requires qty > 0
    ensures var v := Signed(side, Vwap(notional, qty, side));
            (v - 1) * qty < Signed(side, notional) <= v * qty
  {
    var v := Signed(side, Vwap(notional, qty, side));
    Distribute(v, -1, qty);
  }

  lemma RatioAtLeast(v: int, qty: int, p: int)
    requires qty > 0 && qty * p <= v * qty
    ensures p <= v
  {
    if v < p {
      MultipleBound(v - p, qty);
      Distribute(v - p, p, qty);
    }
  }

  lemma RatioAtMost(v: int, qty: int, p: int)
    requires qty > 0 && (v - 1) * qty < qty * p
    ensures v <= p
  {
    if v > p {
      Distribute(v - 1 - p, p, qty);
      if v - 1 > p { MultipleBound(v - 1 - p, qty); }
    }
  }

  /** Asking for more than there is fills the same as asking for all of it. */
  lemma SameFill(ls: seq<Level>, wanted: int)
    requires (forall i :: 0 <= i < |ls| ==> LevelOk(ls[i])) && wanted > 0
    ensures Cost(ls, wanted) == Cost(ls, Min(wanted, Depth(ls))) && Used(ls, wanted) == Used(ls, Min(wanted, Depth(ls)))
  {
    if wanted > Depth(ls) {
      CostOfAll(ls, wanted);
      CostOfAll(ls, Depth(ls));
    }
  }

  /** What the first `k` levels hold. */
  function DepthOf(ls: seq<Level>, k: nat): int
    requires k <= |ls|
  {
    Depth(ls[..k])
  }

  /** How many levels a fill reaches: all before the last are taken whole, and the last is needed. */
  lemma {:induction false} UsedIsLeast(ls: seq<Level>, w: int)
    requires (forall i :: 0 <= i < |ls| ==> LevelOk(ls[i])) && ls != [] && 0 < w <= Depth(ls)
    ensures DepthOf(ls, Used(ls, w) - 1) < w <= DepthOf(ls, Used(ls, w))
  {
    var k := Used(ls, w);
    if w <= ls[0].qty {
      assert ls[..0] == [] && ls[..1] == [ls[0]] && [ls[0]][1..] == [];
      assert Used(ls[1..], 0) == 0;
    } else {
      UsedIsLeast(ls[1..], w - ls[0].qty);
      assert ls[..k][1..] == ls[1..][..k - 1];
      if k > 1 { assert ls[..k - 1][1..] == ls[1..][..k - 2]; }
    }
  }

  /** A trade fills what was wanted or all there is, says which, and names the last level it needed;
      it is refused when nothing was wanted, when there is no book, or when its exact cost does not fit. */
  lemma TradeFills(side: Side, ls: seq<Level>, wanted: int)
    requires Walkable(side, ls)
    ensures var r := Trade(ls, side, wanted);
            && (r.status.InvalidRequest? <==> wanted <= 0)
            && (r.status.EmptyBook? <==> wanted > 0 && ls == [])
            && (r.status.Overflow? <==> wanted > 0 && ls != [] && Cost(ls, wanted) > INT64_MAX)
            && !r.status.LimitExcludedAll?
            && (!r.status.Ok? ==> r.qty == r.levels == 0 && (r.exhausted <==> r.status.EmptyBook?))
            && (r.status.Ok? ==>
                  && r.qty == (if wanted <= Depth(ls) then wanted else Depth(ls))
                  && (r.exhausted <==> wanted > Depth(ls))
                  && 0 < r.levels <= |ls| && r.limitPrice == ls[r.levels - 1].price
                  && DepthOf(ls, r.levels - 1) < r.qty <= DepthOf(ls, r.levels))
  {
    hide Vwap, BpsBetween, Cost, Used, Depth;
    Plain(side, ls);
    if wanted > 0 && ls != [] {
      DepthPositive(ls);
      SameFill(ls, wanted);
      UsedIsLeast(ls, Min(wanted, Depth(ls)));
    }
  }

  /** An executable size is everything up to the last level within the limit, and the book is exhausted
      by it exactly when no level lies beyond. */
  lemma ExecutableIsAllWithin(side: Side, ls: seq<Level>, slippage: int64)
    requires Walkable(side, ls)
    ensures var r := Executable(ls, side, slippage);
            && (r.status.InvalidRequest? <==> slippage < 0)
            && (r.status.EmptyBook? <==> slippage >= 0 && ls == [])
            && (r.status.Ok? ==>
                  && slippage >= 0 && 0 < r.levels <= |ls| && r.qty == DepthOf(ls, r.levels)
                  && r.limitPrice == ls[r.levels - 1].price && (r.exhausted <==> r.levels == |ls|)
                  && PriceLimit(ls[0].price, side, slippage).Some?
                  && var limit := PriceLimit(ls[0].price, side, slippage).value;
                     forall i :: 0 <= i < |ls| ==>
                       (side.Ask? ==> (i < r.levels <==> ls[i].price <= limit))
                       && (side.Bid? ==> (i < r.levels <==> ls[i].price >= limit)))
  {
    hide Vwap, BpsBetween, PriceLimit, Notional, WithinCount;
    Plain(side, ls);
    if slippage >= 0 && ls != [] && PriceLimit(ls[0].price, side, slippage).Some? {
      WithinExactly(side, ls, PriceLimit(ls[0].price, side, slippage).value);
    }
  }

  /** A larger trade never has a better average price. */
  lemma VwapIsMonotone(side: Side, ls: seq<Level>, small: int, large: int)
    requires Walkable(side, ls) && small <= large
    requires Trade(ls, side, small).status.Ok? && Trade(ls, side, large).status.Ok?
    ensures Signed(side, Trade(ls, side, small).vwap) <= Signed(side, Trade(ls, side, large).vwap)
  {
    hide Vwap, Cost, Used, Depth;
    var a, b := Trade(ls, side, small), Trade(ls, side, large);
    SameFill(ls, small);
    SameFill(ls, large);
    DepthPositive(ls);
    MarginalCost(side, ls, a.qty, b.qty - a.qty);
    CostAtMost(side, ls, a.qty);
    VwapTight(side, Cost(ls, small), a.qty);
    VwapTight(side, Cost(ls, large), b.qty);
    AverageMonotone(SignedCost(side, ls, a.qty), a.qty, SignedCost(side, ls, b.qty), b.qty,
                    LastPrice(side, ls, a.qty), Signed(side, a.vwap), Signed(side, b.vwap));
  }

  lemma AverageMonotone(c: int, n: int, d: int, m: int, last: int, v: int, w: int)
    requires 0 < n <= m && c <= n * last && d >= c + (m - n) * last
    requires (v - 1) * n < c && d <= w * m
    ensures v <= w
  {
    if v > w {
      // w n <= (v - 1) n < c, so w < last, and the extra units cannot be paid for at w each
      Distribute(v - 1 - w, w, n);
      if v - 1 > w { MultipleBound(v - 1 - w, n); }
      assert w * n < c;
      if w >= last {
        Dearer(n, last, w);
        assert false;
      }
      Dearer(m - n, w, last);
      Distribute(n, m - n, w);
    }
  }

  /** The walk is the best possible: no way of taking the same amount from the same levels costs
      the taker less. */
  lemma {:induction false} WalkIsCheapest(side: Side, ls: seq<Level>, amounts: seq<nat>)
    requires Walkable(side, ls) && |amounts| == |ls|
    requires forall i :: 0 <= i < |ls| ==> amounts[i] <= ls[i].qty
    ensures 0 <= TotalOf(amounts) <= Depth(ls)
    ensures SignedCost(side, ls, TotalOf(amounts)) <= Signed(side, CostOf(ls, amounts))
  {
    hide SignedCost, Cost, Walkable;
    if ls == [] {
      NothingMore(side, ls);
    } else {
      Walk1(side, ls);
      WalkIsCheapest(side, ls[1..], amounts[1..]);
      Negations(ls[0].price, amounts[0]);
      var w := TotalOf(amounts);
      if w > 0 {
        TouchFirst(side, ls, amounts[0], w);
      } else {
        NothingMore(side, ls);
        NothingMore(side, ls[1..]);
        assert amounts[0] == 0;
        TimesZero(ls[0].price);
      }
    }
  }

  lemma TimesZero(p: int)
    ensures p * 0 == 0
  {
  }

  /** Filling the touch first is no dearer than leaving some of it. */
  lemma TouchFirst(side: Side, ls: seq<Level>, a: nat, w: int)
    requires Walkable(side, ls) && ls != [] && a <= ls[0].qty && a <= w <= Depth(ls) && w > 0
    requires w - a <= Depth(ls[1..])
    ensures SignedCost(side, ls, w) <= Signed(side, ls[0].price) * a + SignedCost(side, ls[1..], w - a)
  {
    hide SignedCost, Cost, Walkable;
    var take, s := Min(ls[0].qty, w), Signed(side, ls[0].price);
    CostStep(side, ls, w);
    Walk1(side, ls);
    Spread(side, ls[1..], w - take, take - a, s);
    Distribute(a, take - a, s);
  }

  /** Moving units from the touch to later levels only adds cost. */
  lemma Spread(side: Side, ls: seq<Level>, w: int, d: nat, p: int)
    requires Walkable(side, ls) && 0 <= w && w + d <= Depth(ls)
    requires forall i :: 0 <= i < |ls| ==> p <= Signed(side, ls[i].price)
    ensures SignedCost(side, ls, w + d) >= SignedCost(side, ls, w) + d * p
  {
    hide SignedCost, Cost, Walkable;
    if ls != [] {
      if w == 0 {
        NothingMore(side, ls);
        CostAtLeast(side, ls, d, p);
      } else {
        MarginalCost(side, ls, w, d);
        Dearer(d, p, LastPrice(side, ls, w));
      }
    }
  }

  function TotalOf(amounts: seq<nat>): int {
    if amounts == [] then 0 else amounts[0] + TotalOf(amounts[1..])
  }

  function CostOf(ls: seq<Level>, amounts: seq<nat>): int
    requires |ls| == |amounts|
  {
    if ls == [] then 0 else ls[0].price * amounts[0] + CostOf(ls[1..], amounts[1..])
  }

  /** The levels counted as executable are exactly those within the limit. */
  lemma {:induction false} WithinExactly(side: Side, ls: seq<Level>, limit: int)
    requires Walkable(side, ls)
    ensures forall i :: 0 <= i < |ls| ==> (i < WithinCount(ls, side, limit) <==> Within(side, ls[i].price, limit))
  {
    if ls != [] {
      Walk1(side, ls);
      WithinExactly(side, ls[1..], limit);
      forall i | 0 <= i < |ls| ensures i < WithinCount(ls, side, limit) <==> Within(side, ls[i].price, limit) {
        if i > 0 { assert ls[i] == ls[1..][i - 1]; }
      }
    }
  }

  /** The limit never lets through more than was asked, and stops short by less than a tick; it
      never excludes the touch. */
  lemma LimitIsTight(touch: int64, side: Side, slippage: int64)
    requires touch >= 0 && slippage >= 0 && PriceLimit(touch, side, slippage).Some?
    ensures var away := Signed(side, PriceLimit(touch, side, slippage).value) - Signed(side, touch);
            0 <= away && away * ONE_HUNDRED_PERCENT <= touch * slippage < (away + 1) * ONE_HUNDRED_PERCENT
  {
    ProductOfNats(touch, slippage);
    TruncSplit(touch * slippage, ONE_HUNDRED_PERCENT);
  }

  /** For prices on a book, the limit overflows only when the exact product or the limit itself does. */
  lemma LimitOverflows(touch: int64, side: Side, slippage: int64)
    requires touch >= 0 && slippage >= 0
    ensures PriceLimit(touch, side, slippage).None? <==>
              touch * slippage > INT64_MAX || (side.Ask? && touch + touch * slippage / ONE_HUNDRED_PERCENT > INT64_MAX)
  {
    ProductOfNats(touch, slippage);
  }

  /** No book has all of its levels excluded, so that answer never comes back. */
  lemma NeverExcludesAll(side: Side, ls: seq<Level>, slippage: int64)
    requires Walkable(side, ls)
    ensures !Executable(ls, side, slippage).status.LimitExcludedAll?
  {
    hide PriceLimit, Vwap, BpsBetween;
    if slippage >= 0 && ls != [] && PriceLimit(ls[0].price, side, slippage).Some? {
      LimitIsTight(ls[0].price, side, slippage);
    }
  }

  /** An executable size can be had: trading it is the same fill, at the same price, worst price
      and number of levels. */
  lemma ExecutableIsReproduced(side: Side, ls: seq<Level>, slippage: int64)
    requires Walkable(side, ls) && Executable(ls, side, slippage).status.Ok?
    ensures var r := Executable(ls, side, slippage);
            var again := Trade(ls, side, r.qty);
            && again.status.Ok? && again.qty == r.qty && again.vwap == r.vwap && again.slippage == r.slippage
            && again.limitPrice == r.limitPrice && again.levels == r.levels && !again.exhausted
  {
    hide PriceLimit, Trade, Filled, Depth, Notional, Walkable, WithinCount;
    Plain(side, ls);
    var k := WithinCount(ls, side, PriceLimit(ls[0].price, side, slippage).value);
    if k > 0 && Notional(ls[..k]) <= INT64_MAX { TradeOfPrefix(ls, side, k); }
    FilledAgain(ls, side, Depth(ls[..k]), Notional(ls[..k]), k, k == |ls|);
  }

  /** Trading the size of the first `k` levels fills just those. */
  lemma TradeOfPrefix(ls: seq<Level>, side: Side, k: nat)
    requires (forall i :: 0 <= i < |ls| ==> LevelOk(ls[i])) && 0 < k <= |ls| && Notional(ls[..k]) <= INT64_MAX
    ensures Depth(ls[..k]) > 0 && INT64_MIN <= ls[0].price <= INT64_MAX
    ensures Trade(ls, side, Depth(ls[..k])) == Filled(ls, side, Depth(ls[..k]), Notional(ls[..k]), k, false)
  {
    hide Filled, Cost, Used, Depth, Notional;
    assert LevelOk(ls[0]);
    assert ls == ls[..k] + ls[k..];
    CostOfPrefix(ls[..k], ls[k..]);
    SumsConcat(ls[..k], ls[k..]);
    DepthPositive(ls[..k]);
    DepthPositive(ls[k..]);
  }

  lemma FilledAgain(ls: seq<Level>, side: Side, qty: int, notional: int, k: nat, exhausted: bool)
    requires 0 < k <= |ls| && qty > 0 && INT64_MIN <= ls[0].price <= INT64_MAX
    ensures var r := Filled(ls, side, qty, notional, k, false);
            Filled(ls, side, qty, notional, k, exhausted) == r.(exhausted := exhausted)
    ensures var r := Filled(ls, side, qty, notional, k, exhausted);
            r.status.Ok? && r.qty == qty && r.levels == k && !Filled(ls, side, qty, notional, k, false).exhausted
  {
    hide Vwap, BpsBetween;
  }

  /** Where the multiply fits, slippage is the exact ratio rounded toward zero - at a negative touch
      the ratio's sign is turned round; where it does not fit, or the touch is zero, it is zero. */
  lemma SlippageIsTight(reference: int64, moved: int64)
    ensures var away := Max(moved - reference, reference - moved);
            var s := BpsBetween(reference, moved);
            if reference == 0 || away * ONE_HUNDRED_PERCENT > INT64_MAX then s == 0
            else if reference > 0 then
              0 <= s && s * reference <= away * ONE_HUNDRED_PERCENT < s * reference + reference
            else s <= 0 && s * reference <= away * ONE_HUNDRED_PERCENT < s * reference - reference
  {
    hide TruncDiv;
    var scaled := Max(moved - reference, reference - moved) * ONE_HUNDRED_PERCENT;
    if reference > 0 { RoundsDown(scaled, reference); }
    if reference < 0 {
      RoundsDown(scaled, 0 - reference);
      TruncOfNegative(scaled, reference);
    }
  }

  lemma TruncOfNegative(n: nat, d: int)
    requires d < 0
    ensures TruncDiv(n, d) == -TruncDiv(n, 0 - d) && TruncDiv(n, d) * d == TruncDiv(n, 0 - d) * (0 - d)
  {
    Negations(TruncDiv(n, 0 - d), d);
  }

  /** What an executable size promises: the average is away from the touch by no more than the budget,
      exactly and as reported. */
  lemma BudgetIsKept(side: Side, ls: seq<Level>, slippage: int64)
    requires Walkable(side, ls) && Executable(ls, side, slippage).status.Ok?
    ensures var r := Executable(ls, side, slippage);
            var away := Signed(side, r.vwap) - Signed(side, ls[0].price);
            && 0 <= away && away * ONE_HUNDRED_PERCENT <= ls[0].price * slippage
            && 0 <= r.slippage <= slippage
  {
    hide Trade, Vwap, BpsBetween, PriceLimit, WithinCount, Depth, Notional, Walkable;
    Plain(side, ls);
    var r, touch := Executable(ls, side, slippage), ls[0].price;
    var limit := PriceLimit(touch, side, slippage).value;
    LimitIsTight(touch, side, slippage);
    ExecutableIsReproduced(side, ls, slippage);
    VwapIsTightAndBetween(side, ls, r.qty);
    WithinExactly(side, ls, limit);
    assert Within(side, ls[WithinCount(ls, side, limit) - 1].price, limit);
    Scaled(Signed(side, r.vwap) - Signed(side, touch), Signed(side, limit) - Signed(side, touch));
    if INT64_MIN <= r.vwap <= INT64_MAX {
      SlippageIsTight(touch, r.vwap);
      if r.slippage > slippage { Overspent(r.slippage, slippage, touch); }
    }
  }

  lemma Scaled(a: int, b: int)
    requires a <= b
    ensures a * ONE_HUNDRED_PERCENT <= b * ONE_HUNDRED_PERCENT
  {
  }

  lemma Overspent(s: int, budget: int, touch: nat)
    requires s > budget
    ensures s * touch >= touch * budget + touch
  {
    Distribute(s - budget, budget, touch);
    Dearer(touch, 1, s - budget);
  }

  /** A trade reports how far its average is from the touch, in millionths of the touch, rounded down -
      where that can be computed; it is zero where it cannot. */
  lemma TradeReportsSlippage(side: Side, ls: seq<Level>, wanted: int)
    requires Walkable(side, ls) && Trade(ls, side, wanted).status.Ok?
    ensures var r, touch := Trade(ls, side, wanted), ls[0].price;
            var away := if r.vwap > touch then r.vwap - touch else touch - r.vwap;
            if touch > 0 && away * 1_000_000 <= INT64_MAX then
              r.slippage * touch <= away * 1_000_000 < r.slippage * touch + touch
            else r.slippage == 0
  {
    hide Vwap, Cost, Used, Depth, BpsBetween;
    Plain(side, ls);
    VwapIsTightAndBetween(side, ls, wanted);
    var r := Trade(ls, side, wanted);
    LastIsOnTheBook(side, ls, wanted);
    SlippageIsTight(ls[0].price, r.vwap);
  }

  lemma LastIsOnTheBook(side: Side, ls: seq<Level>, wanted: int)
    requires Walkable(side, ls) && Trade(ls, side, wanted).status.Ok?
    ensures 0 <= Trade(ls, side, wanted).limitPrice <= INT64_MAX
  {
    hide Vwap, Cost, Depth, BpsBetween;
    var k := Used(ls, wanted);
    assert LevelOk(ls[k - 1]);
  }

  lemma RoundsDown(n: nat, d: nat)
    requires d > 0
    ensures 0 <= TruncDiv(n, d) && TruncDiv(n, d) * d <= n < TruncDiv(n, d) * d + d
  {
    hide TruncDiv, TruncRem;
    TruncSplit(n, d);
    MultipleBound(TruncDiv(n, d), d);
  }

  // ----- the walks over a book -----

  /** Every level of a side, as an uninterrupted visit hands them over. */
  method Listing(book: L2Book, side: Side) returns (ls: seq<Level>)
    requires book.Valid()
    ensures ls == InOrder(side, book.Levels(side)) && Walkable(side, ls)
  {
    hide ArraySide.Consistent, ArraySide.Amortised, InOrder;
    var more := (v: seq<Level>) => true;
    ls := book.SideOf(side).ForEach(more);
    ghost var m := book.Levels(side);
    VisitAll(InOrder(side, m), 0, more);
    InOrderLists(side, m);
    assert Visited(InOrder(side, m), more) == InOrder(side, m);
    forall i | 0 <= i < |ls| ensures LevelOk(ls[i]) {
      assert ls[i] in ls;
    }
  }

  lemma CostPositive(ls: seq<Level>, w: int)
    requires forall i :: 0 <= i < |ls| ==> LevelOk(ls[i])
    ensures Cost(ls, w) >= 0
  {
    if ls != [] && w > 0 {
      CostPositive(ls[1..], w - Min(ls[0].qty, w));
      ProductOfNats(ls[0].price, Min(ls[0].qty, w));
    }
  }

  lemma NotionalPositive(ls: seq<Level>)
    requires forall i :: 0 <= i < |ls| ==> LevelOk(ls[i])
    ensures Notional(ls) >= 0
  {
    if ls != [] {
      NotionalPositive(ls[1..]);
      ProductOfNats(ls[0].price, ls[0].qty);
    }
  }

  /** Fill `wanted` from the touch on, one level at a time. */
  method CostToTrade(book: L2Book, side: Side, wanted: int64) returns (r: Fill)
    requires book.Valid()
    ensures Walkable(side, InOrder(side, book.Levels(side)))
    ensures r == Trade(InOrder(side, book.Levels(side)), side, wanted)
  {
    hide InOrder, L2Book.Valid, Vwap, BpsBetween, Cost, Used, Walkable, LevelOk, Depth;
    var ls := Listing(book, side);
    Plain(side, ls);
    if wanted <= 0 {
      return Failed(InvalidRequest, false);
    }
    if ls == [] {
      return Failed(EmptyBook, true);
    }
    WalkStart(ls, wanted);
    var notional, remaining, levels := 0, wanted, 0;
    while levels < |ls| && remaining > 0
      invariant 0 <= levels <= |ls| && 0 <= remaining <= wanted && 0 <= notional <= INT64_MAX
      invariant WalkedTo(ls, wanted, notional, remaining, levels)
    {
      var level := ls[levels];
      var take := Min(level.qty, remaining);
      WalkNext(ls, wanted, notional, remaining, levels);
      var contribution := CheckedMulSigned(level.price, take);
      if contribution.None? {
        return Failed(Overflow, false);
      }
      var sum := CheckedAddSigned(notional, contribution.value);
      if sum.None? {
        return Failed(Overflow, false);
      }
      notional := sum.value;
      remaining := remaining - take;
      levels := levels + 1;
    }
    WalkEnd(ls, wanted, notional, remaining, levels);
    r := Filled(ls, side, wanted - remaining, notional, levels, remaining > 0);
  }

  lemma Plain(side: Side, ls: seq<Level>)
    requires Walkable(side, ls)
    ensures forall i :: 0 <= i < |ls| ==> LevelOk(ls[i])
    ensures ls != [] ==> INT64_MIN <= ls[0].price <= INT64_MAX
  {
  }

  /** What the walk has paid, what it still wants and how far it is, against the whole fill. */
  ghost predicate WalkedTo(ls: seq<Level>, wanted: int, notional: int, remaining: int, levels: nat) {
    && levels <= |ls| && 0 <= remaining <= wanted
    && Cost(ls, wanted) == notional + Cost(ls[levels..], remaining)
    && Used(ls, wanted) == levels + Used(ls[levels..], remaining)
    && wanted - remaining == Min(wanted, Depth(ls) - Depth(ls[levels..]))
    && (levels > 0 ==> remaining < wanted)
  }

  lemma WalkStart(ls: seq<Level>, wanted: int)
    requires wanted > 0 && forall i :: 0 <= i < |ls| ==> LevelOk(ls[i])
    ensures WalkedTo(ls, wanted, 0, wanted, 0)
  {
    hide Cost, Used, Depth;
    assert ls[0..] == ls;
  }

  lemma WalkNext(ls: seq<Level>, wanted: int, notional: int, remaining: int, levels: nat)
    requires WalkedTo(ls, wanted, notional, remaining, levels) && levels < |ls| && remaining > 0
    requires forall i :: 0 <= i < |ls| ==> LevelOk(ls[i])
    ensures var take := Min(ls[levels].qty, remaining);
            && 0 <= ls[levels].price <= INT64_MAX && 0 < take && 0 <= ls[levels].price * take
            && notional + ls[levels].price * take <= Cost(ls, wanted)
            && WalkedTo(ls, wanted, notional + ls[levels].price * take, remaining - take, levels + 1)
  {
    assert LevelOk(ls[levels]);
    var take := Min(ls[levels].qty, remaining);
    assert ls[levels..][1..] == ls[levels + 1..];
    CostPositive(ls[levels + 1..], remaining - take);
    DepthPositive(ls[levels + 1..]);
    ProductOfNats(ls[levels].price, take);
  }

  lemma WalkEnd(ls: seq<Level>, wanted: int, notional: int, remaining: int, levels: nat)
    requires WalkedTo(ls, wanted, notional, remaining, levels) && (levels == |ls| || remaining == 0)
    requires ls != [] && wanted > 0 && forall i :: 0 <= i < |ls| ==> LevelOk(ls[i])
    ensures Cost(ls, wanted) == notional && Used(ls, wanted) == levels > 0
    ensures wanted - remaining == Min(wanted, Depth(ls)) > 0 && (remaining > 0 <==> wanted > Depth(ls))
  {
    DepthPositive(ls[levels..]);
    DepthPositive(ls);
  }

  /** Take whole levels until the price passes the limit. */
  method ExecutableSize(book: L2Book, side: Side, slippage: int64) returns (r: Fill)
    requires book.Valid()
    ensures Walkable(side, InOrder(side, book.Levels(side)))
    ensures r == Executable(InOrder(side, book.Levels(side)), side, slippage)
  {
    hide InOrder, L2Book.Valid, Vwap, BpsBetween, PriceLimit, Walkable, Notional, Depth;
    var ls := Listing(book, side);
    Plain(side, ls);
    NoLevels(ls[..0]);
    if slippage < 0 {
      return Failed(InvalidRequest, false);
    }
    if ls == [] {
      return Failed(EmptyBook, true);
    }
    var limit := PriceLimit(ls[0].price, side, slippage);
    if limit.None? {
      return Failed(Overflow, false);
    }
    ghost var k := WithinCount(ls, side, limit.value);
    var notional, total, levels := 0, 0, 0;
    while levels < |ls| && Within(side, ls[levels].price, limit.value)
      invariant 0 <= levels <= |ls| && k == levels + WithinCount(ls[levels..], side, limit.value)
      invariant 0 <= notional == Notional(ls[..levels]) <= INT64_MAX && 0 <= total == Depth(ls[..levels]) <= INT64_MAX
    {
      var level := ls[levels];
      assert ls[levels..][1..] == ls[levels + 1..];
      OneMoreLevel(ls, levels, k);
      ProductOfNats(level.price, level.qty);
      var contribution := CheckedMulSigned(level.price, level.qty);
      if contribution.None? {
        return Failed(Overflow, false);
      }
      var sum := CheckedAddSigned(notional, contribution.value);
      if sum.None? {
        return Failed(Overflow, false);
      }
      var qty := CheckedAddSigned(total, level.qty);
      if qty.None? {
        return Failed(Overflow, false);
      }
      notional, total, levels := sum.value, qty.value, levels + 1;
    }
    assert k == levels;
    if total == 0 {
      DepthPositive(ls[..k]);
      return Failed(LimitExcludedAll, false);
    }
    r := Filled(ls, side, total, notional, levels, levels == |ls|);
  }

  lemma NoLevels(ls: seq<Level>)
    requires ls == []
    ensures Notional(ls) == 0 && Depth(ls) == 0
  {
  }

  lemma OneMoreLevel(ls: seq<Level>, i: nat, k: nat)
    requires i < k <= |ls| && forall j :: 0 <= j < |ls| ==> LevelOk(ls[j])
    ensures Notional(ls[..i + 1]) == Notional(ls[..i]) + ls[i].price * ls[i].qty <= Notional(ls[..k])
    ensures Depth(ls[..i + 1]) == Depth(ls[..i]) + ls[i].qty <= Depth(ls[..k])
  {
    assert ls[..i + 1] == ls[..i] + [ls[i]];
    SumsConcat(ls[..i], [ls[i]]);
    assert [ls[i]][1..] == [];
    assert ls[..k] == ls[..i + 1] + ls[i + 1..k];
    SumsConcat(ls[..i + 1], ls[i + 1..k]);
    NotionalPositive(ls[i + 1..k]);
    DepthPositive(ls[i + 1..k]);
  }
}
