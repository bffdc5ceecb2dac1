/** What an order-by-order book means: who rests where, and who came first.  Orders are numbered as
    they arrive or lose priority; a queue is the orders of one price by that number. */
module NaiveBook {
  import opened CoreTypes

  datatype Entry = Entry(side: Side, price: int, qty: int, arrival: nat)
  datatype Model = Model(orders: map<OrderId, Entry>, nextArrival: nat)

  const EMPTY_MODEL := Model(map[], 0)

  datatype Op =
    | Add(id: OrderId, side: Side, price: int, qty: int)
    | Modify(id: OrderId, qty: int)
    | Remove(id: OrderId)
    | Execute(id: OrderId, traded: int)
    | Clear

  /** The book after one operation, and what the operation answers. */
  function Apply(m: Model, op: Op): (Model, bool) {
    match op
    case Add(id, side, price, qty) =>
      if qty <= 0 || id in m.orders then (m, false)
      else (Model(m.orders[id := Entry(side, price, qty, m.nextArrival)], m.nextArrival + 1), true)
    case Modify(id, qty) =>
      if id !in m.orders then (m, false)
      else if qty <= 0 then (m.(orders := m.orders - {id}), true)
      else if qty > m.orders[id].qty then
        // An increase goes to the back of the queue.
        (Model(m.orders[id := m.orders[id].(qty := qty, arrival := m.nextArrival)], m.nextArrival + 1), true)
      else (m.(orders := m.orders[id := m.orders[id].(qty := qty)]), true)
    case Remove(id) =>
      (m.(orders := m.orders - {id}), id in m.orders)
    case Execute(id, traded) =>
      if id !in m.orders || traded <= 0 then (m, false)
      else if traded >= m.orders[id].qty then (m.(orders := m.orders - {id}), true)
      else (m.(orders := m.orders[id := m.orders[id].(qty := m.orders[id].qty - traded)]), true)
    case Clear => (Model(map[], m.nextArrival), true)
  }

  ghost predicate ModelOk(m: Model) {
    && (forall id :: id in m.orders ==> m.orders[id].qty > 0 && m.orders[id].arrival < m.nextArrival)
    && (forall a, b :: a in m.orders && b in m.orders && a != b ==> m.orders[a].arrival != m.orders[b].arrival)
  }

  lemma ApplyKeepsModelOk(m: Model, op: Op)
    requires ModelOk(m)
    ensures ModelOk(Apply(m, op).0)
  {
  }

  // ----- totals -----

  ghost function SumQty(orders: map<OrderId, Entry>, ids: set<OrderId>): int
    requires ids <= orders.Keys
  {
    if ids == {} then 0
    else
      assert (forall x :: x !in ids) ==> ids == {};
      var x :| x in ids;
      orders[x].qty + SumQty(orders, ids - {x})
  }

  lemma {:induction false} SumQtyRemove(orders: map<OrderId, Entry>, ids: set<OrderId>, y: OrderId)
    requires ids <= orders.Keys && y in ids
    ensures SumQty(orders, ids) == orders[y].qty + SumQty(orders, ids - {y})
  {
    assert (forall x :: x !in ids) ==> ids == {};
    var x :| x in ids && SumQty(orders, ids) == orders[x].qty + SumQty(orders, ids - {x});
    if x != y {
      SumQtyRemove(orders, ids - {x}, y);
      SumQtyRemove(orders, ids - {y}, x);
      assert ids - {x} - {y} == ids - {y} - {x};
    }
  }

  /** Fewer and smaller positive quantities add up to no more. */
  lemma {:induction false} SumQtyMonotone(a: map<OrderId, Entry>, s: set<OrderId>, b: map<OrderId, Entry>,
      t: set<OrderId>)
    requires s <= t && s <= a.Keys && t <= b.Keys
    requires forall x :: x in s ==> a[x].qty <= b[x].qty
    requires forall x :: x in t ==> b[x].qty >= 0
    ensures SumQty(a, s) <= SumQty(b, t)
    decreases t
  {
    if t != {} {
      assert (forall x :: x !in t) ==> t == {};
      var x :| x in t;
      SumQtyRemove(b, t, x);
      if x in s {
        SumQtyRemove(a, s, x);
        SumQtyMonotone(a, s - {x}, b, t - {x});
      } else {
        SumQtyMonotone(a, s, b, t - {x});
      }
    }
  }

  /** The ids resting at one price of one side. */
  ghost function AtPrice(m: Model, side: Side, price: int): set<OrderId> {
    set id | id in m.orders && m.orders[id].side == side && m.orders[id].price == price
  }

  /** `ids` are live orders, earliest arrival first. */
  ghost predicate ByArrival(m: Model, ids: seq<OrderId>) {
    && (forall k :: 0 <= k < |ids| ==> ids[k] in m.orders)
    && (forall j, k :: 0 <= j < k < |ids| ==> m.orders[ids[j]].arrival < m.orders[ids[k]].arrival)
  }

  /** The queue at a price: all of its orders and no others, earliest arrival first. */
  ghost predicate IsQueue(m: Model, side: Side, price: int, ids: seq<OrderId>) {
    ByArrival(m, ids) && forall id :: id in ids <==> id in AtPrice(m, side, price)
  }

  /** There is only one such order of them. */
  lemma {:induction false} QueueIsUnique(m: Model, a: seq<OrderId>, b: seq<OrderId>)
    requires ByArrival(m, a) && ByArrival(m, b) && forall id :: id in a <==> id in b
    ensures a == b
  {
    if a == [] || b == [] {
      SameEmptiness(a, b);
    } else {
      assert a[0] in b && b[0] in a;
      forall id ensures id in a[1..] <==> id in b[1..] {
        BehindFirst(m, a, id);
        BehindFirst(m, b, id);
      }
      QueueIsUnique(m, a[1..], b[1..]);
    }
  }

  lemma SameEmptiness(a: seq<OrderId>, b: seq<OrderId>)
    requires forall id :: id in a <==> id in b
    ensures a == [] <==> b == []
  {
    if a != [] { assert a[0] in a; }
    if b != [] { assert b[0] in b; }
  }

  lemma BehindFirst(m: Model, ids: seq<OrderId>, id: OrderId)
    requires ByArrival(m, ids) && ids != []
    ensures id in ids[1..] <==> id in ids && id != ids[0]
  {
    if id in ids && id != ids[0] {
      var k :| 0 <= k < |ids| && ids[k] == id;
      assert ids[1..][k - 1] == id;
    }
  }

  ghost function Total(m: Model, side: Side, price: int): int {
    SumQty(m.orders, AtPrice(m, side, price))
  }

  /** The L2 projection of one side: each occupied price with its total. */
  ghost function Totals(m: Model, side: Side): map<int, int> {
    map price | price in (set id | id in m.orders && m.orders[id].side == side :: m.orders[id].price)
      :: Total(m, side, price)
  }

  /** Orders at the price of `id` with a smaller arrival number. */
  ghost function Ahead(m: Model, id: OrderId): set<OrderId>
    requires id in m.orders
  {
    set x | x in m.orders && m.orders[x].side == m.orders[id].side
            && m.orders[x].price == m.orders[id].price && m.orders[x].arrival < m.orders[id].arrival
  }

  ghost function QueueAhead(m: Model, id: OrderId): int
    requires id in m.orders
  {
    SumQty(m.orders, Ahead(m, id))
  }

  // ----- the volume ahead of a resting order never grows -----

  /** `op` leaves order `id` resting and does not increase its size. */
  predicate KeepsPlace(m: Model, op: Op, id: OrderId) {
    && id in m.orders && id in Apply(m, op).0.orders
    && !(op.Modify? && op.id == id && op.qty > m.orders[id].qty)
  }

  lemma AheadNeverGrows(m: Model, op: Op, id: OrderId)
    requires ModelOk(m) && KeepsPlace(m, op, id)
    ensures QueueAhead(Apply(m, op).0, id) <= QueueAhead(m, id)
    ensures Ahead(Apply(m, op).0, id) <= Ahead(m, id)
  {
    var after := Apply(m, op).0;
    assert after.orders[id].arrival == m.orders[id].arrival;
    assert after.orders[id].side == m.orders[id].side && after.orders[id].price == m.orders[id].price;
    forall x | x in Ahead(after, id)
      ensures x in Ahead(m, id) && after.orders[x].qty <= m.orders[x].qty
    {
      assert after.orders[x].arrival < m.nextArrival;
    }
    SumQtyMonotone(after.orders, Ahead(after, id), m.orders, Ahead(m, id));
  }

  function Run(m: Model, ops: seq<Op>): Model
    decreases |ops|
  {
    if ops == [] then m else Run(Apply(m, ops[0]).0, ops[1..])
  }

  predicate KeepsPlaceThrough(m: Model, ops: seq<Op>, id: OrderId)
    decreases |ops|
  {
    id in m.orders &&
    (ops != [] ==> KeepsPlace(m, ops[0], id) && KeepsPlaceThrough(Apply(m, ops[0]).0, ops[1..], id))
  }

  lemma {:induction false} AheadNeverGrowsInARun(m: Model, ops: seq<Op>, id: OrderId)
    requires ModelOk(m) && KeepsPlaceThrough(m, ops, id)
    ensures id in Run(m, ops).orders
    ensures QueueAhead(Run(m, ops), id) <= QueueAhead(m, id)
    decreases |ops|
  {
    if ops != [] {
      ApplyKeepsModelOk(m, ops[0]);
      AheadNeverGrows(m, ops[0], id);
      AheadNeverGrowsInARun(Apply(m, ops[0]).0, ops[1..], id);
    }
  }

  // ----- what each operation leaves -----

  /** What `id` contributes to the total at a price. */
  ghost function Share(m: Model, id: OrderId, side: Side, price: int): int {
    if id in m.orders && m.orders[id].side == side && m.orders[id].price == price then m.orders[id].qty else 0
  }

  /** Every order but `id` is as it was. */
  ghost predicate OthersSame(m: Model, after: Model, id: OrderId) {
    forall x: OrderId :: x != id ==>
      (x in after.orders <==> x in m.orders) && (x in m.orders ==> after.orders[x] == m.orders[x])
  }

  lemma {:induction false} SumQtySame(a: map<OrderId, Entry>, b: map<OrderId, Entry>, ids: set<OrderId>)
    requires ids <= a.Keys && ids <= b.Keys && forall x :: x in ids ==> a[x] == b[x]
    ensures SumQty(a, ids) == SumQty(b, ids)
  {
    if x :| x in ids {
      SumQtyRemove(a, ids, x);
      SumQtyRemove(b, ids, x);
      SumQtySame(a, b, ids - {x});
    } else {
      assert (forall x :: x !in ids) ==> ids == {};
    }
  }

  /** Two sets of orders that differ in `id` alone differ in sum by what it holds in each. */
  lemma SumsDiffer(m: Model, after: Model, id: OrderId, s: set<OrderId>, t: set<OrderId>)
    requires OthersSame(m, after, id) && s <= m.orders.Keys && t <= after.orders.Keys && s - {id} == t - {id}
    ensures SumQty(after.orders, t) - (if id in t then after.orders[id].qty else 0)
         == SumQty(m.orders, s) - (if id in s then m.orders[id].qty else 0)
  {
    if id in s { SumQtyRemove(m.orders, s, id); } else { assert s - {id} == s; }
    if id in t { SumQtyRemove(after.orders, t, id); } else { assert t - {id} == t; }
    SumQtySame(m.orders, after.orders, s - {id});
  }

  lemma TotalsDiffer(m: Model, after: Model, id: OrderId, side: Side, price: int)
    requires OthersSame(m, after, id)
    ensures Total(after, side, price) - Share(after, id, side, price)
         == Total(m, side, price) - Share(m, id, side, price)
  {
    SumsDiffer(m, after, id, AtPrice(m, side, price), AtPrice(after, side, price));
  }

  /** When an operation succeeds; when it does not, nothing changes. */
  lemma Answers(m: Model, id: OrderId, side: Side, price: int, qty: int)
    ensures Apply(m, Add(id, side, price, qty)).1 <==> qty > 0 && id !in m.orders
    ensures Apply(m, Modify(id, qty)).1 <==> id in m.orders
    ensures Apply(m, Remove(id)).1 <==> id in m.orders
    ensures Apply(m, Execute(id, qty)).1 <==> id in m.orders && qty > 0
    ensures !Apply(m, Add(id, side, price, qty)).1 ==> Apply(m, Add(id, side, price, qty)).0 == m
    ensures !Apply(m, Modify(id, qty)).1 ==> Apply(m, Modify(id, qty)).0 == m
    ensures !Apply(m, Remove(id)).1 ==> Apply(m, Remove(id)).0 == m
    ensures !Apply(m, Execute(id, qty)).1 ==> Apply(m, Execute(id, qty)).0 == m
  {
    if id !in m.orders { assert m.orders - {id} == m.orders; }
  }

  /** A new order rests behind everything at its price, and adds its quantity there and nowhere else. */
  lemma AddJoinsTheBack(m: Model, id: OrderId, side: Side, price: int, qty: int)
    requires ModelOk(m) && qty > 0 && id !in m.orders
    ensures var after := Apply(m, Add(id, side, price, qty)).0;
            && OthersSame(m, after, id) && id in after.orders
            && after.orders[id].side == side && after.orders[id].price == price && after.orders[id].qty == qty
            && QueueAhead(after, id) == Total(m, side, price)
            && forall s: Side, p: int :: Total(after, s, p) ==
                 Total(m, s, p) + (if s == side && p == price then qty else 0)
  {
    hide Total;
    var after := Apply(m, Add(id, side, price, qty)).0;
    forall s: Side, p: int
      ensures Total(after, s, p) == Total(m, s, p) + (if s == side && p == price then qty else 0)
    {
      TotalsDiffer(m, after, id, s, p);
    }
    AheadOfNewest(m, after, id);
  }

  /** Who arrived last has everyone else at its price ahead. */
  lemma AheadOfNewest(m: Model, after: Model, id: OrderId)
    requires ModelOk(m) && OthersSame(m, after, id) && id in after.orders && after.orders[id].arrival == m.nextArrival
    ensures var e := after.orders[id];
            QueueAhead(after, id) == Total(m, e.side, e.price) - Share(m, id, e.side, e.price)
  {
    var e := after.orders[id];
    var s := AtPrice(m, e.side, e.price);
    assert Ahead(after, id) == s - {id};
    SumsDiffer(m, after, id, s, s - {id});
  }

  /** A removed order is gone, and its quantity with it. */
  lemma RemoveTakesItsOwn(m: Model, id: OrderId)
    requires ModelOk(m) && id in m.orders
    ensures var after, e := Apply(m, Remove(id)).0, m.orders[id];
            && OthersSame(m, after, id) && id !in after.orders
            && forall s: Side, p: int :: Total(after, s, p) ==
                 Total(m, s, p) - (if s == e.side && p == e.price then e.qty else 0)
  {
    hide Total;
    var after, e := Apply(m, Remove(id)).0, m.orders[id];
    forall s: Side, p: int
      ensures Total(after, s, p) == Total(m, s, p) - (if s == e.side && p == e.price then e.qty else 0)
    {
      TotalsDiffer(m, after, id, s, p);
    }
  }

  /** A modified order rests at its price with the new quantity, or is gone at zero or below; an
      increase puts everyone else at the price ahead of it, and anything else leaves its place. */
  lemma ModifySetsTheQuantity(m: Model, id: OrderId, qty: int)
    requires ModelOk(m) && id in m.orders
    ensures var after, e := Apply(m, Modify(id, qty)).0, m.orders[id];
            && OthersSame(m, after, id) && (id in after.orders <==> qty > 0)
            && (qty > 0 ==> after.orders[id].side == e.side && after.orders[id].price == e.price
                            && after.orders[id].qty == qty)
            && (0 < qty <= e.qty ==> QueueAhead(after, id) == QueueAhead(m, id))
            && (qty > e.qty ==> QueueAhead(after, id) == Total(m, e.side, e.price) - e.qty)
            && forall s: Side, p: int :: Total(after, s, p) ==
                 Total(m, s, p) + (if s == e.side && p == e.price then (if qty > 0 then qty else 0) - e.qty else 0)
  {
    hide Total, QueueAhead;
    var after, e := Apply(m, Modify(id, qty)).0, m.orders[id];
    forall s: Side, p: int
      ensures Total(after, s, p) ==
              Total(m, s, p) + (if s == e.side && p == e.price then (if qty > 0 then qty else 0) - e.qty else 0)
    {
      TotalsDiffer(m, after, id, s, p);
    }
    if qty > e.qty { AheadOfNewest(m, after, id); }
    if 0 < qty <= e.qty { AheadStays(m, after, id); }
  }

  /** Quantity is conserved by a trade: what rests and what traded make up what rested.  The total at
      the price falls by exactly what traded; place and every other order are as they were. */
  lemma ExecuteConserves(m: Model, id: OrderId, traded: int)
    requires ModelOk(m) && id in m.orders && traded > 0
    ensures var after, e := Apply(m, Execute(id, traded)).0, m.orders[id];
            var done := if traded < e.qty then traded else e.qty;
            && OthersSame(m, after, id) && (id in after.orders <==> traded < e.qty)
            && (id in after.orders ==> after.orders[id].side == e.side && after.orders[id].price == e.price
                                       && after.orders[id].qty + done == e.qty
                                       && QueueAhead(after, id) == QueueAhead(m, id))
            && forall s: Side, p: int :: Total(after, s, p) ==
                 Total(m, s, p) - (if s == e.side && p == e.price then done else 0)
  {
    hide Total, QueueAhead;
    var after, e := Apply(m, Execute(id, traded)).0, m.orders[id];
    var done := if traded < e.qty then traded else e.qty;
    forall s: Side, p: int
      ensures Total(after, s, p) == Total(m, s, p) - (if s == e.side && p == e.price then done else 0)
    {
      TotalsDiffer(m, after, id, s, p);
    }
    if id in after.orders { AheadStays(m, after, id); }
  }

  lemma AheadStays(m: Model, after: Model, id: OrderId)
    requires OthersSame(m, after, id) && id in m.orders && id in after.orders
    requires after.orders[id] == m.orders[id].(qty := after.orders[id].qty)
    ensures QueueAhead(after, id) == QueueAhead(m, id)
  {
    assert Ahead(after, id) == Ahead(m, id);
    SumsDiffer(m, after, id, Ahead(m, id), Ahead(m, id));
  }

  /** Whoever was behind moves up by exactly what left in front: a trade or a removal ahead of an order
      is seen in its volume ahead, and one anywhere else is not. */
  lemma OthersMoveUp(m: Model, op: Op, other: OrderId)
    requires ModelOk(m) && (op.Execute? || op.Remove?) && op.id in m.orders && other in m.orders && other != op.id
    ensures var after, e, o := Apply(m, op).0, m.orders[op.id], m.orders[other];
            var left := if op.id in after.orders then after.orders[op.id].qty else 0;
            var ahead := e.side == o.side && e.price == o.price && e.arrival < o.arrival;
            && other in after.orders
            && QueueAhead(m, other) - QueueAhead(after, other) == if ahead then e.qty - left else 0
  {
    var after := Apply(m, op).0;
    SumsDiffer(m, after, op.id, Ahead(m, other), Ahead(after, other));
  }

  // ----- the most orders ever live -----

  /** How many order slots an operation that ends in `after` leaves in use, from `slots` before. */
  function Peak(slots: nat, op: Op, after: Model): nat {
    if op.Clear? then 0 else Max(slots, |after.orders|)
  }

  function PeakOfRun(slots: nat, m: Model, ops: seq<Op>): nat
    decreases |ops|
  {
    if ops == [] then slots
    else
      var after := Apply(m, ops[0]).0;
      PeakOfRun(Peak(slots, ops[0], after), after, ops[1..])
  }

  /** How many orders are live after the first `i` operations. */
  function LiveAfter(m: Model, ops: seq<Op>, i: nat): nat
    requires i <= |ops|
  {
    |Run(m, ops[..i]).orders|
  }

  /** Until the book is cleared, that is the larger of where it started and the most orders that were
      live at once at any point of the run. */
  lemma {:induction false} PeakIsLargest(slots: nat, m: Model, ops: seq<Op>)
    requires |m.orders| <= slots && forall i :: 0 <= i < |ops| ==> !ops[i].Clear?
    ensures var peak := PeakOfRun(slots, m, ops);
            && slots <= peak && (forall i :: 0 <= i <= |ops| ==> LiveAfter(m, ops, i) <= peak)
            && (peak == slots || exists i :: 0 <= i <= |ops| && LiveAfter(m, ops, i) == peak)
    decreases |ops|
  {
    hide Apply, LiveAfter;
    LiveAtStart(m, ops);
    if ops != [] {
      var after, rest := Apply(m, ops[0]).0, ops[1..];
      var next := Peak(slots, ops[0], after);
      PeakIsLargest(next, after, rest);
      forall i | 0 < i <= |ops| ensures LiveAfter(m, ops, i) == LiveAfter(after, rest, i - 1) {
        LiveLater(m, ops, i);
      }
      LiveAtStart(after, rest);
      var peak := PeakOfRun(slots, m, ops);
      if peak != next {
        var j :| 0 <= j <= |rest| && LiveAfter(after, rest, j) == peak;
        assert LiveAfter(m, ops, j + 1) == peak;
      } else if peak != slots {
        assert LiveAfter(m, ops, 1) == peak;
      }
    }
  }

  lemma LiveAtStart(m: Model, ops: seq<Op>)
    ensures LiveAfter(m, ops, 0) == |m.orders|
  {
  }

  lemma LiveLater(m: Model, ops: seq<Op>, i: nat)
    requires 0 < i <= |ops|
    ensures LiveAfter(m, ops, i) == LiveAfter(Apply(m, ops[0]).0, ops[1..], i - 1)
  {
    hide Apply;
    assert ops[..i][1..] == ops[1..][..i - 1];
  }

  /** Clearing starts over. */
  lemma {:induction false} PeakAfterClear(slots: nat, m: Model, a: seq<Op>, b: seq<Op>)
    ensures var cleared := Run(m, a + [Clear]);
            cleared.orders == map[] && PeakOfRun(slots, m, a + [Clear] + b) == PeakOfRun(0, cleared, b)
    decreases |a|
  {
    if a == [] {
      assert a + [Clear] + b == [Clear] + b && a + [Clear] == [Clear];
      assert ([Clear] + b)[1..] == b && [Clear][1..] == [];
    } else {
      var after := Apply(m, a[0]).0;
      PeakAfterClear(Peak(slots, a[0], after), after, a[1..], b);
      assert (a + [Clear] + b)[1..] == a[1..] + [Clear] + b && (a + [Clear])[1..] == a[1..] + [Clear];
    }
  }
}
